/**
 * The attack catalogue: for each attack type and facing, the fixed list of
 * cells around the player that the attack hits, filtered to the board
 * (main/main.py:207-241), and each type's cooldown (main/main.py:202).
 */
module AttackCatalog {

  import opened Grid

  datatype AttackType = A | S | D

  datatype Direction = Up | Down | Left | Right

  /** The number of turns an attack type stays unavailable after use. */
  function CooldownFor(t: AttackType): nat {
    match t
    case A => 3
    case S => 2
    case D => 5
  }

  predicate Distinct<T(==)>(s: seq<T>) {
    forall i, j :: 0 <= i < j < |s| ==> s[i] != s[j]
  }

  /** The cell k steps away from p in direction d (y grows downwards). */
  function Step(p: Pos, d: Direction, k: int): Pos {
    match d
    case Up => Pos(p.x, p.y - k)
    case Down => Pos(p.x, p.y + k)
    case Left => Pos(p.x - k, p.y)
    case Right => Pos(p.x + k, p.y)
  }

  /**
   * The number of cells between p and the edge of the board when looking in
   * direction d.
   */
  function Room(p: Pos, d: Direction): int {
    match d
    case Up => p.y
    case Down => GRID_SIZE - 1 - p.y
    case Left => p.x
    case Right => GRID_SIZE - 1 - p.x
  }

  /** The A attack's four-cell sweep, among the eight neighbours of p. */
  function SweepCells(p: Pos, d: Direction): (r: seq<Pos>)
    ensures |r| == 4 && p !in r && Distinct(r)
    ensures forall c :: c in r ==> Abs(c.x - p.x) <= 1 && Abs(c.y - p.y) <= 1
  {
    var x, y := p.x, p.y;
    match d
    case Up => [Pos(x-1, y-1), Pos(x, y-1), Pos(x+1, y-1), Pos(x+1, y)]
    case Right => [Pos(x+1, y-1), Pos(x+1, y), Pos(x+1, y+1), Pos(x, y+1)]
    case Down => [Pos(x-1, y+1), Pos(x, y+1), Pos(x+1, y+1), Pos(x-1, y)]
    case Left => [Pos(x-1, y-1), Pos(x-1, y), Pos(x-1, y+1), Pos(x, y-1)]
  }

  /** The S attack's three-cell wedge, among the eight neighbours of p. */
  function WedgeCells(p: Pos, d: Direction): (r: seq<Pos>)
    ensures |r| == 3 && p !in r && Distinct(r)
    ensures forall c :: c in r ==> Abs(c.x - p.x) <= 1 && Abs(c.y - p.y) <= 1
  {
    var x, y := p.x, p.y;
    match d
    case Up => [Pos(x-1, y), Pos(x-1, y-1), Pos(x, y-1)]
    case Right => [Pos(x, y-1), Pos(x+1, y-1), Pos(x+1, y)]
    case Down => [Pos(x+1, y), Pos(x+1, y+1), Pos(x, y+1)]
    case Left => [Pos(x, y+1), Pos(x-1, y+1), Pos(x-1, y)]
  }

  /** The D attack's line: the four cells straight ahead, nearest first. */
  function LineCells(p: Pos, d: Direction): (r: seq<Pos>)
    ensures |r| == 4 && p !in r && Distinct(r)
    ensures forall i :: 0 <= i < |r| ==> r[i] == Step(p, d, i + 1)
  {
    var x, y := p.x, p.y;
    match d
    case Up => [Pos(x, y-1), Pos(x, y-2), Pos(x, y-3), Pos(x, y-4)]
    case Right => [Pos(x+1, y), Pos(x+2, y), Pos(x+3, y), Pos(x+4, y)]
    case Down => [Pos(x, y+1), Pos(x, y+2), Pos(x, y+3), Pos(x, y+4)]
    case Left => [Pos(x-1, y), Pos(x-2, y), Pos(x-3, y), Pos(x-4, y)]
  }

  /** The table of cells before filtering, in the order the source lists them. */
  function RawCells(p: Pos, t: AttackType, d: Direction): (r: seq<Pos>)
    ensures |r| == if t == S then 3 else 4
    ensures p !in r
    ensures Distinct(r)
    ensures t != D ==> forall c :: c in r ==> Abs(c.x - p.x) <= 1 && Abs(c.y - p.y) <= 1
    ensures t == D ==> forall i :: 0 <= i < |r| ==> r[i] == Step(p, d, i + 1)
  {
    match t
    case A => SweepCells(p, d)
    case S => WedgeCells(p, d)
    case D => LineCells(p, d)
  }

  /** The facing a quarter turn clockwise from d, as seen on screen. */
  function Next(d: Direction): Direction {
    match d
    case Up => Right
    case Right => Down
    case Down => Left
    case Left => Up
  }

  /**
   * The cell c turned a quarter turn clockwise about p, as seen on screen
   * (y grows downwards): the cell above p goes to the cell right of p.
   */
  function Rot(p: Pos, c: Pos): Pos {
    Pos(p.x - (c.y - p.y), p.y + (c.x - p.x))
  }

  /** The inverse of Rot: a quarter turn anticlockwise about p. */
  function RotBack(p: Pos, c: Pos): (r: Pos)
    ensures Rot(p, r) == c
  {
    Pos(p.x + (c.y - p.y), p.y - (c.x - p.x))
  }

  /** b holds exactly the cells of a turned about p, when each side maps into the other. */
  lemma RotatedCells(p: Pos, a: seq<Pos>, b: seq<Pos>)
    requires forall u :: u in a ==> Rot(p, u) in b
    requires forall c :: c in b ==> RotBack(p, c) in a
    ensures forall c :: c in b <==> exists u :: u in a && c == Rot(p, u)
  {
    forall c | c in b
      ensures exists u :: u in a && c == Rot(p, u)
    {
      assert RotBack(p, c) in a && c == Rot(p, RotBack(p, c));
    }
  }

  /**
   * The A sweep turns with its facing: the cells for the next facing are
   * the cells for this one, turned a quarter turn about the player.
   */
  lemma SweepRotates(p: Pos, d: Direction)
    ensures forall c :: c in SweepCells(p, Next(d)) <==> exists u :: u in SweepCells(p, d) && c == Rot(p, u)
  {
    var a := SweepCells(p, d);
    var b := SweepCells(p, Next(d));
    forall u | u in a
      ensures Rot(p, u) in b
    {
    }
    forall c | c in b
      ensures RotBack(p, c) in a
    {
    }
    RotatedCells(p, a, b);
  }

  /**
   * The S wedge turns with its facing: the cells for the next facing are
   * the cells for this one, turned a quarter turn about the player.
   */
  lemma WedgeRotates(p: Pos, d: Direction)
    ensures forall c :: c in WedgeCells(p, Next(d)) <==> exists u :: u in WedgeCells(p, d) && c == Rot(p, u)
  {
    var a := WedgeCells(p, d);
    var b := WedgeCells(p, Next(d));
    forall u | u in a
      ensures Rot(p, u) in b
    {
    }
    forall c | c in b
      ensures RotBack(p, c) in a
    {
    }
    RotatedCells(p, a, b);
  }

  /** The cells of a list that lie on the board, in their original order. */
  function KeepInBounds(cells: seq<Pos>): (r: seq<Pos>)
    ensures |r| <= |cells|
    ensures forall c :: c in r <==> c in cells && InBounds(c)
    ensures Distinct(cells) ==> Distinct(r)
  {
    if cells == [] then []
    else if InBounds(cells[0]) then [cells[0]] + KeepInBounds(cells[1..])
    else KeepInBounds(cells[1..])
  }

  /** Filtering keeps order: it distributes over concatenation. */
  lemma {:induction false} KeepInBoundsAppend(a: seq<Pos>, b: seq<Pos>)
    ensures KeepInBounds(a + b) == KeepInBounds(a) + KeepInBounds(b)
  {
    if a == [] {
      assert a + b == b;
    } else {
      assert (a + b)[1..] == a[1..] + b;
      KeepInBoundsAppend(a[1..], b);
    }
  }

  /** When the in-bounds cells form a prefix, filtering keeps exactly that prefix. */
  lemma {:induction false} KeepInBoundsPrefix(cells: seq<Pos>, n: nat)
    requires n <= |cells|
    requires forall i :: 0 <= i < n ==> InBounds(cells[i])
    requires forall i :: n <= i < |cells| ==> !InBounds(cells[i])
    ensures KeepInBounds(cells) == cells[..n]
  {
    if cells != [] {
      KeepInBoundsPrefix(cells[1..], if n == 0 then 0 else n - 1);
    }
  }

  /**
   * The cells an attack of type t facing d clears when the player stands on p:
   * the table entries that lie on the board, in table order.
   */
  function AffectedCells(p: Pos, t: AttackType, d: Direction): (r: seq<Pos>)
    ensures forall c :: c in r <==> c in RawCells(p, t, d) && InBounds(c)
    ensures |r| <= if t == S then 3 else 4
    ensures p !in r
    ensures Distinct(r)
  {
    KeepInBounds(RawCells(p, t, d))
  }

  lemma StepInBounds(p: Pos, d: Direction, k: int)
    requires InBounds(p) && 0 < k
    ensures InBounds(Step(p, d, k)) <==> k <= Room(p, d)
  {
  }

  /**
   * A dash from an on-board cell hits the cells ahead nearest first: the
   * i-th affected cell is i + 1 steps away, and there are as many cells as
   * the room to the edge allows, at most four.
   */
  lemma DashCellsNearestFirst(p: Pos, d: Direction)
    requires InBounds(p)
    ensures |AffectedCells(p, D, d)| == Min(4, Room(p, d))
    ensures forall i :: 0 <= i < |AffectedCells(p, D, d)| ==>
              AffectedCells(p, D, d)[i] == Step(p, d, i + 1) && Dist(p, AffectedCells(p, D, d)[i]) == i + 1
  {
    var raw := RawCells(p, D, d);
    var n := Min(4, Room(p, d));
    forall i | 0 <= i < |raw|
      ensures InBounds(raw[i]) <==> i < n
    {
      StepInBounds(p, d, i + 1);
    }
    KeepInBoundsPrefix(raw, n);
  }

  /**
   * The dash lands on the furthest affected cell, and it has nowhere to land
   * exactly when the player stands on the edge facing outwards.
   */
  lemma DashLandsFurthest(p: Pos, d: Direction)
    requires InBounds(p)
    ensures AffectedCells(p, D, d) == [] <==> Room(p, d) == 0
    ensures var r := AffectedCells(p, D, d);
      r != [] ==> forall i :: 0 <= i < |r| - 1 ==> Dist(p, r[i]) < Dist(p, r[|r| - 1])
  {
    DashCellsNearestFirst(p, d);
  }
}
