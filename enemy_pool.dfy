/**
 * The enemies: where a new one may appear (main/main.py:63-68), the greedy
 * pursuit step (main/main.py:70-85) and the two ways enemies leave the list,
 * all-at-a-cell on collision (main/main.py:90) and first-match per cell on
 * attack (main/main.py:195-197).
 */
module EnemyPool {

  import opened Grid

  /** Enemies are added on every turn whose number is a multiple of this. */
  const ENEMY_SPAWN_RATE: int := 10

  // ---------------------------------------------------------------- spawning

  /** A cell a new enemy may take: not the player's and not an enemy's. */
  predicate IsFree(c: Pos, player: Pos, enemies: seq<Pos>) {
    c != player && c !in enemies
  }

  /** Some draw at index i or later is free, so the retry loop stops there. */
  predicate HasFreeDrawFrom(draws: seq<Pos>, player: Pos, enemies: seq<Pos>, i: nat) {
    exists k :: i <= k < |draws| && IsFree(draws[k], player, enemies)
  }

  /**
   * The index of the draw the retry loop accepts when it starts looking at
   * index i: the first free one.
   */
  function FirstFreeFrom(draws: seq<Pos>, player: Pos, enemies: seq<Pos>, i: nat): (k: nat)
    requires HasFreeDrawFrom(draws, player, enemies, i)
    ensures i <= k < |draws| && IsFree(draws[k], player, enemies)
    ensures forall j :: i <= j < k ==> !IsFree(draws[j], player, enemies)
    decreases |draws| - i
  {
    if IsFree(draws[i], player, enemies) then i
    else FirstFreeFrom(draws, player, enemies, i + 1)
  }

  /**
   * The enemies a turn adds: on a spawn turn the first free draw, otherwise
   * none.
   */
  function Spawned(turn: int, draws: seq<Pos>, player: Pos, enemies: seq<Pos>): (r: seq<Pos>)
    requires forall k :: 0 <= k < |draws| ==> InBounds(draws[k])
    requires turn % ENEMY_SPAWN_RATE == 0 ==> HasFreeDrawFrom(draws, player, enemies, 0)
    ensures |r| == if turn % ENEMY_SPAWN_RATE == 0 then 1 else 0
    ensures forall c :: c in r ==> InBounds(c) && IsFree(c, player, enemies)
  {
    if turn % ENEMY_SPAWN_RATE == 0 then [draws[FirstFreeFrom(draws, player, enemies, 0)]] else []
  }

  // ----------------------------------------------------------------- pursuit

  /**
   * One enemy's move towards the target: one unit along x when x is strictly
   * the longer way, otherwise one unit along y, towards the target; an enemy
   * already on the target has both deltas 0 and steps up (y - 1).
   */
  function PursuitStep(e: Pos, target: Pos): (r: Pos)
    ensures Dist(r, e) == 1
    ensures r.x != e.x <==> Abs(target.x - e.x) > Abs(target.y - e.y)
    ensures e != target ==> Dist(r, target) == Dist(e, target) - 1
    ensures e == target ==> r == Pos(e.x, e.y - 1)
  {
    var dx := target.x - e.x;
    var dy := target.y - e.y;
    if Abs(dx) > Abs(dy) then
      Pos(e.x + (if dx > 0 then 1 else -1), e.y)
    else
      Pos(e.x, e.y + (if dy > 0 then 1 else -1))
  }

  /** Every enemy takes its pursuit step; the list keeps its length and order. */
  function Pursued(enemies: seq<Pos>, target: Pos): (r: seq<Pos>)
    ensures |r| == |enemies|
  {
    if enemies == [] then []
    else [PursuitStep(enemies[0], target)] + Pursued(enemies[1..], target)
  }

  /**
   * The i-th enemy after pursuit is the i-th before it, moved one step: one
   * cell away, and one step closer to the target unless it stood on it.
   */
  lemma {:induction false} PursuedAt(enemies: seq<Pos>, target: Pos, i: nat)
    requires i < |enemies|
    ensures Pursued(enemies, target)[i] == PursuitStep(enemies[i], target)
    ensures Dist(Pursued(enemies, target)[i], enemies[i]) == 1
    ensures enemies[i] != target ==> Dist(Pursued(enemies, target)[i], target) == Dist(enemies[i], target) - 1
  {
    if i > 0 {
      PursuedAt(enemies[1..], target, i - 1);
    }
  }

  /**
   * An enemy that is on the board and not on an on-board target stays on the
   * board: its step stays inside the box spanned by itself and the target.
   */
  lemma PursuitStaysInBounds(e: Pos, target: Pos)
    requires InBounds(e) && InBounds(target) && e != target
    ensures InBounds(PursuitStep(e, target))
  {
  }

  /** An enemy standing on the player at the top edge steps off the board. */
  lemma PursuitLeavesBoardFromTarget()
    ensures !InBounds(PursuitStep(Pos(5, 0), Pos(5, 0)))
  {
  }

  // ---------------------------------------------------------------- removal

  /** The list without every element equal to p, the others in order. */
  function Without(s: seq<Pos>, p: Pos): (r: seq<Pos>)
    ensures |r| <= |s|
    ensures forall q :: q in r <==> q in s && q != p
  {
    if s == [] then []
    else if s[0] == p then Without(s[1..], p)
    else [s[0]] + Without(s[1..], p)
  }

  /**
   * Counted with multiplicity, removing every p drops all copies of p and
   * keeps every other element as often as it was there.
   */
  lemma {:induction false} WithoutMultiset(s: seq<Pos>, p: Pos)
    ensures multiset(Without(s, p)) == multiset(s)[p := 0]
  {
    if s != [] {
      WithoutMultiset(s[1..], p);
      assert s == [s[0]] + s[1..];
    }
  }

  /** Removing every p keeps order: it distributes over concatenation. */
  lemma {:induction false} WithoutAppend(a: seq<Pos>, b: seq<Pos>, p: Pos)
    ensures Without(a + b, p) == Without(a, p) + Without(b, p)
  {
    if a == [] {
      assert a + b == b;
    } else {
      assert (a + b)[1..] == a[1..] + b;
      WithoutAppend(a[1..], b, p);
    }
  }

  /** A list without p is left as it is. */
  lemma {:induction false} WithoutAbsent(s: seq<Pos>, p: Pos)
    requires p !in s
    ensures Without(s, p) == s
  {
    if s != [] {
      WithoutAbsent(s[1..], p);
    }
  }

  /** The index of the first element equal to c, as `list.remove` finds it. */
  function FirstIndex<T(==)>(s: seq<T>, c: T): (k: nat)
    requires c in s
    ensures k < |s| && s[k] == c
    ensures c !in s[..k]
  {
    if s[0] == c then 0
    else
      assert c in s[1..];
      1 + FirstIndex(s[1..], c)
  }

  /**
   * `list.remove(c)` after a successful `c in list` test: the first
   * occurrence goes, the rest stays in order; without c the list is kept.
   */
  function RemoveFirst<T(==)>(s: seq<T>, c: T): (r: seq<T>)
    ensures c in s ==> |r| == |s| - 1
    ensures c !in s ==> r == s
  {
    if c in s then
      var k := FirstIndex(s, c);
      s[..k] + s[k+1..]
    else s
  }

  /** Removing the first c takes exactly one copy of c, if there is one. */
  lemma RemoveFirstMultiset<T>(s: seq<T>, c: T)
    ensures multiset(RemoveFirst(s, c)) == multiset(s) - multiset{c}
  {
    if c in s {
      var k := FirstIndex(s, c);
      assert s == s[..k] + [c] + s[k+1..];
    }
  }

  /**
   * The attack loop: for each affected cell in turn, one enemy on it (the
   * first in the list) is removed.
   */
  function Struck<T(==)>(enemies: seq<T>, cells: seq<T>): (r: seq<T>)
    ensures |enemies| - |cells| <= |r| <= |enemies|
    decreases |cells|
  {
    if cells == [] then enemies
    else RemoveFirst(Struck(enemies, cells[..|cells| - 1]), cells[|cells| - 1])
  }

  /**
   * What an attack leaves: as a multiset, the enemies minus the affected
   * cells; so each affected cell loses at most one enemy, and other cells
   * keep all of theirs.
   */
  lemma {:induction false} StruckMultiset<T>(enemies: seq<T>, cells: seq<T>)
    ensures multiset(Struck(enemies, cells)) == multiset(enemies) - multiset(cells)
    decreases |cells|
  {
    if cells != [] {
      var n := |cells| - 1;
      StruckMultiset(enemies, cells[..n]);
      RemoveFirstMultiset(Struck(enemies, cells[..n]), cells[n]);
      assert cells == cells[..n] + [cells[n]];
      assert multiset(cells) == multiset(cells[..n]) + multiset{cells[n]};
    }
  }

  /** Enemies that the cells cover, one cell per enemy, are all removed. */
  lemma StruckCovered<T>(enemies: seq<T>, cells: seq<T>)
    requires multiset(enemies) <= multiset(cells)
    ensures Struck(enemies, cells) == []
  {
    var left := Struck(enemies, cells);
    StruckMultiset(enemies, cells);
    assert multiset(left) == multiset{};
    assert |left| == |multiset(left)|;
  }
}
