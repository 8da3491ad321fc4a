/**
 * The 32 x 32 playing field: positions, bounds and the clamping that keeps
 * the player on the board (main/main.py:4, 106-107).
 */
module Grid {

  const GRID_SIZE: int := 32

  /** A cell of the board; the source keeps it as a two-element list or tuple. */
  datatype Pos = Pos(x: int, y: int)

  predicate InBounds(p: Pos) {
    0 <= p.x < GRID_SIZE && 0 <= p.y < GRID_SIZE
  }

  function Abs(v: int): nat {
    if v < 0 then -v else v
  }

  function Min(a: int, b: int): int {
    if a < b then a else b
  }

  function Max(a: int, b: int): int {
    if a < b then b else a
  }

  /** Manhattan distance between two cells. */
  function Dist(a: Pos, b: Pos): nat {
    Abs(a.x - b.x) + Abs(a.y - b.y)
  }

  /** One coordinate clamped to the board: `max(0, min(GRID_SIZE-1, v))`. */
  function ClampCoord(v: int): (r: int)
    ensures 0 <= r < GRID_SIZE
    ensures 0 <= v < GRID_SIZE ==> r == v
    ensures v < 0 ==> r == 0
    ensures GRID_SIZE <= v ==> r == GRID_SIZE - 1
  {
    Max(0, Min(GRID_SIZE - 1, v))
  }

  /**
   * The cell the player reaches when asking to move by (dx, dy): each axis is
   * clamped on its own, so the result is the in-bounds cell nearest to the
   * requested one.
   */
  function Clamp(p: Pos, dx: int, dy: int): (r: Pos)
    ensures InBounds(r)
    ensures InBounds(Pos(p.x + dx, p.y + dy)) ==> r == Pos(p.x + dx, p.y + dy)
    ensures forall q :: InBounds(q) ==> Dist(r, Pos(p.x + dx, p.y + dy)) <= Dist(q, Pos(p.x + dx, p.y + dy))
  {
    var r := Pos(ClampCoord(p.x + dx), ClampCoord(p.y + dy));
    assert forall q :: InBounds(q) ==> Abs(r.x - (p.x + dx)) <= Abs(q.x - (p.x + dx)) && Abs(r.y - (p.y + dy)) <= Abs(q.y - (p.y + dy));
    r
  }
}
