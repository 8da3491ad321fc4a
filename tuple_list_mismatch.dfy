/**
 * The attack removal as the source literally runs it. Enemies are stored as
 * two-element lists (main/main.py:68, 85) while the affected cells are
 * tuples (main/main.py:241); in the source's language a tuple never equals a
 * list, so the membership test at main/main.py:196 never succeeds. Here the
 * two kinds of value are kept apart by constructor, and equality between
 * them is the datatype's, which is false across constructors just as there.
 */
module TupleListMismatch {

  import opened Grid
  import opened AttackCatalog
  import opened EnemyPool

  datatype PyPair = PyList(x: int, y: int) | PyTuple(x: int, y: int)

  /** Enemy cells as the source stores them: two-element lists. */
  function AsLists(s: seq<Pos>): seq<PyPair> {
    seq(|s|, i requires 0 <= i < |s| => PyList(s[i].x, s[i].y))
  }

  /** Affected cells as the source returns them: tuples. */
  function AsTuples(s: seq<Pos>): seq<PyPair> {
    seq(|s|, i requires 0 <= i < |s| => PyTuple(s[i].x, s[i].y))
  }

  /** No stored enemy equals any affected cell, whatever their coordinates. */
  lemma ListsNeverMatchTuples(enemies: seq<Pos>, cells: seq<Pos>)
    ensures forall a, b :: a in AsLists(enemies) && b in AsTuples(cells) ==> a != b
  {
  }

  /** No cell that is a tuple can match an enemy that is a list. */
  lemma {:induction false} StruckListsByTuples(enemies: seq<PyPair>, cells: seq<PyPair>)
    requires forall i :: 0 <= i < |enemies| ==> enemies[i].PyList?
    requires forall i :: 0 <= i < |cells| ==> cells[i].PyTuple?
    ensures Struck(enemies, cells) == enemies
    decreases |cells|
  {
    if cells != [] {
      var n := |cells| - 1;
      StruckListsByTuples(enemies, cells[..n]);
      assert cells[n] !in enemies;
    }
  }

  /**
   * The attack loop as written: whatever the positions, every enemy
   * survives.
   */
  function StruckAsWritten(enemies: seq<Pos>, cells: seq<Pos>): (r: seq<PyPair>)
    ensures r == AsLists(enemies)
  {
    StruckListsByTuples(AsLists(enemies), AsTuples(cells));
    Struck(AsLists(enemies), AsTuples(cells))
  }

  /** A dash to the right from (10, 10) clears (11, 10) to (14, 10). */
  lemma DashRightFromTen()
    ensures AffectedCells(Pos(10, 10), D, Right) == [Pos(11, 10), Pos(12, 10), Pos(13, 10), Pos(14, 10)]
  {
    var r := AffectedCells(Pos(10, 10), D, Right);
    DashCellsNearestFirst(Pos(10, 10), Right);
    assert |r| == 4;
    assert r[0] == Pos(11, 10) && r[1] == Pos(12, 10) && r[2] == Pos(13, 10) && r[3] == Pos(14, 10);
  }

  /** That dash with an enemy on (11, 10): as written the enemy survives. */
  lemma DashOverEnemyAsWritten()
    ensures StruckAsWritten([Pos(11, 10)], AffectedCells(Pos(10, 10), D, Right)) == [PyList(11, 10)]
  {
    assert AsLists([Pos(11, 10)]) == [PyList(11, 10)];
  }

  /** With one pair type the same dash removes that enemy. */
  lemma DashOverEnemyCorrected()
    ensures Struck([Pos(11, 10)], AffectedCells(Pos(10, 10), D, Right)) == []
  {
    DashRightFromTen();
    var cells := [Pos(11, 10), Pos(12, 10), Pos(13, 10), Pos(14, 10)];
    assert multiset([Pos(11, 10)]) <= multiset(cells) by {
      assert cells == [Pos(11, 10)] + cells[1..];
    }
    StruckCovered([Pos(11, 10)], cells);
  }
}
