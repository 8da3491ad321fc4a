/**
 * The game state and its turn-resolution operations (class `Game` in
 * main/main.py), with every drawing call left out. Fields keep the source's
 * names in Dafny's spelling; the random spawn draws are a parameter.
 */
module TurnEngine {

  import opened Wrappers
  import opened Grid
  import opened AttackCatalog
  import opened EnemyPool

  const INITIAL_HEALTH: int := 3
  const INITIAL_MOVES: int := 100

  /**
   * Each attack type has a counter, between zero and that type's full
   * cooldown.
   */
  predicate CooldownsInRange(m: map<AttackType, int>) {
    && A in m && S in m && D in m
    && forall t :: t in m ==> 0 <= m[t] <= CooldownFor(t)
  }

  /**
   * The end-of-turn cooldown tick: every positive counter goes down by one.
   * A counter never goes below zero, moves by at most one, and stays put
   * exactly when it is already zero.
   */
  function Ticked(m: map<AttackType, int>): (r: map<AttackType, int>)
    ensures r.Keys == m.Keys
    ensures forall t :: t in m && 0 <= m[t] ==> 0 <= r[t] <= m[t] && m[t] - r[t] <= 1 && (r[t] == m[t] <==> m[t] == 0)
    ensures CooldownsInRange(m) ==> CooldownsInRange(r)
  {
    map t | t in m :: if m[t] > 0 then m[t] - 1 else m[t]
  }

  /**
   * The cooldown table after an attack of type t: that type's counter starts
   * again at its full cooldown, the other counters are kept.
   */
  function Restarted(m: map<AttackType, int>, t: AttackType): (r: map<AttackType, int>)
    ensures t in r && r[t] == CooldownFor(t)
    ensures forall u :: u in m && u != t ==> u in r && r[u] == m[u]
    ensures CooldownsInRange(m) ==> CooldownsInRange(r)
  {
    m[t := CooldownFor(t)]
  }

  class Game {
    var health: int
    var movesLeft: int
    var turnCount: int
    var attackMode: Option<AttackType>
    var attackDirection: Option<Direction>
    var cooldowns: map<AttackType, int>
    var playerPos: Pos
    var enemies: seq<Pos>

    /**
     * What every operation keeps. There is no bound on the enemies: one that
     * stands on the player steps up and may leave the board.
     */
    ghost predicate Valid()
      reads this
    {
      && CooldownsInRange(cooldowns)
      && InBounds(playerPos)
      && 0 <= health <= INITIAL_HEALTH
      && 0 <= turnCount && turnCount + movesLeft == INITIAL_MOVES
      && (attackMode.Some? <==> attackDirection.Some?)
      && (attackMode.Some? ==> attackMode.value in cooldowns && cooldowns[attackMode.value] == 0)
    }

    constructor ()
      ensures Valid()
      ensures health == INITIAL_HEALTH && movesLeft == INITIAL_MOVES && turnCount == 0
      ensures attackMode == None && attackDirection == None
      ensures cooldowns == map[A := 0, S := 0, D := 0]
      ensures playerPos == Pos(GRID_SIZE / 2, GRID_SIZE / 2) && enemies == []
    {
      health := INITIAL_HEALTH;
      movesLeft := INITIAL_MOVES;
      turnCount := 0;
      attackMode := None;
      attackDirection := None;
      cooldowns := map[A := 0, S := 0, D := 0];
      playerPos := Pos(GRID_SIZE / 2, GRID_SIZE / 2);
      enemies := [];
    }

    /**
     * The retry loop of the spawn: the draws stand for the successive random
     * cells; the first one off the player and off every enemy is taken.
     */
    method SpawnEnemy(draws: seq<Pos>) returns (cell: Pos)
      requires forall k :: 0 <= k < |draws| ==> InBounds(draws[k])
      requires HasFreeDrawFrom(draws, playerPos, enemies, 0)
      ensures cell == draws[FirstFreeFrom(draws, playerPos, enemies, 0)]
      ensures InBounds(cell) && IsFree(cell, playerPos, enemies)
    {
      var i := 0;
      while !IsFree(draws[i], playerPos, enemies)
        invariant i < |draws|
        invariant HasFreeDrawFrom(draws, playerPos, enemies, i)
        invariant forall j :: 0 <= j < i ==> !IsFree(draws[j], playerPos, enemies)
        decreases |draws| - i
      {
        i := i + 1;
      }
      cell := draws[i];
    }

    /** Every enemy takes one pursuit step towards the player, in place. */
    method MoveEnemies()
      modifies this`enemies
      ensures enemies == Pursued(old(enemies), playerPos)
    {
      var i := 0;
      while i < |enemies|
        invariant 0 <= i <= |enemies| == |old(enemies)|
        invariant forall j :: 0 <= j < i ==> enemies[j] == PursuitStep(old(enemies)[j], playerPos)
        invariant forall j :: i <= j < |enemies| ==> enemies[j] == old(enemies)[j]
      {
        var enemy := enemies[i];
        var dx := playerPos.x - enemy.x;
        var dy := playerPos.y - enemy.y;
        var moveX, moveY;
        if Abs(dx) > Abs(dy) {
          moveX := if dx > 0 then 1 else -1;
          moveY := 0;
        } else {
          moveX := 0;
          moveY := if dy > 0 then 1 else -1;
        }
        enemies := enemies[i := Pos(enemy.x + moveX, enemy.y + moveY)];
        i := i + 1;
      }
      forall j | 0 <= j < |enemies|
        ensures enemies[j] == Pursued(old(enemies), playerPos)[j]
      {
        PursuedAt(old(enemies), playerPos, j);
      }
    }

    /**
     * If any enemy is on the player, one point of health is lost, however
     * many there are, and all of them are removed.
     */
    method CheckCollision()
      modifies this`health, this`enemies
      ensures playerPos !in enemies
      ensures enemies == Without(old(enemies), playerPos)
      ensures health == old(health) - (if playerPos in old(enemies) then 1 else 0)
    {
      if playerPos in enemies {
        health := health - 1;
        enemies := Without(enemies, playerPos);
      } else {
        WithoutAbsent(enemies, playerPos);
      }
    }

    /** The cooldown loop at the end of a move, over the keys in order A, S, D. */
    method TickCooldowns()
      requires A in cooldowns && S in cooldowns && D in cooldowns
      modifies this`cooldowns
      ensures cooldowns == Ticked(old(cooldowns))
    {
      var keys := [A, S, D];
      var i := 0;
      while i < |keys|
        invariant 0 <= i <= |keys|
        invariant cooldowns.Keys == old(cooldowns).Keys
        invariant forall t :: t in cooldowns ==>
                    cooldowns[t] == if t in keys[..i] then Ticked(old(cooldowns))[t] else old(cooldowns)[t]
      {
        var key := keys[i];
        if cooldowns[key] > 0 {
          cooldowns := cooldowns[key := cooldowns[key] - 1];
        }
        i := i + 1;
      }
      assert keys[..i] == keys;
      forall t | t in cooldowns
        ensures cooldowns[t] == Ticked(old(cooldowns))[t]
      {
        assert t == keys[0] || t == keys[1] || t == keys[2];
      }
    }

    /**
     * One turn. Refused while the player is dead or aiming; otherwise the
     * player moves by (dx, dy) clamped to the board, the counters advance,
     * every tenth turn an enemy appears, all enemies (the new one too) step
     * towards the player's new cell, a collision costs one health and clears
     * that cell, and the cooldowns tick.
     */
    method MovePlayer(dx: int, dy: int, draws: seq<Pos>)
      requires Valid()
      requires forall k :: 0 <= k < |draws| ==> InBounds(draws[k])
      requires health > 0 && attackMode.None? && (turnCount + 1) % ENEMY_SPAWN_RATE == 0 ==>
                 HasFreeDrawFrom(draws, Clamp(playerPos, dx, dy), enemies, 0)
      modifies this`playerPos, this`turnCount, this`movesLeft, this`enemies, this`health, this`cooldowns
      ensures Valid()
      ensures old(health) <= 0 || old(attackMode).Some? ==> unchanged(this)
      ensures old(health) > 0 && old(attackMode).None? ==>
        && playerPos == Clamp(old(playerPos), dx, dy)
        && turnCount == old(turnCount) + 1
        && movesLeft == old(movesLeft) - 1
        && attackMode == old(attackMode) && attackDirection == old(attackDirection)
        && cooldowns == Ticked(old(cooldowns))
        && var pursued := Pursued(old(enemies) + Spawned(turnCount, draws, playerPos, old(enemies)), playerPos);
           && enemies == Without(pursued, playerPos)
           && health == old(health) - (if playerPos in pursued then 1 else 0)
    {
      if health <= 0 || attackMode.Some? {
        return;
      }
      ResolveMove(dx, dy, draws);
    }

    /** The turn itself, once the guard of MovePlayer has let it through. */
    method ResolveMove(dx: int, dy: int, draws: seq<Pos>)
      requires Valid() && health > 0 && attackMode.None?
      requires forall k :: 0 <= k < |draws| ==> InBounds(draws[k])
      requires (turnCount + 1) % ENEMY_SPAWN_RATE == 0 ==> HasFreeDrawFrom(draws, Clamp(playerPos, dx, dy), enemies, 0)
      modifies this`playerPos, this`turnCount, this`movesLeft, this`enemies, this`health, this`cooldowns
      ensures Valid()
      ensures playerPos == Clamp(old(playerPos), dx, dy)
      ensures turnCount == old(turnCount) + 1
      ensures movesLeft == old(movesLeft) - 1
      ensures attackMode == old(attackMode) && attackDirection == old(attackDirection)
      ensures cooldowns == Ticked(old(cooldowns))
      ensures var pursued := Pursued(old(enemies) + Spawned(turnCount, draws, playerPos, old(enemies)), playerPos);
        && enemies == Without(pursued, playerPos)
        && health == old(health) - (if playerPos in pursued then 1 else 0)
    {
      AdvanceClock(dx, dy, draws);
      ResolveEnemies();
      TickCooldowns();
    }

    /** The first half of a turn: the player's step, the counters and the spawn. */
    method AdvanceClock(dx: int, dy: int, draws: seq<Pos>)
      requires forall k :: 0 <= k < |draws| ==> InBounds(draws[k])
      requires (turnCount + 1) % ENEMY_SPAWN_RATE == 0 ==> HasFreeDrawFrom(draws, Clamp(playerPos, dx, dy), enemies, 0)
      modifies this`playerPos, this`turnCount, this`movesLeft, this`enemies
      ensures playerPos == Clamp(old(playerPos), dx, dy)
      ensures turnCount == old(turnCount) + 1
      ensures movesLeft == old(movesLeft) - 1
      ensures enemies == old(enemies) + Spawned(turnCount, draws, playerPos, old(enemies))
    {
      var newX := ClampCoord(playerPos.x + dx);
      var newY := ClampCoord(playerPos.y + dy);
      playerPos := Pos(newX, newY);

      turnCount := turnCount + 1;
      movesLeft := movesLeft - 1;

      if turnCount % ENEMY_SPAWN_RATE == 0 {
        var enemy := SpawnEnemy(draws);
        enemies := enemies + [enemy];
      }
    }

    /** The enemies' half of a turn: pursuit, then the collision check. */
    method ResolveEnemies()
      modifies this`health, this`enemies
      ensures enemies == Without(Pursued(old(enemies), playerPos), playerPos)
      ensures health == old(health) - (if playerPos in Pursued(old(enemies), playerPos) then 1 else 0)
    {
      MoveEnemies();
      CheckCollision();
    }

    /**
     * Selecting an attack type. Nothing happens while it cools down; picking
     * the active type again leaves aiming and forgets the direction; any
     * other pick aims with that type, facing Up unless a direction is set.
     */
    method EnterAttackMode(t: AttackType)
      requires Valid()
      modifies this`attackMode, this`attackDirection
      ensures Valid()
      ensures cooldowns[t] != 0 ==> attackMode == old(attackMode) && attackDirection == old(attackDirection)
      ensures cooldowns[t] == 0 && old(attackMode) == Some(t) ==> attackMode == None && attackDirection == None
      ensures cooldowns[t] == 0 && old(attackMode) != Some(t) ==>
                attackMode == Some(t) &&
                attackDirection == (if old(attackDirection).None? then Some(Up) else old(attackDirection))
      ensures cooldowns[t] == 0 && old(attackMode).None? ==> attackDirection == Some(Up)
    {
      if cooldowns[t] == 0 {
        if attackMode == Some(t) {
          attackMode := None;
          attackDirection := None;
        } else {
          attackMode := Some(t);
          if attackDirection.None? {
            attackDirection := Some(Up);
          }
        }
      }
    }

    /** Turning the aim; only while an attack type is selected. */
    method ChangeAttackDirection(d: Direction)
      requires Valid()
      modifies this`attackDirection
      ensures Valid()
      ensures attackDirection == if attackMode.Some? then Some(d) else old(attackDirection)
    {
      if attackMode.Some? {
        attackDirection := Some(d);
      }
    }

    /** The cells the selected attack would clear; none when not aiming. */
    function GetAffectedCells(): (cells: seq<Pos>)
      reads this
      ensures attackMode.None? || attackDirection.None? ==> cells == []
      ensures forall c :: c in cells ==> InBounds(c) && c != playerPos
      ensures Distinct(cells)
      ensures attackMode == Some(S) ==> |cells| <= 3
    {
      if attackMode.Some? && attackDirection.Some? then
        AffectedCells(playerPos, attackMode.value, attackDirection.value)
      else []
    }

    /**
     * Confirming the attack. Without a selected type and direction nothing
     * happens. Otherwise, with cells and enemies compared as one pair type
     * (the evident intent; the source's own comparison of tuples with lists
     * never matches, see TupleListMismatch), the first enemy on each affected
     * cell is removed, a dash moves the player to the last affected cell, the
     * type's cooldown restarts and aiming ends. A dash with no affected cell fails on the empty list
     * (indexError) after removing nothing, and the state stays as it was.
     */
    method PerformAttack() returns (indexError: bool)
      requires Valid()
      modifies this`enemies, this`playerPos, this`cooldowns, this`attackMode, this`attackDirection
      ensures Valid()
      ensures old(attackMode).None? || old(attackDirection).None? ==> !indexError && unchanged(this)
      ensures old(attackMode).Some? && old(attackDirection).Some? ==>
        var t := old(attackMode).value;
        var cells := AffectedCells(old(playerPos), t, old(attackDirection).value);
        && (indexError <==> t == D && cells == [])
        && (indexError ==> unchanged(this))
        && (!indexError ==>
              && enemies == Struck(old(enemies), cells)
              && playerPos == (if t == D then cells[|cells| - 1] else old(playerPos))
              && cooldowns == Restarted(old(cooldowns), t)
              && attackMode == None && attackDirection == None)
    {
      if attackMode.None? || attackDirection.None? {
        return false;
      }
      var t := attackMode.value;
      var cells := GetAffectedCells();
      StrikeCells(cells);

      if t == D {
        if |cells| == 0 {
          return true;
        }
        playerPos := cells[|cells| - 1];
      }

      cooldowns := Restarted(cooldowns, t);
      attackMode := None;
      attackDirection := None;
      indexError := false;
    }
  
    /** The removal loop of an attack: for each cell, the first enemy on it goes. */
    method StrikeCells(cells: seq<Pos>)
      modifies this`enemies
      ensures enemies == Struck(old(enemies), cells)
    {
      var i := 0;
      while i < |cells|
        invariant 0 <= i <= |cells|
        invariant enemies == Struck(old(enemies), cells[..i])
      {
        var cell := cells[i];
        assert cells[..i + 1][..i] == cells[..i];
        if cell in enemies {
          enemies := RemoveFirst(enemies, cell);
        }
        i := i + 1;
      }
      assert cells[..i] == cells;
    }
  }
}
