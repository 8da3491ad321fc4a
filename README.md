# Grid survival game: turn-resolution core

A Dafny model of the game state and turn logic of the `Game` class in
`main/main.py`, a turn-based survival game on a 32 x 32 grid. The player
moves one cell per turn. An enemy appears every tenth turn, and every enemy
steps greedily towards the player. An enemy that reaches the player's cell
costs one point of health. The player can also select one of three
directional attacks (A, S, D), aim it and confirm it. A confirmed attack
clears the cells it covers. D is a dash that also moves the player. Each
attack type then has a cooldown.

Modules:

- `Wrappers`: `Option`.
- `Grid`: cells, board bounds, per-axis clamping of the player's step.
- `AttackCatalog`: the attack types and directions, their cooldowns, and the
  fixed table of affected cells filtered to the board.
- `EnemyPool`: the spawn choice, the pursuit step, and the two kinds of
  removal. A collision removes every enemy on the player's cell. An attack
  removes the first enemy on each affected cell, as `list.remove` does.
- `TurnEngine`: class `Game`, with the fields and methods of the source's
  class. Its methods update the fields in place. The enemy list is a `seq`
  field that they reassign, and the cooldown dictionary is a `map` field.
- `TupleListMismatch`: attack removal exactly as the source runs it, where
  tuples are compared with lists (see Findings).

Behaviour of the source worth noting, which the model keeps:

- An enemy standing on the player's cell has both deltas 0. It steps up, and
  at y = 0 it leaves the board (`EnemyPool.PursuitLeavesBoardFromTarget`). So
  enemies are not kept on the board, and `Game.Valid` does not claim it.
- Toggling an attack type off clears the direction. The next selection
  therefore faces Up again; the direction is not kept.
- `enter_attack_mode` and `perform_attack` do not check health. Only a move
  is refused at zero health.
- A dash whose four cells are all off the board indexes an empty list and
  fails. The model reports this as the `indexError` result and leaves the
  state as it was. It does not model "the player stays put and the attack
  completes".
- Collision is tested after the enemies have moved. An enemy on the cell the
  player steps onto moves off it (upwards) first. Collisions come only from
  enemies that step onto the player.
- As written, an attack removes no enemy at all (see Findings). With one
  pair type for cells, the evident intent, an attack removes the first enemy
  on each affected cell, as `list.remove` does, and not every enemy on it.
  This corrected removal is the one `Game.PerformAttack` performs.

The random cell draws of `spawn_enemy` are a parameter `draws`: the sequence
of cells that `random.randint` would produce, in order. The spawn takes the
first draw that is free.

## Model

| member | source | states |
|---|---|---|
| Grid.ClampCoord | main/main.py:106-107 | the clamped coordinate lies in [0, 31]; an in-range value is kept, a negative one becomes 0, one past the edge becomes 31 |
| Grid.Clamp | main/main.py:106-108 | the player's new cell is on the board, is the requested cell whenever that is on the board, and is no further from the requested cell than any on-board cell |
| AttackCatalog.SweepCells | main/main.py:211-219 | the A pattern has four distinct cells, none the player's, all among its eight neighbours |
| AttackCatalog.WedgeCells | main/main.py:221-229 | the S pattern has three distinct cells, none the player's, all among its eight neighbours |
| AttackCatalog.LineCells | main/main.py:231-239 | the D pattern is the four cells straight ahead, the i-th being i + 1 steps away, all distinct |
| AttackCatalog.SweepRotates | main/main.py:211-219 | the A cells for each facing are the cells for the previous facing turned a quarter turn clockwise about the player |
| AttackCatalog.WedgeRotates | main/main.py:221-229 | the S cells for each facing are the cells for the previous facing turned a quarter turn clockwise about the player |
| AttackCatalog.RawCells | main/main.py:207-239 | the table before filtering: 3 cells for S and 4 otherwise, the player's cell never among them, no repeats |
| AttackCatalog.KeepInBounds | main/main.py:241 | the filter keeps exactly the on-board cells, never grows the list and keeps cells distinct |
| AttackCatalog.KeepInBoundsAppend | main/main.py:241 | filtering keeps the table order: it distributes over concatenation |
| AttackCatalog.KeepInBoundsPrefix | main/main.py:241 | when the on-board cells form a prefix, the filter returns exactly that prefix |
| AttackCatalog.AffectedCells | main/main.py:207-241 | a cell is affected iff it is in the table and on the board; at most 3 cells for S and 4 for A and D; never the player's cell; no repeats |
| AttackCatalog.DashCellsNearestFirst | main/main.py:231-241 | from an on-board cell a dash covers min(4, room to the edge) cells; the i-th is i + 1 steps ahead, so distances strictly increase |
| AttackCatalog.DashLandsFurthest | main/main.py:199-200 | the dash list is empty iff the player faces the edge it stands on; otherwise its last cell is strictly the furthest |
| EnemyPool.FirstFreeFrom | main/main.py:63-68 | the retry loop stops at the first free draw: every earlier draw is the player's cell or an enemy's |
| EnemyPool.Spawned | main/main.py:113-114 | a turn adds exactly one enemy iff its number is a multiple of 10; that cell is on the board, not the player's and not an enemy's |
| EnemyPool.PursuitStep | main/main.py:71-83 | an enemy moves exactly one unit; it moves along x iff abs(dx) > abs(dy), ties go to y; off the target it ends one Manhattan step closer; on the target it steps up |
| EnemyPool.Pursued | main/main.py:70-85 | pursuit keeps the number of enemies |
| EnemyPool.PursuedAt | main/main.py:70-85 | the i-th enemy after pursuit is the i-th before it, moved one step, one cell away and one step closer unless it stood on the player |
| EnemyPool.PursuitStaysInBounds | main/main.py:70-85 | an on-board enemy off the on-board player stays on the board |
| EnemyPool.PursuitLeavesBoardFromTarget | main/main.py:78-80 | an enemy on the player's cell at the top edge leaves the board |
| EnemyPool.Without | main/main.py:90 | the collision filter keeps exactly the enemies not on the player's cell |
| EnemyPool.WithoutMultiset | main/main.py:90 | counted with multiplicity, every enemy on the cell goes and every other stays as often as it was there |
| EnemyPool.WithoutAppend | main/main.py:90 | the filter keeps the order of the remaining enemies |
| EnemyPool.WithoutAbsent | main/main.py:88-90 | with no enemy on the cell the list is unchanged |
| EnemyPool.FirstIndex | main/main.py:197 | the index `list.remove` uses: the element there is c and none before it is |
| EnemyPool.RemoveFirst | main/main.py:196-197 | a present cell shortens the list by one; an absent one leaves it as it is |
| EnemyPool.RemoveFirstMultiset | main/main.py:197 | `list.remove` takes away exactly one copy |
| EnemyPool.Struck | main/main.py:195-197 | an attack removes at most one enemy per affected cell, and never adds one |
| EnemyPool.StruckMultiset | main/main.py:195-197 | after an attack the enemies, as a multiset, are the old ones minus the affected cells: at most one enemy per cell goes, the rest stay |
| EnemyPool.StruckCovered | main/main.py:195-197 | enemies covered one per cell by the affected cells are all removed |
| TupleListMismatch.ListsNeverMatchTuples | main/main.py:196 | no enemy stored as a list equals any affected cell returned as a tuple, whatever their coordinates |
| TupleListMismatch.StruckListsByTuples | main/main.py:196 | no tuple cell matches a list enemy, so the removal loop removes nothing |
| TupleListMismatch.StruckAsWritten | main/main.py:195-197 | as written, every enemy survives every attack |
| TupleListMismatch.DashRightFromTen | main/main.py:231-241 | a dash right from (10, 10) covers (11, 10) to (14, 10) |
| TupleListMismatch.DashOverEnemyAsWritten | main/main.py:195-197 | as written, an enemy on (11, 10) survives that dash |
| TupleListMismatch.DashOverEnemyCorrected | main/main.py:195-197 | with one pair type, that dash removes the enemy |
| TurnEngine.Ticked | main/main.py:125-127 | the tick lowers every positive cooldown by exactly one, leaves zeros at zero, never goes negative and keeps counters in range |
| TurnEngine.Restarted | main/main.py:202 | the used type's counter is its full cooldown (A 3, S 2, D 5), the others are kept, and the counters stay in range |
| TurnEngine.Game.constructor | main/main.py:16-37 | initial state: health 3, 100 moves, turn 0, no mode or direction, all cooldowns 0, player at (16, 16), no enemies |
| TurnEngine.Game.SpawnEnemy | main/main.py:63-68 | the retry loop returns the first free draw, which is on the board, off the player and off every enemy |
| TurnEngine.Game.MoveEnemies | main/main.py:70-85 | the in-place loop leaves exactly the pursued list |
| TurnEngine.Game.CheckCollision | main/main.py:87-90 | afterwards no enemy is on the player's cell; health drops by exactly one iff at least one was there; the other enemies are kept in order |
| TurnEngine.Game.TickCooldowns | main/main.py:125-127 | the loop over the dictionary leaves exactly the ticked cooldowns |
| TurnEngine.Game.MovePlayer | main/main.py:99-127 | nothing changes when dead or aiming; otherwise the player goes to the clamped cell, the turn count rises by one and the moves fall by one, the spawn enemy is added, every enemy steps, the collision is resolved and cooldowns tick; the state invariant is kept |
| TurnEngine.Game.ResolveMove | main/main.py:106-127 | the unguarded turn, with the same outcome as MovePlayer |
| TurnEngine.Game.AdvanceClock | main/main.py:106-114 | the clamp, the counters and the spawn cadence |
| TurnEngine.Game.ResolveEnemies | main/main.py:116-117 | pursuit and then the collision check |
| TurnEngine.Game.EnterAttackMode | main/main.py:173-183 | a cooling type does nothing; the active type toggles mode and direction off; another type becomes active and keeps a set direction or faces Up |
| TurnEngine.Game.ChangeAttackDirection | main/main.py:185-187 | the direction changes only while a mode is active |
| TurnEngine.Game.GetAffectedCells | main/main.py:207-241 | no cells without a mode and a direction; the cells are on the board, not the player's, distinct, and at most 3 for S |
| TurnEngine.Game.PerformAttack | main/main.py:190-204 | no effect without a mode and a direction; a dash with no cells fails with no change; otherwise one enemy per affected cell goes, a dash moves the player to the last cell, the type's cooldown restarts and aiming ends |
| TurnEngine.Game.StrikeCells | main/main.py:195-197 | the removal loop leaves exactly the struck list |

## Left out

- Drawing is not modelled: `draw_grid`, `draw_player`, `draw_enemies`, `update_hud`, `draw_attack_preview`, `game_over` and the canvas calls inside the operations. They only paint and do not change the game state.
- `key_press` and the window bootstrap are not modelled. They are event plumbing that calls the modelled operations with unit deltas.
- The random draws are not modelled as randomness. `spawn_enemy`'s `random.randint` stream is the `draws` parameter.
- TurnEngine.Game.MovePlayer: requires a free draw on spawn turns. On a full board the source's retry loop never ends.
- TurnEngine.Game.SpawnEnemy: requires a free draw, for the same reason.
- Python's value typing is not modelled. Cells are one pair type; the tuple/list mismatch is modelled separately in `TupleListMismatch`. That `player_pos` becomes a tuple after a dash is not modelled; it has no effect elsewhere.
- An exception escaping a key handler is not modelled. The `indexError` result of `PerformAttack` stands for the dash's IndexError, with the state as the exception leaves it.

## Findings

| source | as written | input that shows it | evidently intended | confidence | as-written member | corrected member |
|---|---|---|---|---|---|---|
| main/main.py:196 | affected cells are tuples and enemies are lists, so `cell in self.enemies` is always false and no attack ever removes an enemy | player at (10, 10), dash facing Right, one enemy at (11, 10): the enemy survives | each affected cell removes one enemy standing on it | high, not executed | TupleListMismatch.StruckAsWritten | EnemyPool.Struck |
