# Snake game engine in Dafny

A model of the game-state engine of the `snake-game` web component
(`src/snake-game/snake-game.js`) and of its board cells (`src/snake-game/snake-block.js`).

The game is a board of `x` by `y` blocks (20 by 15 by default). Each block carries two flags:
`occupied` and `fruit`. The player has the following fields:

- a head position;
- a moving direction;
- a debounce flag that allows one direction change per tick interval;
- a target length;
- the tail: the occupied cells, oldest first.

Each tick does the following:

1. Moves the head one cell, wrapping around the edges.
2. Eats a fruit found on the new cell. The fruit flag goes off, the length grows by one and a
   new fruit is placed on a random cell outside the tail.
3. Resets the round when the new cell is a tail cell.
4. Otherwise occupies the cell, pushes it onto the tail and evicts the oldest entry when the
   tail is longer than the length.

The project has four modules:

- `Block` (`snake_block.dfy`): the cell value `Cell` and the effect of each block operation.
  The class `SnakeBlock` applies those effects in place.
- `GameModel` (`game_model.dfy`): the engine as functions on a `Game` value. Each
  state-changing method of the component has a function with the same branches in the same
  order, except `setFruit`. `GameModel.SetFruit` toggles the first proposal outside the tail.
  The retry as the source writes it is `GameLemmas.SetFruitRetry`, proved equal to it by
  `GameLemmas.SetFruitRetryAgrees`. The query `isOccupiedByTail` has no function of its own:
  it is membership in `tail`.
- `GameLemmas` (`game_lemmas.dfy`): what a tick does in each of its outcomes, and the invariant
  every event preserves. Also the input gate, fruit placement and the scenarios of a 20 by 15
  board.
- `Snake` (`snake_game.dfy`): the class `SnakeGame`. It keeps a matrix of `SnakeBlock`
  objects that its methods update in place, as the component does. Each method that models a
  method of the component is proved to have exactly the effect of the `GameModel` function
  of the same name (`Abs()` is the state as a `Game` value), so everything proved in
  `GameLemmas` holds of the object. The helpers state their effect directly instead:
  `CreateMap`, `ToggleOccupationAt`, `ToggleFruitAt`, `StepHead`, `IsOccupiedByTail`,
  `DrawFreeCell` and the three `Remove...Occupation` loops. The entry points keep the
  invariant `Valid()`: the constructor, a tick, a key event and the debounce timer's expiry.

The invariant `GameModel.Inv` holds after every event. It says:

- the head is on the board;
- `1 <= length` and `|tail| <= length`;
- the tail entries are pairwise distinct;
- a block is occupied exactly when it is a tail entry;
- the head is the newest tail entry.

Exactly one cell holds fruit after the first round starts, after every reset and after every
tick (`GameLemmas.NewRoundHasOneFruit`, `ResetLeavesOneFruit`, `TickKeepsOneFruit`). This holds
as long as the proposals do not run out before a placement finds a cell outside the tail. It
also covers the tick after the tail has filled the board: that tick enters a tail cell without
fruit and resets.

The `Math.random` calls of `setFruit` become a supplied sequence of proposed cells,
`randomDraws`. Each proposal is consumed when it is drawn.

Behaviour worth noting:

- `removeOccupation` (snake-block.js:48-53) clears both flags. Its assignment to the misspelt
  property `fruite` has no effect. But `fruit` is a declared Boolean property, so it is
  observed as an attribute, and the `removeAttribute("fruit")` that follows sets it to false.
  A reset therefore leaves no fruit behind.
- `setFruit` toggles the chosen cell's flag rather than setting it. When it is called, either
  the board has just been cleared or the only fruit has just been eaten, so the chosen cell
  holds no fruit and the toggle sets it.
- The fruit placed while eating may land on the cell the head is entering, because that cell
  is not yet a tail entry (`GameLemmas.FruitCanLandUnderTheHead`).
- Heading Up, the keys Down then Left within one tick interval: Down is rejected as a
  reversal without setting the debounce flag, so Left is accepted
  (`GameLemmas.UpThenDownThenLeft`).
- The head wraps by four edge tests, not by a modulo. For a head on the board the two agree
  (`GameLemmas.MoveIsToroidal`).
- The component does not validate its dimensions. The model's constructor requires a board of
  at least 3 by 3, because the spawn cell (2,2) must exist.

## Model

| member | source | states |
|---|---|---|
| Block.OccupationToggled | src/snake-game/snake-block.js:39-46 | `toggleOccupation` flips the occupied flag and keeps the fruit flag |
| Block.FruitToggled | src/snake-game/snake-block.js:55-62 | `toggleFruit` flips the fruit flag and keeps the occupied flag |
| Block.OccupationRemoved | src/snake-game/snake-block.js:48-53 | `removeOccupation` clears both flags: `occupied` directly, `fruit` through the removal of its observed attribute (the misspelt `fruite` assignment has no effect) |
| Block.ToggleOccupationTwice | src/snake-game/snake-block.js:39-46 | toggling occupation twice restores the cell |
| Block.ToggleFruitTwice | src/snake-game/snake-block.js:55-62 | toggling fruit twice restores the cell |
| Block.RemoveOccupationIdempotent | src/snake-game/snake-block.js:48-53 | removing occupation twice is the same as once; the result is always a fresh block |
| Block.SnakeBlock.constructor | src/snake-game/snake-block.js:31-35 | a new block is neither occupied nor holding fruit |
| Block.SnakeBlock.ToggleOccupation | src/snake-game/snake-block.js:39-46 | the block's new state is `OccupationToggled` of its old state |
| Block.SnakeBlock.RemoveOccupation | src/snake-game/snake-block.js:48-53 | the block's new state is `OccupationRemoved` of its old state |
| Block.SnakeBlock.ToggleFruit | src/snake-game/snake-block.js:55-62 | the block's new state is `FruitToggled` of its old state |
| GameModel.Opposite | src/snake-game/snake-game.js:4-9 | the `opposites` table: no direction is its own opposite, and opposites stay on the same axis |
| GameModel.Cells | src/snake-game/snake-game.js:178-188 | the coordinates of the board `createMap` builds: exactly those with `0 <= x < width` and `0 <= y < height` |
| GameModel.NewGame | src/snake-game/snake-game.js:178-188 | the board right after `createMap`: well formed, every block fresh |
| GameModel.FruitCells | src/snake-game/snake-block.js:7 | exactly the cells whose `fruit` flag is set |
| GameModel.HandleMovement | src/snake-game/snake-game.js:65-70 | a key event either changes nothing or sets the direction and the debounce flag; a change happens only for a non-reverse direction with the flag clear |
| GameModel.DebounceExpired | src/snake-game/snake-game.js:71-74 | the timer clears the debounce flag and changes nothing else |
| GameModel.MovePosition | src/snake-game/snake-game.js:85-112 | the head after the step and the four edge tests is always on the board |
| GameModel.FirstFree | src/snake-game/snake-game.js:160-168 | index of the first proposal that is not a tail cell: all earlier proposals are tail cells, and the one at the index is not |
| GameModel.SetFruit | src/snake-game/snake-game.js:160-168 | placing a fruit keeps the board's shape, changes only the grid and the remaining proposals, consumes proposals, and touches no occupied flag |
| GameModel.EatFruit | src/snake-game/snake-game.js:134-138 | the fruit check changes only grid, length and proposals; `length` grows by one exactly when the head's cell held fruit; no occupied flag changes; without fruit nothing changes |
| GameModel.Grow | src/snake-game/snake-game.js:135-136 | eating the fruit (flag off, length plus one) keeps the board well formed |
| GameModel.HandleBoxContentInteraction | src/snake-game/snake-game.js:133-144 | the game continues exactly when the head's cell is not a tail entry, and then the state is the one after the fruit check |
| GameModel.PushHead | src/snake-game/snake-game.js:125-126 | occupying the head's block and pushing the head changes only grid and tail |
| GameModel.EvictOldest | src/snake-game/snake-game.js:127-130 | evicting the oldest tail entry changes only grid and tail |
| GameModel.CommitHead | src/snake-game/snake-game.js:125-130 | the commit changes only grid and tail and keeps the board well formed |
| GameModel.OccupyBoxWithPlayer | src/snake-game/snake-game.js:116-131 | `occupyBoxWithPlayer` keeps the board well formed and its size |
| GameModel.ClearOccupation | src/snake-game/snake-game.js:191-195 | after the loops of `resetGame` no block is occupied and none holds fruit |
| GameModel.ResetGame | src/snake-game/snake-game.js:190-197 | `resetGame` keeps the board well formed and its size |
| GameModel.InitGame | src/snake-game/snake-game.js:170-176 | `initGame` keeps the board well formed and its size |
| GameModel.SpawnPlayer | src/snake-game/snake-game.js:56-59 | `spawnPlayer` keeps the board well formed and its size |
| GameModel.MovePlayer | src/snake-game/snake-game.js:84-114 | one tick keeps the board well formed and its size |
| GameLemmas.MoveIsToroidal | src/snake-game/snake-game.js:85-112 | from a cell on the board, the step plus edge tests is a move by the direction's unit offset modulo the board's size |
| GameLemmas.OneStepMod | src/snake-game/snake-game.js:101-112 | an edge test equals reduction modulo the size for a coordinate at most one step off the board |
| GameLemmas.WrapAtEdges | src/snake-game/snake-game.js:101-112 | leaving by the right, left, top or bottom edge re-enters at column 0, the last column, the last row or row 0 |
| GameLemmas.FirstTurn | src/snake-game/snake-game.js:65-70 | index of the first key that is not the reverse of the current direction |
| GameLemmas.ReverseIsRejected | src/snake-game/snake-game.js:65-70 | the reverse of the moving direction never changes the state |
| GameLemmas.DebounceRejects | src/snake-game/snake-game.js:65-70 | with the debounce flag set, no key changes the state |
| GameLemmas.NoTurnWhileDebounced | src/snake-game/snake-game.js:61-78 | with the flag set, any sequence of key events changes nothing |
| GameLemmas.AtMostOneTurnPerWindow | src/snake-game/snake-game.js:61-78 | between two expiries of the debounce timer, a sequence of keys sets the direction to the first non-reverse key, and nothing after it changes anything |
| GameLemmas.UpThenDownThenLeft | src/snake-game/snake-game.js:65-70 | heading Up, Down then Left leaves the direction Left when the flag was clear and Up when it was set |
| GameLemmas.SetFruitRetry | src/snake-game/snake-game.js:160-168 | the retry as the source writes it changes only the grid and the proposals, keeps the board's cells and every occupied flag, and never adds proposals |
| GameLemmas.SetFruitRetryLeavesSuffix | src/snake-game/snake-game.js:161-166 | the retry consumes proposals from the front: the remaining proposals are a suffix of the old ones |
| GameLemmas.SetFruitRetrySkipsTail | src/snake-game/snake-game.js:163-166 | every proposal the retry consumes before its last draw is a tail cell |
| GameLemmas.SetFruitRetryAgrees | src/snake-game/snake-game.js:160-168 | the recursive retry, written as the source writes it, equals the first-free-proposal definition on every state |
| GameLemmas.SetFruitTogglesOneFreeCell | src/snake-game/snake-game.js:160-168 | the toggled proposal is on the board and outside the tail, and it is the only cell whose fruit flag changes |
| GameLemmas.CommitHeadEffect | src/snake-game/snake-game.js:125-130 | the commit pushes the head, drops the oldest entry exactly when the tail would exceed `length`, and touches no fruit flag |
| GameLemmas.AdvanceEffect | src/snake-game/snake-game.js:116-131 | a non-colliding tick is the fruit check then the commit; position, direction, flag, length and proposals come from the fruit check, the tail is pushed and evicted as the length requires, and fruit flags are those after the fruit check |
| GameLemmas.PushKeepsOccupancy | src/snake-game/snake-game.js:125-126 | pushing a head that is not a tail entry keeps the entries distinct and "occupied iff tail entry" |
| GameLemmas.EvictKeepsOccupancy | src/snake-game/snake-game.js:127-130 | evicting the oldest of distinct tail entries keeps both facts |
| GameLemmas.AdvanceKeepsInv | src/snake-game/snake-game.js:116-131 | a non-colliding tick ends in a state satisfying the invariant |
| GameLemmas.InitEstablishesInv | src/snake-game/snake-game.js:170-176 | `initGame` on a board with no occupied block starts a state satisfying the invariant |
| GameLemmas.ResetEstablishesInv | src/snake-game/snake-game.js:190-197 | `resetGame` always ends in a state satisfying the invariant |
| GameLemmas.OccupyKeepsInv | src/snake-game/snake-game.js:116-131 | `occupyBoxWithPlayer`, colliding or not, ends in a state satisfying the invariant |
| GameLemmas.TickKeepsInv | src/snake-game/snake-game.js:84-114 | every tick preserves the invariant: head on the board, `tail.length <= length`, distinct entries, occupied iff tail entry, head newest |
| GameLemmas.SpawnOnEmptyBoard | src/snake-game/snake-game.js:56-59 | on an empty board with empty tail and length 1, the head and whole tail are the spawn cell (2,2), only it is occupied, its fruit if any is eaten at once (length 2); without fruit there no fruit flag changes |
| GameLemmas.ResetIsSpawnOnClearedBoard | src/snake-game/snake-game.js:190-197 | `resetGame` is `spawnPlayer` after the fruit placement on the cleared board with direction Right, length 1 and empty tail |
| GameLemmas.ResetStartsFreshRound | src/snake-game/snake-game.js:190-197 | after a reset, head and tail are the spawn cell, direction Right, length 1 (2 if the new fruit lands on the spawn cell), the debounce flag is unchanged, and only the spawn cell is occupied |
| GameLemmas.EatFruitEffect | src/snake-game/snake-game.js:134-138 | eating: `length` grows by exactly one, tail and head are kept, proposals up to the first free one are consumed, and the fruit flags change on the head's cell and on that proposal only |
| GameLemmas.EatingFruit | src/snake-game/snake-game.js:84-144 | a tick onto a fruit cell outside the tail: the head moves there, `length` grows by one, the tail gains the head with no eviction, and the fruit flags change only on that cell and on the first proposal outside the tail |
| GameLemmas.PlainStep | src/snake-game/snake-game.js:84-131 | a tick onto a cell with neither fruit nor tail: length and proposals are kept, the head is pushed, the oldest entry is evicted exactly when the tail would exceed `length`, and only those two blocks change |
| GameLemmas.SelfCollisionResets | src/snake-game/snake-game.js:139-142 | a tick onto any tail cell is the fruit check followed by `resetGame`; head and tail end on the spawn cell |
| GameLemmas.VacatingCellStillCollides | src/snake-game/snake-game.js:116-131 | at full length, entering the cell the oldest entry is about to leave still resets the game, since the collision test runs before the eviction |
| GameLemmas.PlaceOnEmptyBoard | src/snake-game/snake-game.js:160-168 | with an empty tail and no fruit, `setFruit` puts the only fruit on the first proposal and consumes it |
| GameLemmas.SpawnOnFruit | src/snake-game/snake-game.js:56-59 | spawning onto the only fruit eats it, and the only fruit afterwards is on the next proposal |
| GameLemmas.SpawnKeepsFruitCells | src/snake-game/snake-game.js:56-59 | spawning on an empty board with no fruit on (2,2) changes no fruit flag |
| GameLemmas.SpawnEstablishesInv | src/snake-game/snake-game.js:56-59 | spawning on a board with no occupied block and an empty tail starts a state satisfying the invariant |
| GameLemmas.InitPlacesOneFruit | src/snake-game/snake-game.js:170-176 | `initGame` on a board with no occupied block and no fruit leaves exactly one fruit cell: the first proposal, or the second when the first is (2,2) and is eaten by the spawn |
| GameLemmas.NewRoundHasOneFruit | src/snake-game/snake-game.js:46-54 | the first round of a new game has exactly one fruit cell, on the proposal named above |
| GameLemmas.ResetLeavesOneFruit | src/snake-game/snake-game.js:190-197 | whatever the old board held, the round after a reset has exactly one fruit cell, on the proposal named above |
| GameLemmas.CollisionLeavesOneFruit | src/snake-game/snake-game.js:133-144 | a tick that collides with the tail ends with exactly one fruit cell |
| GameLemmas.EatingKeepsOneFruit | src/snake-game/snake-game.js:133-138 | a tick onto the only fruit, outside the tail, ends with exactly one fruit cell |
| GameLemmas.PlainStepKeepsFruit | src/snake-game/snake-game.js:116-131 | a tick onto a cell with neither fruit nor tail leaves the fruit cells unchanged |
| GameLemmas.TickKeepsOneFruit | src/snake-game/snake-game.js:84-144 | every tick keeps exactly one fruit cell |
| GameLemmas.FruitCanLandUnderTheHead | src/snake-game/snake-game.js:133-138 | a fruit proposed onto the cell the head is entering stays there: after the tick the head's block is occupied and holds fruit |
| GameLemmas.StepRightFromSpawn | src/snake-game/snake-game.js:84-131 | on 20 by 15, head at (2,2) heading Right with length 1: after a tick the head is at (3,2), (3,2) is occupied and (2,2) is not |
| GameLemmas.WrapRightOn20By15 | src/snake-game/snake-game.js:104-106 | on 20 by 15, head at (19,5) heading Right moves to (0,5), or resets when (0,5) is a tail cell |
| Snake.SnakeGame.CreateMap | src/snake-game/snake-game.js:178-188 | a `height` by `width` matrix of fresh blocks, each in the new state, with block `[r][c]` at coordinate (c, r) and no block repeated |
| Snake.SnakeGame.constructor | src/snake-game/snake-game.js:46-54 | the board built and the game initialised: the state is `InitGame` of the fresh board and satisfies `Valid()` |
| Snake.SnakeGame.ToggleOccupationAt | src/snake-game/snake-game.js:125 | toggling one block changes exactly that cell of the state |
| Snake.SnakeGame.ToggleFruitAt | src/snake-game/snake-game.js:164 | toggling one block's fruit changes exactly that cell of the state |
| Snake.SnakeGame.HandleMovement | src/snake-game/snake-game.js:61-78 | the key handler has the effect of `GameModel.HandleMovement` and keeps `Valid()` |
| Snake.SnakeGame.DebounceExpired | src/snake-game/snake-game.js:71-74 | the timer's expiry has the effect of `GameModel.DebounceExpired` and keeps `Valid()` |
| Snake.SnakeGame.MovePlayer | src/snake-game/snake-game.js:80-114 | a tick has the effect of `GameModel.MovePlayer` and keeps `Valid()` |
| Snake.SnakeGame.StepHead | src/snake-game/snake-game.js:85-112 | the step and edge tests move the head to `MovePosition` and change nothing else |
| Snake.SnakeGame.OccupyBoxWithPlayer | src/snake-game/snake-game.js:116-131 | has the effect of `GameModel.OccupyBoxWithPlayer` on blocks and fields |
| Snake.SnakeGame.CommitHead | src/snake-game/snake-game.js:125-130 | has the effect of `GameModel.CommitHead` |
| Snake.SnakeGame.HandleBoxContentInteraction | src/snake-game/snake-game.js:133-144 | has the effect of `GameModel.HandleBoxContentInteraction`, returning whether the game continues |
| Snake.SnakeGame.EatFruit | src/snake-game/snake-game.js:134-138 | has the effect of `GameModel.EatFruit` |
| Snake.SnakeGame.Grow | src/snake-game/snake-game.js:135-136 | has the effect of `GameModel.Grow` |
| Snake.SnakeGame.IsOccupiedByTail | src/snake-game/snake-game.js:146-158 | the scan returns true exactly when the coordinate is an entry of the whole tail |
| Snake.SnakeGame.SetFruit | src/snake-game/snake-game.js:160-168 | has the effect of `GameModel.SetFruit` |
| Snake.SnakeGame.DrawFreeCell | src/snake-game/snake-game.js:160-168 | the retry loop finds a proposal exactly when one is outside the tail; it returns the first such proposal and the proposals after it |
| Snake.SnakeGame.ResetGame | src/snake-game/snake-game.js:190-197 | has the effect of `GameModel.ResetGame` |
| Snake.SnakeGame.RemoveAllOccupation | src/snake-game/snake-game.js:191-195 | the loops leave the grid as `ClearOccupation` of the old one and change no other field |
| Snake.SnakeGame.RemoveRowsOccupation | src/snake-game/snake-game.js:191-195 | every block ends in `OccupationRemoved` of its old state |
| Snake.SnakeGame.RemoveRowOccupation | src/snake-game/snake-game.js:192-194 | the blocks of row `i` end in `OccupationRemoved` of their old state; the other rows are unchanged |
| Snake.SnakeGame.InitGame | src/snake-game/snake-game.js:170-176 | has the effect of `GameModel.InitGame` |
| Snake.SnakeGame.SpawnPlayer | src/snake-game/snake-game.js:56-59 | has the effect of `GameModel.SpawnPlayer` |

## Left out

- Rendering is not modelled: styles, `blockWidth`, `createBlock`'s sizing and `appendChild`.
- The block attributes are not modelled as state of their own. In the toggle methods each
  attribute is set to agree with the flag just assigned, so feeding it back to the property
  changes nothing. In `removeOccupation` the removal of the `fruit` attribute clears `fruit`,
  and `OccupationRemoved` includes that effect.
- The misspelt `fruite` property is written by `removeOccupation` and never read.
- `setInterval` and `tickRate` are not modelled. Each tick is one call of `MovePlayer`
  (`handleGameTick` does nothing else).
- The `setTimeout` that clears the debounce flag is the method `DebounceExpired`, called by the
  environment. How its expiry interleaves with ticks in time is not modelled.
- The `keyup` listener's key parsing is not modelled. `HandleMovement` takes the arrow's
  direction; only the four arrow keys contain "Arrow", and other keys are ignored by the source.
- `Math.random` is replaced by the supplied proposals `randomDraws`, each a cell on the board.
  The model says nothing about their distribution.
- GameModel.SetFruit: when the proposals run out before one falls outside the tail, no fruit is
  placed. The source keeps drawing. When every cell is a tail cell, its recursion has no end
  and overflows the call stack. The resulting error aborts the tick after the head's fruit was
  cleared and the length grown, with no reset and no commit. The model does not capture that
  aborted tick.
- Snake.SnakeGame.SetFruit: places no fruit when the proposals run out, as `GameModel.SetFruit`.
- GameLemmas.TickKeepsOneFruit: requires two proposals, for the reset a collision makes. When
  the entered cell holds fruit it also requires two proposals beyond the first free one.
  `CollisionLeavesOneFruit` has the same requirements. `InitPlacesOneFruit`,
  `NewRoundHasOneFruit` and `ResetLeavesOneFruit` likewise require two proposals. This is
  because the proposals are finite in the model. A tick onto a tail cell without fruit, as
  on a full board, needs no free proposal.
- Snake.SnakeGame.constructor: requires a board of at least 3 by 3 and takes its dimensions as
  parameters instead of the defaults 20 and 15. On a smaller board the source indexes a missing
  block when it spawns at (2,2).
- `playerPosition` is undefined before the first `spawnPlayer`. The model starts it at (0,0), and
  it is overwritten before it is read.
- The source mutates the `playerPosition` object in place, but it pushes copies onto the tail,
  so no alias is observable. The model holds positions as values.
- The registration with `customElements` is not modelled.
