/** The game-state engine of src/snake-game/snake-game.js as functions on a Game value.
    Each state-changing method of `SnakeGame` has a function here giving its effect; the
    query `isOccupiedByTail` is membership in `tail`. The class in snake_game.dfy performs
    the same steps in place and is proved to agree with these functions. */
module GameModel {
  import opened Block

  datatype Direction = Up | Down | Left | Right

  /** The `opposites` table. */
  function Opposite(d: Direction): (o: Direction)
    ensures o != d
    ensures d in {Up, Down} <==> o in {Up, Down}
  {
    match d
    case Up => Down
    case Down => Up
    case Right => Left
    case Left => Right
  }

  /** A board coordinate: `x` is the column, `y` the row (`blockMatrix[y][x]`). */
  datatype Position = Position(x: int, y: int)

  /** Where `spawnPlayer` puts the head. */
  const Spawn: Position := Position(2, 2)

  /** Every coordinate of a `width` by `height` board. */
  function Cells(width: int, height: int): (cells: set<Position>)
    ensures forall p :: p in cells <==> 0 <= p.x < width && 0 <= p.y < height
  {
    var cells := set x, y | 0 <= x < width && 0 <= y < height :: Position(x, y);
    assert forall p: Position | 0 <= p.x < width && 0 <= p.y < height :: p in cells;
    cells
  }

  /** The state of one `snake-game` element. */
  datatype Game = Game(
    width: int,              // `x`: number of columns
    height: int,             // `y`: number of rows
    grid: map<Position, Cell>, // the flags of `blockMatrix[y][x]`, keyed by Position(x, y)
    position: Position,      // `playerPosition`: the head
    direction: Direction,    // `movingDirection`
    changedThisTick: bool,   // `movementChangedThisGameTick`
    length: int,             // `playerLength`: the length the tail may reach
    tail: seq<Position>,     // `playerTail`, oldest entry first
    draws: seq<Position>     // the cells `Math.random` will propose next, in order
  )

  predicate InBounds(g: Game, p: Position)
  {
    0 <= p.x < g.width && 0 <= p.y < g.height
  }

  /** The shape every state has: a board of at least 3 by 3 (the spawn cell exists), one cell
      per coordinate, and tail entries and random proposals on the board. */
  predicate WellFormed(g: Game)
  {
    && 2 < g.width && 2 < g.height
    && g.grid.Keys == Cells(g.width, g.height)
    && (forall p | p in g.tail :: InBounds(g, p))
    && (forall p | p in g.draws :: InBounds(g, p))
  }

  /** Tail entries are pairwise distinct. */
  predicate Distinct(s: seq<Position>)
  {
    forall i, j | 0 <= i < j < |s| :: s[i] != s[j]
  }

  /** A block is occupied exactly when its coordinate is a tail entry. */
  predicate OccupiedIsTail(g: Game)
  {
    forall p | p in g.grid :: g.grid[p].occupied <==> p in g.tail
  }

  /** What `occupyBoxWithPlayer` expects of the state it is called on. */
  predicate Ready(g: Game)
  {
    && WellFormed(g)
    && InBounds(g, g.position)
    && 1 <= g.length
    && |g.tail| <= g.length
    && Distinct(g.tail)
    && OccupiedIsTail(g)
  }

  /** The invariant that holds between events: moreover the head is the newest tail entry. */
  predicate Inv(g: Game)
  {
    Ready(g) && g.tail != [] && g.tail[|g.tail| - 1] == g.position
  }

  /** The cells that hold fruit. */
  function FruitCells(g: Game): (cells: set<Position>)
    ensures forall p :: p in cells <==> p in g.grid && g.grid[p].fruit
  {
    set p | p in g.grid && g.grid[p].fruit
  }

  /** Fresh board as `createMap` leaves it: every block new; the player fields not yet set. */
  function NewGame(width: int, height: int, draws: seq<Position>): (g: Game)
    requires 2 < width && 2 < height
    requires forall p | p in draws :: 0 <= p.x < width && 0 <= p.y < height
    ensures WellFormed(g)
    ensures forall p | p in g.grid :: g.grid[p] == NewCell
  {
    Game(width, height, map p | p in Cells(width, height) :: NewCell,
         Position(0, 0), Right, false, 1, [], draws)
  }

  // ---------------------------------------------------------------- input gate

  /** The direction check in the `keyup` handler of `handleMovement`. */
  function HandleMovement(g: Game, newDir: Direction): (r: Game)
    ensures r == g || r == g.(direction := newDir, changedThisTick := true)
    ensures r != g ==> !g.changedThisTick && newDir != Opposite(g.direction)
  {
    if Opposite(g.direction) != newDir && !g.changedThisTick then
      g.(changedThisTick := true, direction := newDir)
    else
      g
  }

  /** The one-shot timer set on acceptance has fired. */
  function DebounceExpired(g: Game): (r: Game)
    ensures !r.changedThisTick
    ensures r.(changedThisTick := g.changedThisTick) == g
  {
    g.(changedThisTick := false)
  }

  // ---------------------------------------------------------------- movement

  /** The head after one step of `movePlayer`: one unit in `d`, then each axis wrapped by the
      four edge tests, in the source's order. */
  function MovePosition(p: Position, d: Direction, width: int, height: int): (q: Position)
    requires 0 < width && 0 < height
    ensures 0 <= q.x < width && 0 <= q.y < height
  {
    var stepped :=
      match d
      case Up => Position(p.x, p.y - 1)
      case Down => Position(p.x, p.y + 1)
      case Right => Position(p.x + 1, p.y)
      case Left => Position(p.x - 1, p.y);
    var y := if stepped.y >= height then 0 else stepped.y;
    var x := if stepped.x >= width then 0 else stepped.x;
    Position(if x < 0 then width - 1 else x, if y < 0 then height - 1 else y)
  }

  // ---------------------------------------------------------------- fruit

  /** Index of the first proposal that is not a tail cell, or |draws| when there is none. */
  function FirstFree(draws: seq<Position>, tail: seq<Position>): (i: nat)
    ensures i <= |draws|
    ensures forall j | 0 <= j < i :: draws[j] in tail
    ensures i < |draws| ==> draws[i] !in tail
  {
    if draws == [] then 0
    else if draws[0] in tail then 1 + FirstFree(draws[1..], tail)
    else 0
  }

  /** `setFruit`: the proposals are drawn in order until one is not a tail cell, and that
      cell's fruit flag is toggled; every proposal drawn is consumed. When the proposals run
      out first, nothing is placed. */
  function SetFruit(g: Game): (r: Game)
    requires WellFormed(g)
    ensures WellFormed(r)
    ensures r == g.(grid := r.grid, draws := r.draws)
    ensures r.grid.Keys == g.grid.Keys
    ensures forall p | p in g.grid :: r.grid[p].occupied == g.grid[p].occupied
    ensures |r.draws| <= |g.draws|
  {
    var i := FirstFree(g.draws, g.tail);
    if i < |g.draws| then
      var candidate := g.draws[i];
      var rest := g.draws[i + 1..];
      assert candidate in g.draws && forall p | p in rest :: p in g.draws;
      assert candidate in g.grid;
      var grid := g.grid[candidate := FruitToggled(g.grid[candidate])];
      assert grid.Keys == g.grid.Keys;
      g.(grid := grid, draws := rest)
    else
      g.(draws := [])
  }

  // ---------------------------------------------------------------- one tick

  /** Termination measure for the cycle occupy -> handle -> reset -> init -> spawn -> occupy:
      a reset empties the tail, and with an empty tail the head cannot collide. */
  function Phase(g: Game): nat
  {
    if g.tail == [] then 0 else 1
  }

  /** The fruit check of `handleBoxContentInteraction`: eat the fruit on the head's cell,
      grow by one and place a new fruit. */
  function EatFruit(g: Game): (r: Game)
    requires WellFormed(g) && InBounds(g, g.position)
    ensures WellFormed(r)
    ensures r == g.(grid := r.grid, draws := r.draws, length := r.length)
    ensures r.grid.Keys == g.grid.Keys
    ensures forall p | p in g.grid :: r.grid[p].occupied == g.grid[p].occupied
    ensures r.length == if g.grid[g.position].fruit then g.length + 1 else g.length
    ensures !g.grid[g.position].fruit ==> r == g
  {
    if g.grid[g.position].fruit then SetFruit(Grow(g)) else g
  }

  /** The fruit on the head's cell is eaten: its flag goes off and the snake may grow by one. */
  function Grow(g: Game): (r: Game)
    requires WellFormed(g) && InBounds(g, g.position)
    ensures WellFormed(r)
  {
    g.(grid := g.grid[g.position := FruitToggled(g.grid[g.position])], length := g.length + 1)
  }

  /** `handleBoxContentInteraction`: the fruit check, then the self-collision check against
      the whole current tail. The boolean is `continueGame`. */
  function HandleBoxContentInteraction(g: Game): (r: (Game, bool))
    requires WellFormed(g) && InBounds(g, g.position)
    ensures WellFormed(r.0)
    ensures r.0.width == g.width && r.0.height == g.height
    ensures r.1 <==> g.position !in g.tail
    ensures r.1 ==> r.0 == EatFruit(g)
    decreases Phase(g), 2
  {
    var g1 := EatFruit(g);
    if g1.position in g1.tail then
      (ResetGame(g1), false)
    else
      (g1, true)
  }

  /** First half of the commit in `occupyBoxWithPlayer`: occupy the head's block and push
      the head as the newest tail entry. */
  function PushHead(g: Game): (r: Game)
    requires WellFormed(g) && InBounds(g, g.position)
    ensures WellFormed(r)
    ensures r == g.(grid := r.grid, tail := r.tail)
  {
    assert g.position in g.grid;
    g.(grid := g.grid[g.position := OccupationToggled(g.grid[g.position])],
       tail := g.tail + [g.position])
  }

  /** Second half: drop the oldest tail entry and toggle its block's occupation. */
  function EvictOldest(g: Game): (r: Game)
    requires WellFormed(g) && g.tail != []
    ensures WellFormed(r)
    ensures r == g.(grid := r.grid, tail := r.tail)
  {
    var lastElem := g.tail[0];
    assert lastElem in g.tail && forall p | p in g.tail[1..] :: p in g.tail;
    assert lastElem in g.grid;
    g.(tail := g.tail[1..], grid := g.grid[lastElem := OccupationToggled(g.grid[lastElem])])
  }

  /** The commit of `occupyBoxWithPlayer`: occupy the head's block, push the head and, when
      the tail is longer than `length`, evict its oldest entry. */
  function CommitHead(g: Game): (r: Game)
    requires WellFormed(g) && InBounds(g, g.position)
    ensures WellFormed(r)
    ensures r == g.(grid := r.grid, tail := r.tail)
  {
    var g2 := PushHead(g);
    if |g2.tail| > g2.length then EvictOldest(g2) else g2
  }

  /** `occupyBoxWithPlayer`: the content check, then, on a continuing game, the commit. */
  function OccupyBoxWithPlayer(g: Game): (r: Game)
    requires WellFormed(g) && InBounds(g, g.position)
    ensures WellFormed(r)
    ensures r.width == g.width && r.height == g.height
    decreases Phase(g), 3
  {
    var (g1, continueGame) := HandleBoxContentInteraction(g);
    if !continueGame then g1 else CommitHead(g1)
  }

  /** The nested loops of `resetGame`: `removeOccupation` on every block. */
  function ClearOccupation(grid: map<Position, Cell>): (r: map<Position, Cell>)
    ensures r.Keys == grid.Keys
    ensures forall p | p in r :: !r[p].occupied && !r[p].fruit
  {
    map p | p in grid :: OccupationRemoved(grid[p])
  }

  /** `resetGame`: clear every block's occupation, then start a new round. */
  function ResetGame(g: Game): (r: Game)
    requires WellFormed(g)
    ensures WellFormed(r)
    ensures r.width == g.width && r.height == g.height
    decreases 1, 1
  {
    InitGame(g.(grid := ClearOccupation(g.grid)))
  }

  /** `initGame`: direction Right, length 1, empty tail, a fruit, then the spawn. */
  function InitGame(g: Game): (r: Game)
    requires WellFormed(g)
    ensures WellFormed(r)
    ensures r.width == g.width && r.height == g.height
    decreases 1, 0
  {
    SpawnPlayer(SetFruit(g.(direction := Right, length := 1, tail := [])))
  }

  /** `spawnPlayer`: put the head on the spawn cell and occupy it. */
  function SpawnPlayer(g: Game): (r: Game)
    requires WellFormed(g)
    ensures WellFormed(r)
    ensures r.width == g.width && r.height == g.height
    decreases Phase(g), 4
  {
    OccupyBoxWithPlayer(g.(position := Spawn))
  }

  /** `movePlayer` (one `handleGameTick`): step the head, then occupy its new cell. */
  function MovePlayer(g: Game): (r: Game)
    requires WellFormed(g)
    ensures WellFormed(r)
    ensures r.width == g.width && r.height == g.height
  {
    OccupyBoxWithPlayer(g.(position := MovePosition(g.position, g.direction, g.width, g.height)))
  }
}
