/** Properties of the engine in game_model.dfy: what one tick does in each of its three
    outcomes (fruit eaten, self-collision, plain step), the invariants every tick preserves,
    the input gate, fruit placement, and the one fruit cell every round keeps. */
module GameLemmas {
  import opened Block
  import opened GameModel

  // ---------------------------------------------------------------- movement

  function Dx(d: Direction): int
  {
    match d
    case Right => 1
    case Left => -1
    case _ => 0
  }

  function Dy(d: Direction): int
  {
    match d
    case Down => 1
    case Up => -1
    case _ => 0
  }

  /** From a cell of the board, the edge tests of `movePlayer` amount to moving one unit on a
      torus: each coordinate changes by the direction's offset, modulo the board's size. */
  lemma MoveIsToroidal(p: Position, d: Direction, width: int, height: int)
    requires 0 < width && 0 < height
    requires 0 <= p.x < width && 0 <= p.y < height
    ensures MovePosition(p, d, width, height)
         == Position((p.x + Dx(d)) % width, (p.y + Dy(d)) % height)
  {
    OneStepMod(p.x + Dx(d), width);
    OneStepMod(p.y + Dy(d), height);
  }

  /** A coordinate at most one step off the board, reduced modulo the board's size. */
  lemma OneStepMod(a: int, n: int)
    requires 0 < n && -1 <= a <= n
    ensures a % n == if a == n then 0 else if a < 0 then n - 1 else a
  {
    if a == n {
      assert a == 1 * n + 0;
    } else if a < 0 {
      assert a == -1 * n + (n - 1);
    } else {
      assert a == 0 * n + a;
    }
  }

  /** The four wrap-arounds: off the right edge to column 0, off the left edge to the last
      column, off the top to the last row, off the bottom to row 0. */
  lemma WrapAtEdges(width: int, height: int, x: int, y: int)
    requires 0 < width && 0 < height
    requires 0 <= x < width && 0 <= y < height
    ensures MovePosition(Position(width - 1, y), Right, width, height) == Position(0, y)
    ensures MovePosition(Position(0, y), Left, width, height) == Position(width - 1, y)
    ensures MovePosition(Position(x, 0), Up, width, height) == Position(x, height - 1)
    ensures MovePosition(Position(x, height - 1), Down, width, height) == Position(x, 0)
  {
  }

  // ---------------------------------------------------------------- input gate

  /** Applying `handleMovement` to every key event of a sequence, in order. */
  function HandleMovements(g: Game, inputs: seq<Direction>): Game
    decreases |inputs|
  {
    if inputs == [] then g else HandleMovements(HandleMovement(g, inputs[0]), inputs[1..])
  }

  /** Index of the first input that is not the reverse of `current`, or |inputs|. */
  function FirstTurn(current: Direction, inputs: seq<Direction>): (i: nat)
    ensures i <= |inputs|
    ensures forall j | 0 <= j < i :: inputs[j] == Opposite(current)
    ensures i < |inputs| ==> inputs[i] != Opposite(current)
  {
    if inputs == [] then 0
    else if inputs[0] == Opposite(current) then 1 + FirstTurn(current, inputs[1..])
    else 0
  }

  lemma ReverseIsRejected(g: Game)
    ensures HandleMovement(g, Opposite(g.direction)) == g
  {
  }

  lemma DebounceRejects(g: Game, newDir: Direction)
    requires g.changedThisTick
    ensures HandleMovement(g, newDir) == g
  {
  }

  /** While the flag is set, any number of key events changes nothing. */
  lemma {:induction false} NoTurnWhileDebounced(g: Game, inputs: seq<Direction>)
    requires g.changedThisTick
    ensures HandleMovements(g, inputs) == g
  {
    if inputs != [] {
      NoTurnWhileDebounced(g, inputs[1..]);
    }
  }

  /** Between two expiries of the debounce timer at most one direction change is accepted:
      the first input that is not a reversal, and nothing after it. */
  lemma {:induction false} AtMostOneTurnPerWindow(g: Game, inputs: seq<Direction>)
    requires !g.changedThisTick
    ensures var i := FirstTurn(g.direction, inputs);
            HandleMovements(g, inputs)
            == if i < |inputs| then g.(direction := inputs[i], changedThisTick := true) else g
  {
    if inputs != [] {
      if inputs[0] == Opposite(g.direction) {
        AtMostOneTurnPerWindow(g, inputs[1..]);
      } else {
        NoTurnWhileDebounced(HandleMovement(g, inputs[0]), inputs[1..]);
      }
    }
  }

  /** Heading Up, the keys Down then Left in one window: Down is a reversal and is dropped;
      Left is taken unless a turn was already accepted in this window. */
  lemma UpThenDownThenLeft(g: Game)
    requires g.direction == Up
    ensures !g.changedThisTick ==> HandleMovements(g, [Down, Left]).direction == Left
    ensures g.changedThisTick ==> HandleMovements(g, [Down, Left]).direction == Up
  {
    if g.changedThisTick {
      NoTurnWhileDebounced(g, [Down, Left]);
    } else {
      AtMostOneTurnPerWindow(g, [Down, Left]);
    }
  }

  // ---------------------------------------------------------------- fruit placement

  /** `setFruit` as the source writes it: draw one proposal; when it is a tail cell, start
      over with the next one; otherwise toggle its fruit flag. */
  function SetFruitRetry(g: Game): (r: Game)
    requires WellFormed(g)
    ensures r == g.(grid := r.grid, draws := r.draws)
    ensures r.grid.Keys == g.grid.Keys
    ensures forall p | p in g.grid :: r.grid[p].occupied == g.grid[p].occupied
    ensures |r.draws| <= |g.draws|
    decreases |g.draws|
  {
    if g.draws == [] then g.(draws := [])
    else
      var candidate := g.draws[0];
      assert candidate in g.draws && forall p | p in g.draws[1..] :: p in g.draws;
      assert candidate in g.grid;
      if candidate in g.tail then
        SetFruitRetry(g.(draws := g.draws[1..]))
      else
        g.(grid := g.grid[candidate := FruitToggled(g.grid[candidate])], draws := g.draws[1..])
  }

  /** The retry consumes proposals from the front: what remains is a suffix of them. */
  lemma {:induction false} SetFruitRetryLeavesSuffix(g: Game)
    requires WellFormed(g)
    ensures var r := SetFruitRetry(g); r.draws == g.draws[|g.draws| - |r.draws|..]
    decreases |g.draws|
  {
    if g.draws != [] && g.draws[0] in g.tail {
      var h := g.(draws := g.draws[1..]);
      assert forall p | p in h.draws :: p in g.draws;
      SetFruitRetryLeavesSuffix(h);
      assert SetFruitRetry(g) == SetFruitRetry(h);
    }
  }

  /** Every proposal the retry consumes before the last one it draws is a tail cell. */
  lemma {:induction false} SetFruitRetrySkipsTail(g: Game)
    requires WellFormed(g)
    ensures var r := SetFruitRetry(g);
            forall k | 0 <= k < |g.draws| - |r.draws| - 1 :: g.draws[k] in g.tail
    decreases |g.draws|
  {
    if g.draws != [] && g.draws[0] in g.tail {
      var h := g.(draws := g.draws[1..]);
      assert forall p | p in h.draws :: p in g.draws;
      SetFruitRetrySkipsTail(h);
      assert SetFruitRetry(g) == SetFruitRetry(h);
      assert forall k | 1 <= k < |g.draws| :: g.draws[k] == h.draws[k - 1];
    }
  }

  /** The retry and the first-free-proposal formulation of `setFruit` agree on every state. */
  lemma {:induction false} SetFruitRetryAgrees(g: Game)
    requires WellFormed(g)
    ensures SetFruitRetry(g) == SetFruit(g)
    decreases |g.draws|
  {
    if g.draws != [] {
      assert g.draws[0] in g.draws;
      if g.draws[0] in g.tail {
        var g' := g.(draws := g.draws[1..]);
        assert forall p | p in g'.draws :: p in g.draws;
        SetFruitRetryAgrees(g');
        assert FirstFree(g.draws, g.tail) == 1 + FirstFree(g'.draws, g.tail);
        assert g.draws[1..][FirstFree(g'.draws, g.tail)..] == g.draws[FirstFree(g.draws, g.tail)..];
      }
    }
  }

  /** The cell `setFruit` toggles is on the board and is not a tail cell, and it is the only
      cell whose fruit flag changes. */
  lemma SetFruitTogglesOneFreeCell(g: Game)
    requires WellFormed(g)
    ensures var r := SetFruit(g);
            var i := FirstFree(g.draws, g.tail);
            && (i < |g.draws| ==> g.draws[i] in g.grid && g.draws[i] !in g.tail)
            && forall p | p in g.grid ::
                 r.grid[p].fruit == (g.grid[p].fruit != (i < |g.draws| && p == g.draws[i]))
  {
    var i := FirstFree(g.draws, g.tail);
    if i < |g.draws| {
      assert g.draws[i] in g.draws;
    }
  }

  // ---------------------------------------------------------------- one tick

  /** A tick whose head does not enter a tail cell: the fruit check runs, the head is pushed,
      and the oldest entry is evicted exactly when the tail would exceed `length`. */
  lemma AdvanceEffect(g: Game)
    requires Ready(g) && g.position !in g.tail
    ensures var r := OccupyBoxWithPlayer(g);
            var g1 := EatFruit(g);
            var pushed := g.tail + [g.position];
            && r == CommitHead(g1)
            && r.position == g.position
            && r.direction == g.direction
            && r.changedThisTick == g.changedThisTick
            && r.length == g1.length
            && r.draws == g1.draws
            && r.tail == (if |pushed| > g1.length then pushed[1..] else pushed)
            && (forall p | p in r.grid :: r.grid[p].fruit == g1.grid[p].fruit)
  {
    var g1 := EatFruit(g);
    assert HandleBoxContentInteraction(g) == (g1, true);
    assert OccupyBoxWithPlayer(g) == CommitHead(g1);
    CommitHeadEffect(g1);
  }

  /** The commit pushes the head onto the tail, drops the oldest entry when the tail would
      exceed `length`, and touches no fruit flag. */
  lemma CommitHeadEffect(g: Game)
    requires WellFormed(g) && InBounds(g, g.position)
    ensures var r := CommitHead(g);
            var pushed := g.tail + [g.position];
            && r.tail == (if |pushed| > g.length then pushed[1..] else pushed)
            && (forall p | p in r.grid :: r.grid[p].fruit == g.grid[p].fruit)
  {
    var g2 := PushHead(g);
    if |g2.tail| > g2.length {
      assert CommitHead(g) == EvictOldest(g2);
    }
  }

  /** Pushing a head that is not a tail entry keeps the entries distinct and the occupied
      blocks equal to the tail entries. */
  lemma PushKeepsOccupancy(g: Game)
    requires Ready(g) && g.position !in g.tail
    ensures var r := PushHead(g);
            Distinct(r.tail) && OccupiedIsTail(r) && |r.tail| == |g.tail| + 1
  {
    var r := PushHead(g);
    assert g.position in g.grid && !g.grid[g.position].occupied;
    forall p | p in r.grid
      ensures r.grid[p].occupied <==> p in r.tail
    {
      assert p in r.tail <==> p in g.tail || p == g.position;
    }
  }

  /** Evicting the oldest of distinct entries whose blocks are exactly the occupied ones keeps
      both facts. */
  lemma EvictKeepsOccupancy(g: Game)
    requires WellFormed(g) && g.tail != [] && Distinct(g.tail) && OccupiedIsTail(g)
    ensures var r := EvictOldest(g);
            Distinct(r.tail) && OccupiedIsTail(r) && r.tail == g.tail[1..]
  {
    var r := EvictOldest(g);
    var lastElem := g.tail[0];
    assert lastElem !in r.tail;
    forall p | p in r.grid
      ensures r.grid[p].occupied <==> p in r.tail
    {
      if p != lastElem {
        assert p in g.tail <==> p in r.tail;
      }
    }
  }

  /** The occupancy invariant and the length bound survive a non-colliding tick. */
  lemma AdvanceKeepsInv(g: Game)
    requires Ready(g) && g.position !in g.tail
    ensures Inv(OccupyBoxWithPlayer(g))
  {
    var g1 := EatFruit(g);
    assert HandleBoxContentInteraction(g) == (g1, true);
    assert Ready(g1);
    var g2 := PushHead(g1);
    PushKeepsOccupancy(g1);
    if |g2.tail| > g2.length {
      EvictKeepsOccupancy(g2);
      assert OccupyBoxWithPlayer(g) == EvictOldest(g2);
    } else {
      assert OccupyBoxWithPlayer(g) == g2;
    }
  }

  /** `initGame` on a board with no occupied block starts a valid round. */
  lemma InitEstablishesInv(g: Game)
    requires WellFormed(g)
    requires forall p | p in g.grid :: !g.grid[p].occupied
    ensures Inv(InitGame(g))
  {
    SpawnEstablishesInv(SetFruit(g.(direction := Right, length := 1, tail := [])));
  }

  lemma ResetEstablishesInv(g: Game)
    requires WellFormed(g)
    ensures Inv(ResetGame(g))
  {
    InitEstablishesInv(g.(grid := ClearOccupation(g.grid)));
  }

  /** `occupyBoxWithPlayer` always ends in a valid state, whether the head collided or not. */
  lemma OccupyKeepsInv(g: Game)
    requires Ready(g)
    ensures Inv(OccupyBoxWithPlayer(g))
  {
    if g.position in g.tail {
      var g1 := EatFruit(g);
      assert OccupyBoxWithPlayer(g) == ResetGame(g1);
      ResetEstablishesInv(g1);
    } else {
      AdvanceKeepsInv(g);
    }
  }

  /** Every tick preserves the invariant: the head stays on the board, the tail stays within
      `length`, its entries stay distinct, a block is occupied iff it is a tail entry, and the
      head is the newest entry. */
  lemma TickKeepsInv(g: Game)
    requires Inv(g)
    ensures Inv(MovePlayer(g))
  {
    OccupyKeepsInv(g.(position := MovePosition(g.position, g.direction, g.width, g.height)));
  }

  /** `spawnPlayer` on a board with no occupied block, an empty tail and length 1: the head and
      the whole tail are the spawn cell, and the spawn cell's fruit, if any, is eaten at once. */
  lemma SpawnOnEmptyBoard(h: Game)
    requires WellFormed(h) && h.tail == [] && h.length == 1
    requires forall p | p in h.grid :: !h.grid[p].occupied
    ensures var r := SpawnPlayer(h);
            && r.position == Spawn
            && r.tail == [Spawn]
            && r.direction == h.direction
            && r.changedThisTick == h.changedThisTick
            && r.length == (if h.grid[Spawn].fruit then 2 else 1)
            && (forall p | p in r.grid :: r.grid[p].occupied <==> p == Spawn)
            && (!h.grid[Spawn].fruit ==> forall p | p in r.grid :: r.grid[p].fruit == h.grid[p].fruit)
  {
    var spawned := h.(position := Spawn);
    assert SpawnPlayer(h) == OccupyBoxWithPlayer(spawned);
    assert Spawn in h.grid;
    assert Ready(spawned);
    AdvanceEffect(spawned);
  }

  /** `spawnPlayer` on a board with no occupied block and an empty tail starts a valid round. */
  lemma SpawnEstablishesInv(h: Game)
    requires WellFormed(h) && h.tail == [] && h.length == 1
    requires forall p | p in h.grid :: !h.grid[p].occupied
    ensures Inv(SpawnPlayer(h))
  {
    var spawned := h.(position := Spawn);
    assert SpawnPlayer(h) == OccupyBoxWithPlayer(spawned);
    assert Spawn in h.grid;
    assert Ready(spawned);
    AdvanceKeepsInv(spawned);
  }

  /** `resetGame` is `spawnPlayer` on the cleared board after `initGame`'s settings and its
      fruit: a board with no occupied block, an empty tail and length 1. */
  lemma ResetIsSpawnOnClearedBoard(g: Game)
    requires WellFormed(g)
    ensures var cleared := g.(grid := ClearOccupation(g.grid));
            var placed := SetFruit(cleared.(direction := Right, length := 1, tail := []));
            && WellFormed(placed) && placed.tail == [] && placed.length == 1
            && placed.direction == Right && placed.changedThisTick == g.changedThisTick
            && (forall p | p in placed.grid :: !placed.grid[p].occupied)
            && ResetGame(g) == SpawnPlayer(placed)
  {
    var cleared := g.(grid := ClearOccupation(g.grid));
    assert ResetGame(g) == InitGame(cleared);
  }

  /** `resetGame` starts a new round: head and tail on the spawn cell, direction Right, length 1
      (2 when the first fruit of the round lands on the spawn cell and is eaten at once), and
      no other block occupied. The debounce flag is left as it was. */
  lemma ResetStartsFreshRound(g: Game)
    requires WellFormed(g)
    ensures var r := ResetGame(g);
            var cleared := g.(grid := ClearOccupation(g.grid));
            var placed := SetFruit(cleared.(direction := Right, length := 1, tail := []));
            && r.position == Spawn
            && r.tail == [Spawn]
            && r.direction == Right
            && r.changedThisTick == g.changedThisTick
            && r.length == (if placed.grid[Spawn].fruit then 2 else 1)
            && (forall p | p in r.grid :: r.grid[p].occupied <==> p == Spawn)
  {
    var cleared := g.(grid := ClearOccupation(g.grid));
    var placed := SetFruit(cleared.(direction := Right, length := 1, tail := []));
    ResetIsSpawnOnClearedBoard(g);
    SpawnOnEmptyBoard(placed);
  }

  /** The fruit check on a block that holds fruit: its flag goes off, `length` grows by exactly
      one, and one fruit flag is toggled on the first proposed cell outside the tail. */
  lemma EatFruitEffect(g: Game)
    requires WellFormed(g) && g.position in g.grid && g.grid[g.position].fruit
    ensures var r := EatFruit(g);
            var i := FirstFree(g.draws, g.tail);
            && r.length == g.length + 1
            && r.tail == g.tail
            && r.position == g.position
            && r.draws == (if i < |g.draws| then g.draws[i + 1..] else [])
            && forall q | q in g.grid ::
                 r.grid[q].fruit
                 == ((g.grid[q].fruit != (q == g.position)) != (i < |g.draws| && q == g.draws[i]))
  {
    var p := g.position;
    var eaten := g.(grid := g.grid[p := FruitToggled(g.grid[p])], length := g.length + 1);
    assert EatFruit(g) == SetFruit(eaten);
    forall q | q in g.grid
      ensures eaten.grid[q].fruit == (g.grid[q].fruit != (q == p))
    {
    }
  }

  /** Entering a fruit cell that is not a tail cell: the fruit there is cleared, `length` grows
      by exactly one, one new fruit flag is toggled on the first proposed cell outside the tail
      (before the head is pushed), and the tail grows by the head without eviction. */
  lemma EatingFruit(g: Game, p: Position)
    requires Inv(g) && p == MovePosition(g.position, g.direction, g.width, g.height)
    requires p in g.grid && g.grid[p].fruit && p !in g.tail
    ensures var r := MovePlayer(g);
            var i := FirstFree(g.draws, g.tail);
            && r.position == p
            && r.length == g.length + 1
            && r.tail == g.tail + [p]
            && (i < |g.draws| ==> g.draws[i] !in g.tail)
            && r.draws == (if i < |g.draws| then g.draws[i + 1..] else [])
            && forall q | q in g.grid ::
                 r.grid[q].fruit == ((g.grid[q].fruit != (q == p)) != (i < |g.draws| && q == g.draws[i]))
  {
    var moved := g.(position := p);
    assert Ready(moved);
    assert MovePlayer(g) == OccupyBoxWithPlayer(moved);
    EatFruitEffect(moved);
    AdvanceEffect(moved);
  }

  /** Entering a cell that is neither fruit nor tail: the head is pushed and, when the tail
      would exceed `length`, exactly the oldest entry is evicted; only those two blocks change. */
  lemma PlainStep(g: Game)
    requires Inv(g)
    requires var p := MovePosition(g.position, g.direction, g.width, g.height);
             p in g.grid && !g.grid[p].fruit && p !in g.tail
    ensures var p := MovePosition(g.position, g.direction, g.width, g.height);
            var r := MovePlayer(g);
            var pushed := g.tail + [p];
            && r.position == p
            && r.length == g.length
            && r.draws == g.draws
            && r.tail == (if |pushed| > g.length then pushed[1..] else pushed)
            && r.grid[p] == OccupationToggled(g.grid[p])
            && (|pushed| > g.length ==> r.grid[g.tail[0]] == OccupationToggled(g.grid[g.tail[0]]))
            && forall q | q in g.grid && q != p && q != g.tail[0] :: r.grid[q] == g.grid[q]
  {
    var p := MovePosition(g.position, g.direction, g.width, g.height);
    var moved := g.(position := p);
    assert Ready(moved);
    assert EatFruit(moved) == moved;
    AdvanceEffect(moved);
    TickKeepsInv(g);
  }

  /** Entering any cell of the current tail (the whole tail, the entry about to be evicted
      included) resets the game after the fruit check; nothing is pushed or evicted. */
  lemma SelfCollisionResets(g: Game)
    requires Inv(g)
    requires MovePosition(g.position, g.direction, g.width, g.height) in g.tail
    ensures var moved := g.(position := MovePosition(g.position, g.direction, g.width, g.height));
            && MovePlayer(g) == ResetGame(EatFruit(moved))
            && MovePlayer(g).tail == [Spawn]
            && MovePlayer(g).position == Spawn
  {
    var moved := g.(position := MovePosition(g.position, g.direction, g.width, g.height));
    assert HandleBoxContentInteraction(moved) == (ResetGame(EatFruit(moved)), false);
    ResetStartsFreshRound(EatFruit(moved));
  }

  /** A snake at full length whose head enters the cell its oldest entry is about to leave
      still collides: the collision test runs before the eviction. */
  lemma VacatingCellStillCollides(g: Game)
    requires Inv(g) && |g.tail| == g.length
    requires MovePosition(g.position, g.direction, g.width, g.height) == g.tail[0]
    ensures MovePlayer(g).tail == [Spawn]
  {
    SelfCollisionResets(g);
  }

  // ---------------------------------------------------------------- exactly one fruit

  /** A set with one element is that element's singleton. */
  lemma SingletonSet(s: set<Position>, x: Position)
    requires |s| == 1 && x in s
    ensures s == {x}
  {
    assert |s - {x}| == 0;
  }

  /** When `x` is the only cell holding fruit, the fruit cells are exactly {x}. */
  lemma FruitOnlyAt(g: Game, x: Position)
    requires x in g.grid
    requires forall q | q in g.grid :: g.grid[q].fruit <==> q == x
    ensures FruitCells(g) == {x}
  {
  }

  /** `setFruit` with an empty tail and no fruit on the board puts the only fruit on the first
      proposal and consumes it. */
  lemma PlaceOnEmptyBoard(h: Game)
    requires WellFormed(h) && h.tail == [] && h.draws != []
    requires forall p | p in h.grid :: !h.grid[p].fruit
    ensures var r := SetFruit(h);
            && FruitCells(r) == {h.draws[0]}
            && r.draws == h.draws[1..]
  {
    SetFruitTogglesOneFreeCell(h);
    assert FirstFree(h.draws, h.tail) == 0;
    assert h.draws[0] in h.draws;
    FruitOnlyAt(SetFruit(h), h.draws[0]);
  }

  /** `spawnPlayer` on an empty board whose only fruit is on the spawn cell: the spawn eats it
      and the next fruit goes on the first proposal. */
  lemma SpawnOnFruit(h: Game)
    requires WellFormed(h) && h.tail == [] && h.length == 1 && h.draws != []
    requires forall p | p in h.grid :: !h.grid[p].occupied && (h.grid[p].fruit <==> p == Spawn)
    ensures FruitCells(SpawnPlayer(h)) == {h.draws[0]}
  {
    var spawned := h.(position := Spawn);
    assert SpawnPlayer(h) == OccupyBoxWithPlayer(spawned);
    assert Spawn in h.grid;
    assert Ready(spawned);
    assert FirstFree(spawned.draws, spawned.tail) == 0;
    EatFruitEffect(spawned);
    AdvanceEffect(spawned);
    assert h.draws[0] in h.draws;
    FruitOnlyAt(SpawnPlayer(h), h.draws[0]);
  }

  /** `initGame` on a board with neither an occupied block nor a fruit, given two proposals,
      leaves exactly one fruit cell: the first proposal or, when that is the spawn cell and its
      fruit is eaten at once by the spawn, the second. */
  lemma InitPlacesOneFruit(g: Game)
    requires WellFormed(g) && 2 <= |g.draws|
    requires forall p | p in g.grid :: !g.grid[p].occupied && !g.grid[p].fruit
    ensures FruitCells(InitGame(g)) == {if g.draws[0] == Spawn then g.draws[1] else g.draws[0]}
  {
    var h := g.(direction := Right, length := 1, tail := []);
    var placed := SetFruit(h);
    PlaceOnEmptyBoard(h);
    if g.draws[0] == Spawn {
      SpawnOnFruit(placed);
    } else {
      SpawnKeepsFruitCells(placed);
    }
  }

  /** `spawnPlayer` on an empty board with no fruit on the spawn cell changes no fruit flag. */
  lemma SpawnKeepsFruitCells(h: Game)
    requires WellFormed(h) && h.tail == [] && h.length == 1
    requires forall p | p in h.grid :: !h.grid[p].occupied
    requires !h.grid[Spawn].fruit
    ensures FruitCells(SpawnPlayer(h)) == FruitCells(h)
  {
    SpawnOnEmptyBoard(h);
  }

  /** The first round of a new game has exactly one fruit cell. */
  lemma NewRoundHasOneFruit(width: int, height: int, draws: seq<Position>)
    requires 2 < width && 2 < height && 2 <= |draws|
    requires forall p | p in draws :: 0 <= p.x < width && 0 <= p.y < height
    ensures FruitCells(InitGame(NewGame(width, height, draws)))
         == {if draws[0] == Spawn then draws[1] else draws[0]}
  {
    InitPlacesOneFruit(NewGame(width, height, draws));
  }

  /** `resetGame` clears every fruit, so the new round has exactly one fruit cell whatever the
      old board held. */
  lemma ResetLeavesOneFruit(g: Game)
    requires WellFormed(g) && 2 <= |g.draws|
    ensures FruitCells(ResetGame(g)) == {if g.draws[0] == Spawn then g.draws[1] else g.draws[0]}
  {
    InitPlacesOneFruit(g.(grid := ClearOccupation(g.grid)));
  }

  /** A tick that ends in a reset leaves exactly one fruit cell when two proposals remain after
      the fruit check. Without fruit on the entered cell that asks for no free proposal, so
      the lemma covers the tick after the tail has filled the board. */
  lemma CollisionLeavesOneFruit(g: Game)
    requires Inv(g)
    requires MovePosition(g.position, g.direction, g.width, g.height) in g.tail
    requires 2 <= |g.draws|
    requires var p := MovePosition(g.position, g.direction, g.width, g.height);
             p in g.grid && g.grid[p].fruit ==> FirstFree(g.draws, g.tail) + 2 < |g.draws|
    ensures |FruitCells(MovePlayer(g))| == 1
  {
    var p := MovePosition(g.position, g.direction, g.width, g.height);
    var moved := g.(position := p);
    assert Ready(moved);
    var eaten := EatFruit(moved);
    if g.grid[p].fruit {
      EatFruitEffect(moved);
    }
    ResetLeavesOneFruit(eaten);
    SelfCollisionResets(g);
  }

  /** A tick onto the only fruit, outside the tail, leaves exactly one fruit cell: the first
      proposal outside the tail. */
  lemma EatingKeepsOneFruit(g: Game)
    requires Inv(g) && |FruitCells(g)| == 1
    requires var p := MovePosition(g.position, g.direction, g.width, g.height);
             p in g.grid && g.grid[p].fruit && p !in g.tail
    requires FirstFree(g.draws, g.tail) < |g.draws|
    ensures |FruitCells(MovePlayer(g))| == 1
  {
    var p := MovePosition(g.position, g.direction, g.width, g.height);
    SingletonSet(FruitCells(g), p);
    var i := FirstFree(g.draws, g.tail);
    EatingFruit(g, p);
    assert g.draws[i] in g.draws;
    FruitOnlyAt(MovePlayer(g), g.draws[i]);
  }

  /** A tick onto a cell with neither fruit nor tail changes no fruit flag. */
  lemma PlainStepKeepsFruit(g: Game)
    requires Inv(g)
    requires var p := MovePosition(g.position, g.direction, g.width, g.height);
             p in g.grid && !g.grid[p].fruit && p !in g.tail
    ensures FruitCells(MovePlayer(g)) == FruitCells(g)
  {
    var moved := g.(position := MovePosition(g.position, g.direction, g.width, g.height));
    assert Ready(moved);
    assert EatFruit(moved) == moved;
    AdvanceEffect(moved);
  }

  /** Every tick keeps exactly one fruit cell, given enough proposals for the placements it
      may make: two for a reset, and when the fruit is eaten the first one outside the tail
      and two more. A tick onto a tail cell without fruit, as on a board the tail fills,
      needs no free proposal. */
  lemma TickKeepsOneFruit(g: Game)
    requires Inv(g) && |FruitCells(g)| == 1
    requires 2 <= |g.draws|
    requires var p := MovePosition(g.position, g.direction, g.width, g.height);
             p in g.grid && g.grid[p].fruit ==> FirstFree(g.draws, g.tail) + 2 < |g.draws|
    ensures |FruitCells(MovePlayer(g))| == 1
  {
    var p := MovePosition(g.position, g.direction, g.width, g.height);
    assert p in g.grid;
    if p in g.tail {
      CollisionLeavesOneFruit(g);
    } else if g.grid[p].fruit {
      EatingKeepsOneFruit(g);
    } else {
      PlainStepKeepsFruit(g);
    }
  }

  /** The fruit proposed while eating can be the cell the head is entering, since that cell
      is not yet a tail entry: after the tick the head's block carries fruit. */
  lemma FruitCanLandUnderTheHead(g: Game)
    requires Inv(g)
    requires var p := MovePosition(g.position, g.direction, g.width, g.height);
             p in g.grid && g.grid[p].fruit && p !in g.tail && g.draws != [] && g.draws[0] == p
    ensures var r := MovePlayer(g);
            r.grid[r.position].fruit && r.grid[r.position].occupied
  {
    EatingFruit(g, MovePosition(g.position, g.direction, g.width, g.height));
    TickKeepsInv(g);
  }

  // ---------------------------------------------------------------- scenarios on 20 x 15

  /** Head on (2,2) heading Right, length 1, no fruit on (3,2): one tick later the head is on
      (3,2), that block is occupied and (2,2) is free again. */
  lemma StepRightFromSpawn(g: Game)
    requires Inv(g) && g.width == 20 && g.height == 15
    requires g.position == Position(2, 2) && g.direction == Right && g.length == 1
    requires !g.grid[Position(3, 2)].fruit
    ensures MovePlayer(g).position == Position(3, 2)
    ensures MovePlayer(g).grid[Position(3, 2)].occupied
    ensures !MovePlayer(g).grid[Position(2, 2)].occupied
  {
    assert g.tail == [Position(2, 2)];
    PlainStep(g);
    TickKeepsInv(g);
  }

  /** Head on (19,5) heading Right: the tick wraps it to (0,5). */
  lemma WrapRightOn20By15(g: Game)
    requires Inv(g) && g.width == 20 && g.height == 15
    requires g.position == Position(19, 5) && g.direction == Right
    ensures MovePlayer(g).position == Position(0, 5) || MovePlayer(g).position == Spawn
    ensures Position(0, 5) !in g.tail ==> MovePlayer(g).position == Position(0, 5)
  {
    var p := MovePosition(g.position, g.direction, g.width, g.height);
    assert p == Position(0, 5);
    if p in g.tail {
      SelfCollisionResets(g);
    } else {
      assert Ready(g.(position := p));
      AdvanceEffect(g.(position := p));
    }
  }
}
