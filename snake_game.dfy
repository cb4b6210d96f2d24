/** The `snake-game` element of src/snake-game/snake-game.js: a board of blocks updated in
    place, and the player's fields. Each method that models a method of the component is
    proved to have the effect of the GameModel function of the same name, so the properties
    proved in GameLemmas hold of the object; the three entry points (a tick, a key event, the
    timer's expiry) keep the invariant Valid(). The helpers that flip one block, step the
    head, scan the tail, draw a proposal or clear the blocks state their effect directly. */
module Snake {
  import opened Block
  import opened GameModel
  import GameLemmas

  class SnakeGame {
    const width: int                         // `x`: number of columns
    const height: int                        // `y`: number of rows
    const blockMatrix: seq<seq<SnakeBlock>>  // row-major: blockMatrix[y][x]
    ghost const Repr: set<SnakeBlock>        // every block of the board
    ghost const Where: map<SnakeBlock, Position> // each block's coordinate

    var playerPosition: Position
    var movingDirection: Direction
    var movementChangedThisGameTick: bool
    var playerLength: int
    var playerTail: seq<Position>
    var randomDraws: seq<Position>           // the cells `Math.random` will propose next
    ghost var grid: map<Position, Cell>      // the blocks' flags, by coordinate

    /** The board has the shape `createMap` gives it and no block appears twice. */
    ghost predicate WellFormed()
    {
      && 2 < width && 2 < height
      && |blockMatrix| == height
      && (forall r | 0 <= r < height :: |blockMatrix[r]| == width)
      && Repr == Where.Keys
      && (forall r, c | 0 <= r < height && 0 <= c < width ::
            blockMatrix[r][c] in Where && Where[blockMatrix[r][c]] == Position(c, r))
    }

    /** `m` holds the flags of every block, by coordinate. */
    ghost predicate Mirrors(m: map<Position, Cell>)
      requires WellFormed()
      reads Repr
    {
      && m.Keys == Cells(width, height)
      && forall p | p in m :: m[p] == blockMatrix[p.y][p.x].State()
    }

    /** The whole state as a GameModel value. */
    ghost function Abs(): Game
      reads this
    {
      Game(width, height, grid, playerPosition, movingDirection, movementChangedThisGameTick,
           playerLength, playerTail, randomDraws)
    }

    /** The invariant between events. */
    ghost predicate Valid()
      reads this, Repr
    {
      WellFormed() && Mirrors(grid) && Inv(Abs())
    }

    /** `createMap`: a `height` by `width` matrix of fresh, distinct blocks. */
    static method CreateMap(width: int, height: int)
      returns (matrix: seq<seq<SnakeBlock>>, ghost where: map<SnakeBlock, Position>)
      requires 0 <= width && 0 <= height
      ensures fresh(where.Keys)
      ensures |matrix| == height
      ensures forall r | 0 <= r < height :: |matrix[r]| == width
      ensures forall r, c | 0 <= r < height && 0 <= c < width ::
                matrix[r][c] in where && where[matrix[r][c]] == Position(c, r)
                && matrix[r][c].State() == NewCell
    {
      matrix := [];
      where := map[];
      var i := 0;
      while i < height
        invariant 0 <= i <= height && |matrix| == i
        invariant fresh(where.Keys)
        invariant forall r | 0 <= r < i :: |matrix[r]| == width
        invariant forall r, c | 0 <= r < i && 0 <= c < width ::
                    matrix[r][c] in where && where[matrix[r][c]] == Position(c, r)
                    && matrix[r][c].State() == NewCell
      {
        var row: seq<SnakeBlock> := [];
        var j := 0;
        while j < width
          invariant 0 <= j <= width && |row| == j
          invariant fresh(where.Keys)
          invariant forall c | 0 <= c < j ::
                      row[c] in where && where[row[c]] == Position(c, i) && row[c].State() == NewCell
          invariant forall r, c | 0 <= r < i && 0 <= c < width ::
                      matrix[r][c] in where && where[matrix[r][c]] == Position(c, r)
                      && matrix[r][c].State() == NewCell
        {
          var block := new SnakeBlock();
          where := where[block := Position(j, i)];
          row := row + [block];
          j := j + 1;
        }
        matrix := matrix + [row];
        i := i + 1;
      }
    }

    /** `firstUpdated` without its rendering and timers: `createMap`, then `initGame`. */
    constructor (width: int, height: int, draws: seq<Position>)
      requires 2 < width && 2 < height
      requires forall p | p in draws :: 0 <= p.x < width && 0 <= p.y < height
      ensures Valid() && fresh(Repr)
      ensures Abs() == GameModel.InitGame(NewGame(width, height, draws))
    {
      this.width := width;
      this.height := height;
      var matrix, where := CreateMap(width, height);
      blockMatrix := matrix;
      Repr := where.Keys;
      Where := where;
      playerPosition := Position(0, 0);
      movingDirection := Right;
      movementChangedThisGameTick := false;
      playerLength := 1;
      playerTail := [];
      randomDraws := draws;
      grid := NewGame(width, height, draws).grid;
      new;
      assert Abs() == NewGame(width, height, draws);
      InitGame();
      GameLemmas.InitEstablishesInv(NewGame(width, height, draws));
    }

    /** `blockMatrix[p.y][p.x].toggleOccupation()`. */
    method ToggleOccupationAt(p: Position)
      requires WellFormed() && Mirrors(grid) && 0 <= p.x < width && 0 <= p.y < height
      modifies this, Repr
      ensures Mirrors(grid)
      ensures Abs() == old(Abs()).(grid := old(grid)[p := OccupationToggled(old(grid)[p])])
    {
      var block := blockMatrix[p.y][p.x];
      block.ToggleOccupation();
      grid := grid[p := OccupationToggled(grid[p])];
      assert forall q | q in grid && q != p :: Where[blockMatrix[q.y][q.x]] == q;
    }

    /** `blockMatrix[p.y][p.x].toggleFruit()`. */
    method ToggleFruitAt(p: Position)
      requires WellFormed() && Mirrors(grid) && 0 <= p.x < width && 0 <= p.y < height
      modifies this, Repr
      ensures Mirrors(grid)
      ensures Abs() == old(Abs()).(grid := old(grid)[p := FruitToggled(old(grid)[p])])
    {
      var block := blockMatrix[p.y][p.x];
      block.ToggleFruit();
      grid := grid[p := FruitToggled(grid[p])];
      assert forall q | q in grid && q != p :: Where[blockMatrix[q.y][q.x]] == q;
    }

    // ------------------------------------------------------------ entry points

    /** The `keyup` handler of `handleMovement`, given the arrow's direction. */
    method HandleMovement(newDir: Direction)
      requires Valid()
      modifies this
      ensures Valid()
      ensures Abs() == GameModel.HandleMovement(old(Abs()), newDir)
    {
      if Opposite(movingDirection) != newDir && !movementChangedThisGameTick {
        movementChangedThisGameTick := true;
        movingDirection := newDir;
      }
    }

    /** The one-shot timer started by an accepted direction change fires. */
    method DebounceExpired()
      requires Valid()
      modifies this
      ensures Valid()
      ensures Abs() == GameModel.DebounceExpired(old(Abs()))
    {
      movementChangedThisGameTick := false;
    }

    /** `movePlayer`, the whole of one `handleGameTick`: step the head, then occupy its cell. */
    method MovePlayer()
      requires Valid()
      modifies this, Repr
      ensures Valid()
      ensures Abs() == GameModel.MovePlayer(old(Abs()))
    {
      StepHead();
      OccupyBoxWithPlayer();
      GameLemmas.TickKeepsInv(old(Abs()));
    }

    /** The first half of `movePlayer`: one unit in the moving direction, then the four edge
        tests, in the source's order. */
    method StepHead()
      requires 0 < width && 0 < height
      modifies this
      ensures Abs() == old(Abs()).(position := MovePosition(old(playerPosition), movingDirection, width, height))
    {
      match movingDirection {
        case Up => playerPosition := playerPosition.(y := playerPosition.y - 1);
        case Down => playerPosition := playerPosition.(y := playerPosition.y + 1);
        case Right => playerPosition := playerPosition.(x := playerPosition.x + 1);
        case Left => playerPosition := playerPosition.(x := playerPosition.x - 1);
      }
      if playerPosition.y >= height {
        playerPosition := playerPosition.(y := 0);
      }
      if playerPosition.x >= width {
        playerPosition := playerPosition.(x := 0);
      }
      if playerPosition.y < 0 {
        playerPosition := playerPosition.(y := height - 1);
      }
      if playerPosition.x < 0 {
        playerPosition := playerPosition.(x := width - 1);
      }
    }

    // ------------------------------------------------------------ the steps of a tick

    method OccupyBoxWithPlayer()
      requires WellFormed() && Mirrors(grid)
      requires GameModel.WellFormed(Abs()) && InBounds(Abs(), playerPosition)
      modifies this, Repr
      ensures Mirrors(grid)
      ensures Abs() == GameModel.OccupyBoxWithPlayer(old(Abs()))
      decreases GameModel.Phase(Abs()), 3
    {
      var currentBox := blockMatrix[playerPosition.y][playerPosition.x];
      var continueGame := HandleBoxContentInteraction(currentBox);
      if !continueGame {
        return;
      }
      CommitHead();
    }

    /** The commit of `occupyBoxWithPlayer`, once the content check lets the game go on. */
    method CommitHead()
      requires WellFormed() && Mirrors(grid)
      requires GameModel.WellFormed(Abs()) && InBounds(Abs(), playerPosition)
      modifies this, Repr
      ensures Mirrors(grid)
      ensures Abs() == GameModel.CommitHead(old(Abs()))
    {
      ghost var g1 := Abs();
      ToggleOccupationAt(playerPosition);
      playerTail := playerTail + [playerPosition];
      assert Abs() == PushHead(g1);
      if |playerTail| > playerLength {
        ghost var g2 := Abs();
        var lastElem := playerTail[0];
        assert lastElem in g2.tail;
        playerTail := playerTail[1..];
        ToggleOccupationAt(lastElem);
        assert Abs() == EvictOldest(g2);
      }
    }

    method HandleBoxContentInteraction(currentBox: SnakeBlock) returns (continueGame: bool)
      requires WellFormed() && Mirrors(grid)
      requires GameModel.WellFormed(Abs()) && InBounds(Abs(), playerPosition)
      requires currentBox == blockMatrix[playerPosition.y][playerPosition.x]
      modifies this, Repr
      ensures Mirrors(grid)
      ensures (Abs(), continueGame) == GameModel.HandleBoxContentInteraction(old(Abs()))
      decreases GameModel.Phase(Abs()), 2
    {
      EatFruit(currentBox);
      var collided := IsOccupiedByTail(playerPosition);
      if collided {
        ResetGame();
        return false;
      }
      return true;
    }

    /** The fruit check of `handleBoxContentInteraction`. */
    method EatFruit(currentBox: SnakeBlock)
      requires WellFormed() && Mirrors(grid)
      requires GameModel.WellFormed(Abs()) && InBounds(Abs(), playerPosition)
      requires currentBox == blockMatrix[playerPosition.y][playerPosition.x]
      modifies this, Repr
      ensures Mirrors(grid)
      ensures Abs() == GameModel.EatFruit(old(Abs()))
    {
      assert currentBox.fruit == grid[playerPosition].fruit;
      if currentBox.fruit {
        Grow();
        SetFruit();
      }
    }

    /** Eating: `toggleFruit` on the head's block and one more tail entry allowed. */
    method Grow()
      requires WellFormed() && Mirrors(grid)
      requires GameModel.WellFormed(Abs()) && InBounds(Abs(), playerPosition)
      modifies this, Repr
      ensures Mirrors(grid)
      ensures Abs() == GameModel.Grow(old(Abs()))
    {
      ToggleFruitAt(playerPosition);
      playerLength := playerLength + 1;
    }

    /** `isOccupiedByTail`: whether `coords` is an entry of the whole tail. */
    method IsOccupiedByTail(coords: Position) returns (occupied: bool)
      ensures occupied <==> coords in playerTail
    {
      var tailWithoutCurrent := playerTail[0..|playerTail|];
      occupied := false;
      var i := 0;
      while i < |tailWithoutCurrent|
        invariant 0 <= i <= |tailWithoutCurrent|
        invariant occupied <==> coords in tailWithoutCurrent[..i]
      {
        var box := tailWithoutCurrent[i];
        if box.x == coords.x && box.y == coords.y {
          occupied := true;
        }
        i := i + 1;
      }
      assert tailWithoutCurrent[..i] == playerTail;
    }

    /** `setFruit`: the first proposed cell outside the tail gets its fruit flag toggled. */
    method SetFruit()
      requires WellFormed() && Mirrors(grid) && GameModel.WellFormed(Abs())
      modifies this, Repr
      ensures Mirrors(grid)
      ensures Abs() == GameModel.SetFruit(old(Abs()))
    {
      ghost var draws := randomDraws;
      var candidate, found, rest := DrawFreeCell();
      randomDraws := rest;
      if found {
        assert candidate in draws;
        ToggleFruitAt(candidate);
      }
    }

    /** The retry of `setFruit`, written as a loop: proposals are drawn until one is not a tail
        cell. Returns that proposal, whether there was one, and the proposals left after it. */
    method DrawFreeCell() returns (candidate: Position, found: bool, rest: seq<Position>)
      ensures var i := FirstFree(randomDraws, playerTail);
              && found == (i < |randomDraws|)
              && (found ==> candidate == randomDraws[i] && rest == randomDraws[i + 1..])
              && (!found ==> rest == [])
    {
      rest := randomDraws;
      candidate, found := Position(0, 0), false;
      ghost var k := 0;
      while rest != [] && !found
        invariant 0 <= k <= |randomDraws| && rest == randomDraws[k..]
        invariant !found ==> forall j | 0 <= j < k :: randomDraws[j] in playerTail
        invariant found ==> 0 < k && candidate == randomDraws[k - 1] && candidate !in playerTail
                            && forall j | 0 <= j < k - 1 :: randomDraws[j] in playerTail
        decreases |rest|
      {
        candidate := rest[0];
        rest := rest[1..];
        k := k + 1;
        var occupied := IsOccupiedByTail(candidate);
        found := !occupied;
      }
      ghost var i := FirstFree(randomDraws, playerTail);
      assert found ==> i == k - 1;
      assert !found ==> i == |randomDraws|;
    }

    /** `resetGame`: clear every block's occupation, then start a new round. */
    method ResetGame()
      requires WellFormed() && Mirrors(grid) && GameModel.WellFormed(Abs())
      modifies this, Repr
      ensures Mirrors(grid)
      ensures Abs() == GameModel.ResetGame(old(Abs()))
      decreases 1, 1
    {
      RemoveAllOccupation();
      InitGame();
    }

    /** The nested loops of `resetGame`: `removeOccupation` on every block. */
    method RemoveAllOccupation()
      requires WellFormed() && Mirrors(grid)
      modifies this, Repr
      ensures Mirrors(grid)
      ensures Abs() == old(Abs()).(grid := ClearOccupation(old(grid)))
    {
      RemoveRowsOccupation();
      grid := ClearOccupation(grid);
    }

    /** The outer loop of `resetGame`: every row in turn. */
    method RemoveRowsOccupation()
      requires WellFormed()
      modifies Repr
      ensures forall r, c | 0 <= r < height && 0 <= c < width ::
                blockMatrix[r][c].State() == OccupationRemoved(old(blockMatrix[r][c].State()))
    {
      var i := 0;
      while i < height
        invariant 0 <= i <= height
        invariant forall r, c | 0 <= r < height && 0 <= c < width ::
                    blockMatrix[r][c].State()
                    == if r < i then OccupationRemoved(old(blockMatrix[r][c].State()))
                       else old(blockMatrix[r][c].State())
      {
        RemoveRowOccupation(i);
        i := i + 1;
      }
    }

    /** The inner loop of `resetGame`: `removeOccupation` on every block of row `i`. */
    method RemoveRowOccupation(i: int)
      requires WellFormed() && 0 <= i < height
      modifies Repr
      ensures forall r, c | 0 <= r < height && 0 <= c < width ::
                blockMatrix[r][c].State()
                == if r == i then OccupationRemoved(old(blockMatrix[r][c].State()))
                   else old(blockMatrix[r][c].State())
    {
      var row := blockMatrix[i];
      var j := 0;
      while j < width
        invariant 0 <= j <= width
        invariant forall r, c | 0 <= r < height && 0 <= c < width ::
                    blockMatrix[r][c].State()
                    == if r == i && c < j then OccupationRemoved(old(blockMatrix[r][c].State()))
                       else old(blockMatrix[r][c].State())
      {
        row[j].RemoveOccupation();
        j := j + 1;
      }
    }

    method InitGame()
      requires WellFormed() && Mirrors(grid) && GameModel.WellFormed(Abs())
      modifies this, Repr
      ensures Mirrors(grid)
      ensures Abs() == GameModel.InitGame(old(Abs()))
      decreases 1, 0
    {
      ghost var g0 := Abs().(direction := Right, length := 1, tail := []);
      movingDirection := Right;
      playerLength := 1;
      playerTail := [];
      assert Abs() == g0;
      SetFruit();
      SpawnPlayer();
    }

    method SpawnPlayer()
      requires WellFormed() && Mirrors(grid) && GameModel.WellFormed(Abs())
      modifies this, Repr
      ensures Mirrors(grid)
      ensures Abs() == GameModel.SpawnPlayer(old(Abs()))
      decreases GameModel.Phase(Abs()), 4
    {
      playerPosition := Spawn;
      OccupyBoxWithPlayer();
    }
  }
}
