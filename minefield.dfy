/** The playing field and the game logic: placing the mines, filling in the
    clues, opening and marking tiles, the cascade over zero clues and the
    sweeps that end a game. */
module Minefield {
  import opened Wrappers
  import opened Tiles
  import opened Board

  /** A rowCount x columnCount field. `tiles` holds what each cell is (None
      until generation has put a tile there, like the source's null entries);
      `states` holds each tile's visible state, which only the methods of this
      class change. */
  class Field {
    const rowCount: nat
    const columnCount: nat
    const mineCount: nat
    const tiles: array2<Option<Kind>>
    const states: array2<State>
    var state: GameState

    /** What every cell holding a tile is. */
    ghost function Kinds(): (K: KindMap)
      reads tiles
      ensures forall x: Cell :: x in K <==>
        0 <= x.0 < tiles.Length0 && 0 <= x.1 < tiles.Length1 && tiles[x.0, x.1].Some?
      ensures forall x | x in K :: K[x] == tiles[x.0, x.1].value
    {
      map x | x in Cells(tiles.Length0, tiles.Length1) && tiles[x.0, x.1].Some? :: tiles[x.0, x.1].value
    }

    /** The state of every tile. */
    ghost function States(): (S: StateMap)
      reads states
      ensures S.Keys == Cells(states.Length0, states.Length1)
      ensures forall x | x in S :: S[x] == states[x.0, x.1]
    {
      map x | x in Cells(states.Length0, states.Length1) :: states[x.0, x.1]
    }

    /** The right shape, and a tile in every cell. */
    ghost predicate Complete()
      reads tiles
    {
      && tiles.Length0 == rowCount && tiles.Length1 == columnCount
      && states.Length0 == rowCount && states.Length1 == columnCount
      && forall i, j | 0 <= i < rowCount && 0 <= j < columnCount :: tiles[i, j].Some?
    }

    /** The field is generated: complete, every clue correct, and exactly
        mineCount mines. */
    ghost predicate Valid()
      reads tiles
    {
      && Complete()
      && Generated(Kinds(), rowCount, columnCount)
      && |MineCells(Kinds())| == mineCount
    }

    /** Builds a field whose mines fall where `draws` says: the draws stand
        for the random row and column numbers, and must hit at least
        mineCount distinct cells (the source otherwise loops forever). */
    constructor (rowCount: nat, columnCount: nat, mineCount: nat, draws: seq<Cell>)
      requires forall x | x in draws :: 0 <= x.0 < rowCount && 0 <= x.1 < columnCount
      requires mineCount <= |Drawn(draws)|
      ensures Valid()
      ensures this.rowCount == rowCount && this.columnCount == columnCount && this.mineCount == mineCount
      ensures MineCells(Kinds()) == Placed(draws, mineCount)
      ensures forall x | x in States() :: States()[x] == Closed
      ensures state == Playing
      ensures fresh(tiles) && fresh(states)
    {
      this.rowCount := rowCount;
      this.columnCount := columnCount;
      this.mineCount := mineCount;
      tiles := new Option<Kind>[rowCount, columnCount]((i, j) => None);
      states := new State[rowCount, columnCount]((i, j) => Closed);
      state := Playing;
      new;
      GenerateMines(draws);
      FillWithClues();
      PlacedExact(draws, mineCount);
      assert forall i, j | 0 <= i < rowCount && 0 <= j < columnCount :: states[i, j] == Closed;
    }

    /** Rejection sampling: a draw on an empty cell puts a mine there, a draw
        on a mine is thrown away and another one is taken. */
    method GenerateMines(draws: seq<Cell>)
      requires tiles.Length0 == rowCount && tiles.Length1 == columnCount
      requires forall i, j | 0 <= i < rowCount && 0 <= j < columnCount :: tiles[i, j] == None
      requires forall x | x in draws :: 0 <= x.0 < rowCount && 0 <= x.1 < columnCount
      requires mineCount <= |Drawn(draws)|
      modifies tiles
      ensures forall i, j | 0 <= i < rowCount && 0 <= j < columnCount ::
        tiles[i, j] == None || tiles[i, j] == Some(Mine)
      ensures MineCells(Kinds()) == Placed(draws, mineCount)
    {
      PlacedExact(draws, mineCount);
      assert draws[..|draws|] == draws;
      var i, j := 0, 0;
      ghost var placed: set<Cell> := {};
      while i < mineCount
        invariant 0 <= i <= mineCount && 0 <= j <= |draws|
        invariant placed == Placed(draws[..j], mineCount) && |placed| == i
        invariant forall r, c | 0 <= r < rowCount && 0 <= c < columnCount ::
          tiles[r, c] == if (r, c) in placed then Some(Mine) else None
        decreases |draws| - j
      {
        assert j < |draws|;
        assert draws[j] in draws;
        PlacedNext(draws, mineCount, j);
        var hit := PlaceMine(draws[j], placed);
        if hit {
          placed := placed + {draws[j]};
          i := i + 1;
        }
        j := j + 1;
      }
      PlacedStops(draws, mineCount, j);
      PlacedBounds(draws, mineCount);
      MinesAre(placed);
    }

    /** One draw: a mine goes on the cell x unless one is there already, in
        which case the draw is rejected (the source's i--). */
    method PlaceMine(x: Cell, ghost placed: set<Cell>) returns (hit: bool)
      requires 0 <= x.0 < tiles.Length0 && 0 <= x.1 < tiles.Length1
      requires forall r, c | 0 <= r < tiles.Length0 && 0 <= c < tiles.Length1 ::
        tiles[r, c] == if (r, c) in placed then Some(Mine) else None
      modifies tiles
      ensures hit <==> x !in placed
      ensures forall r, c | 0 <= r < tiles.Length0 && 0 <= c < tiles.Length1 ::
        tiles[r, c] == if (r, c) in placed || (hit && (r, c) == x) then Some(Mine) else None
    {
      hit := tiles[x.0, x.1] == None;
      if hit {
        tiles[x.0, x.1] := Some(Mine);
      }
    }

    /** The mines lie exactly on the cells of P, and every other cell is
        empty. */
    lemma MinesAre(P: set<Cell>)
      requires forall r, c | 0 <= r < tiles.Length0 && 0 <= c < tiles.Length1 ::
        tiles[r, c] == if (r, c) in P then Some(Mine) else None
      requires forall x | x in P :: 0 <= x.0 < tiles.Length0 && 0 <= x.1 < tiles.Length1
      ensures MineCells(Kinds()) == P
    {
      forall x ensures x in MineCells(Kinds()) <==> x in P {
        if 0 <= x.0 < tiles.Length0 && 0 <= x.1 < tiles.Length1 {
          assert tiles[x.0, x.1] == if (x.0, x.1) in P then Some(Mine) else None;
        }
      }
    }

    /** Puts a clue holding the number of adjacent mines in every cell that
        holds no mine. */
    method FillWithClues()
      requires tiles.Length0 == rowCount && tiles.Length1 == columnCount
      requires forall i, j | 0 <= i < rowCount && 0 <= j < columnCount ::
        tiles[i, j] == None || tiles[i, j] == Some(Mine)
      modifies tiles
      ensures forall i, j | 0 <= i < rowCount && 0 <= j < columnCount :: tiles[i, j].Some?
      ensures Generated(Kinds(), rowCount, columnCount)
      ensures MineCells(Kinds()) == old(MineCells(Kinds()))
    {
      ghost var K0 := Kinds();
      for row := 0 to rowCount
        invariant forall i, j | 0 <= i < rowCount && 0 <= j < columnCount ::
          tiles[i, j] == FilledUpTo(K0, i, j, row, 0)
      {
        for column := 0 to columnCount
          invariant forall i, j | 0 <= i < rowCount && 0 <= j < columnCount ::
            tiles[i, j] == FilledUpTo(K0, i, j, row, column)
        {
          if tiles[row, column] != Some(Mine) {
            MinesAsIn(K0);
            var n := CountAdjacentMines(row, column);
            AdjacentMinesSeesOnlyMines(Kinds(), K0, row, column);
            tiles[row, column] := Some(Clue(n));
          }
        }
      }
      MinesAsIn(K0);
      forall x ensures ClueCorrect(Kinds(), x) {
        AdjacentMinesSeesOnlyMines(Kinds(), K0, x.0, x.1);
      }
    }

    /** What cell (i, j) holds while fillWithClues is at (row, column), given
        the mines in K0: cells before (row, column) hold their mine or
        clue, later ones their mine or nothing. */
    ghost function FilledUpTo(K0: KindMap, i: int, j: int, row: int, column: int): Option<Kind> {
      if IsMine(K0, (i, j)) then Some(Mine)
      else if i < row || (i == row && j < column) then Some(Clue(AdjacentMines(K0, i, j)))
      else None
    }

    /** The mines lie where K0 has them. */
    lemma MinesAsIn(K0: KindMap)
      requires forall i, j | 0 <= i < tiles.Length0 && 0 <= j < tiles.Length1 ::
        (tiles[i, j] == Some(Mine) <==> IsMine(K0, (i, j)))
      requires forall x | x in K0 :: 0 <= x.0 < tiles.Length0 && 0 <= x.1 < tiles.Length1
      ensures MineCells(Kinds()) == MineCells(K0)
    {
      forall x ensures x in MineCells(Kinds()) <==> x in MineCells(K0) {
        if 0 <= x.0 < tiles.Length0 && 0 <= x.1 < tiles.Length1 {
          assert tiles[x.0, x.1] == Some(Mine) <==> IsMine(K0, (x.0, x.1));
        }
      }
    }

    /** Counts the mines in the 3 x 3 window around (row, column), skipping
        the cells outside the field. */
    method CountAdjacentMines(row: int, column: int) returns (count: int)
      requires tiles.Length0 == rowCount && tiles.Length1 == columnCount
      ensures count == AdjacentMines(Kinds(), row, column)
    {
      ghost var K := Kinds();
      count := 0;
      for rowOffset := -1 to 2
        invariant count == WindowMines(K, row, column, rowOffset + 1)
      {
        var actRow := row + rowOffset;
        if 0 <= actRow < rowCount {
          for columnOffset := -1 to 2
            invariant count == WindowMines(K, row, column, rowOffset + 1) + RowMines(K, actRow, column, columnOffset + 1)
          {
            var actColumn := column + columnOffset;
            if 0 <= actColumn < columnCount {
              if tiles[actRow, actColumn] == Some(Mine) {
                count := count + 1;
              }
            }
          }
        } else {
          RowMinesOutside(K, actRow, column, 3);
        }
      }
    }

    /** The number of tiles in state s. */
    method CountInState(s: State) returns (n: int)
      requires states.Length0 == rowCount && states.Length1 == columnCount
      ensures n == |CellsIn(States(), s)|
    {
      ghost var S := States();
      n := 0;
      for row := 0 to rowCount
        invariant n == |CellsBefore(S, s, row, 0)|
      {
        for col := 0 to columnCount
          invariant n == |CellsBefore(S, s, row, col)|
        {
          CellsBeforeStep(S, s, row, col);
          if states[row, col] == s {
            n := n + 1;
          }
        }
        CellsBeforeNextRow(S, s, rowCount, columnCount, row);
      }
      CellsBeforeAll(S, s, rowCount, columnCount);
    }

    /** The game is won once the open tiles number rowCount * columnCount -
        mineCount; flags, right or wrong, play no part. */
    method IsSolved() returns (solved: bool)
      requires states.Length0 == rowCount && states.Length1 == columnCount
      ensures solved == WinReached(States(), rowCount, columnCount, mineCount)
    {
      var open := CountInState(Open);
      solved := mineCount == rowCount * columnCount - open;
    }

    /** mineCount less the number of marked tiles; negative when the player
        has marked more tiles than there are mines. */
    method RemainingMineCount() returns (n: int)
      requires states.Length0 == rowCount && states.Length1 == columnCount
      ensures n == mineCount - |CellsIn(States(), Marked)|
    {
      var marked := CountInState(Marked);
      n := mineCount - marked;
    }

    /** The tile at (row, column), or IllegalArgument outside the field. */
    function GetTile(row: int, column: int): (r: Result<Tile>)
      requires Valid()
      reads tiles, states
      ensures r.Success? <==> 0 <= row < rowCount && 0 <= column < columnCount
      ensures r.Success? ==>
        (row, column) in Kinds() && r.value == Tile(Kinds()[(row, column)], States()[(row, column)])
    {
      if 0 <= row < rowCount && 0 <= column < columnCount then
        assert (row, column) in Kinds();
        Success(Tile(tiles[row, column].value, states[row, column]))
      else
        Failure(IllegalArgument)
    }

    /** Sets the state of one tile and of no other. */
    method SetState(row: int, column: int, s: State)
      requires 0 <= row < states.Length0 && 0 <= column < states.Length1
      modifies states
      ensures States() == old(States())[(row, column) := s]
    {
      states[row, column] := s;
    }

    /** The end-of-game sweep for the current game state. */
    method OpenTilesWithMines()
      requires Valid()
      modifies states
      ensures States() ==
        if state == Failed then LossSweep(Kinds(), old(States()))
        else if state == Solved then WinSweep(Kinds(), old(States()))
        else old(States())
    {
      if state == Failed {
        SweepAfterLoss();
      } else if state == Solved {
        SweepAfterWin();
      }
    }

    /** The loss half of openTilesWithMines. */
    method SweepAfterLoss()
      requires Complete()
      modifies states
      ensures States() == LossSweep(Kinds(), old(States()))
    {
      ghost var K, E := Kinds(), States();
      for row := 0 to rowCount
        invariant forall i, j | 0 <= i < rowCount && 0 <= j < columnCount ::
          states[i, j] == if i < row then LossTile(tiles[i, j].value, old(states[i, j])) else old(states[i, j])
      {
        for column := 0 to columnCount
          invariant forall i, j | 0 <= i < rowCount && 0 <= j < columnCount ::
            states[i, j] == if i < row || (i == row && j < column) then LossTile(tiles[i, j].value, old(states[i, j]))
                            else old(states[i, j])
        {
          if tiles[row, column] == Some(Mine) && states[row, column] == Closed {
            states[row, column] := Open;
          }
          if tiles[row, column].Some? && tiles[row, column].value.Clue? && states[row, column] == Marked {
            states[row, column] := WrongMarked;
          }
        }
      }
      assert States() == LossSweep(K, E) by {
        forall x | x in E ensures States()[x] == LossSweep(K, E)[x] {
          assert states[x.0, x.1] == LossTile(tiles[x.0, x.1].value, old(states[x.0, x.1]));
        }
      }
    }

    /** The win half of openTilesWithMines. */
    method SweepAfterWin()
      requires Complete()
      modifies states
      ensures States() == WinSweep(Kinds(), old(States()))
    {
      ghost var K, E := Kinds(), States();
      for row := 0 to rowCount
        invariant forall i, j | 0 <= i < rowCount && 0 <= j < columnCount ::
          states[i, j] == if i < row then WinTile(tiles[i, j].value, old(states[i, j])) else old(states[i, j])
      {
        for column := 0 to columnCount
          invariant forall i, j | 0 <= i < rowCount && 0 <= j < columnCount ::
            states[i, j] == if i < row || (i == row && j < column) then WinTile(tiles[i, j].value, old(states[i, j]))
                            else old(states[i, j])
        {
          if tiles[row, column].Some? && tiles[row, column].value.Clue? && states[row, column] == Closed {
            states[row, column] := Open;
          }
          if tiles[row, column] == Some(Mine) && states[row, column] == Closed {
            states[row, column] := Marked;
          }
        }
      }
      assert States() == WinSweep(K, E) by {
        forall x | x in E ensures States()[x] == WinSweep(K, E)[x] {
          assert states[x.0, x.1] == WinTile(tiles[x.0, x.1].value, old(states[x.0, x.1]));
        }
      }
    }

    /** Opens (row, column). Nothing happens unless the tile is closed. A
        mine loses the game; a clue with no mine around it opens its
        neighbours; then, if enough tiles are open, the game is won. The
        game state is not consulted: a finished game can still be played. */
    method OpenTile(row: int, column: int) returns (outcome: Outcome)
      requires Valid()
      modifies this, states
      ensures outcome == if 0 <= row < rowCount && 0 <= column < columnCount then Pass
                         else Fail(ArrayIndexOutOfBounds)
      ensures States() == AfterOpen(old(Kinds()), old(States()), old(state), rowCount, columnCount, mineCount, (row, column)).0
      ensures state == AfterOpen(old(Kinds()), old(States()), old(state), rowCount, columnCount, mineCount, (row, column)).1
    {
      if !(0 <= row < rowCount && 0 <= column < columnCount) {
        return Fail(ArrayIndexOutOfBounds);
      }
      outcome := Pass;
      ghost var S0 := States();
      if states[row, column] == Closed {
        SetState(row, column, Open);
        if tiles[row, column] == Some(Mine) {
          state := Failed;
          OpenTilesWithMines();
          return;
        }
        OpenClue(row, column, S0);
      }
    }

    /** The rest of opening a closed clue, once it is open: the cascade,
        then the win test and the win sweep. */
    method OpenClue(row: int, column: int, ghost S0: StateMap)
      requires Valid()
      requires 0 <= row < rowCount && 0 <= column < columnCount
      requires (row, column) in S0 && S0[(row, column)] == Closed && IsClue(Kinds(), (row, column))
      requires States() == S0[(row, column) := Open]
      modifies this, states
      ensures States() == AfterOpen(Kinds(), S0, old(state), rowCount, columnCount, mineCount, (row, column)).0
      ensures state == AfterOpen(Kinds(), S0, old(state), rowCount, columnCount, mineCount, (row, column)).1
    {
      Cascade(row, column, S0, Kinds());
      var solved := IsSolved();
      if solved {
        state := Solved;
        OpenTilesWithMines();
      }
    }

    /** Opens the cells the cascade from the clue at (row, column) reaches:
        the cascade runs when no mine lies around that clue. K is what the
        tiles are, which the cascade does not change. */
    method Cascade(row: int, column: int, ghost S0: StateMap, ghost K: KindMap)
      requires Complete() && Kinds() == K && Generated(K, rowCount, columnCount)
      requires 0 <= row < rowCount && 0 <= column < columnCount
      requires (row, column) in S0 && S0[(row, column)] == Closed && IsClue(K, (row, column))
      requires States() == S0[(row, column) := Open]
      modifies states
      ensures States() == AfterCascade(K, S0, (row, column))
    {
      ghost var p0 := (row, column);
      ReachableStart(K, S0, p0);
      var n := CountAdjacentMines(row, column);
      assert ClueCorrect(K, p0);
      if n == 0 {
        assert IsZero(K, p0);
        OpenAdjacentTiles(row, column, S0, p0, K);
      } else {
        assert !IsZero(K, p0);
      }
      CascadeExact(K, S0, p0, States());
    }

    /** The cascade from the open zero clue (row, column): every closed clue
        around it is opened, and the cascade goes on from each of them that
        is a zero clue. S0 and p0 are the states and the cell of the move
        that started it. */
    method OpenAdjacentTiles(row: int, column: int, ghost S0: StateMap, ghost p0: Cell, ghost K: KindMap)
      requires Complete() && Kinds() == K && Generated(K, rowCount, columnCount)
      requires 0 <= row < rowCount && 0 <= column < columnCount
      requires IsZero(K, (row, column)) && Reachable(K, S0, p0, (row, column))
      requires States()[(row, column)] == Open
      requires WithinReach(K, S0, p0, States())
      modifies states
      ensures WithinReach(K, S0, p0, States())
      ensures OnlyOpens(old(States()), States())
      ensures Settled(K, States(), (row, column))
      ensures OpenedZerosSettled(K, old(States()), States())
      decreases CellsIn(States(), Closed), 1
    {
      ghost var E, z := States(), (row, column);
      for rowOffset := -1 to 2
        invariant WithinReach(K, S0, p0, States()) && OnlyOpens(E, States()) && OpenedZerosSettled(K, E, States())
        invariant SettledUpTo(K, States(), z, 3 * (rowOffset + 1))
      {
        var actRow := row + rowOffset;
        for columnOffset := -1 to 2
          invariant WithinReach(K, S0, p0, States()) && OnlyOpens(E, States()) && OpenedZerosSettled(K, E, States())
            invariant SettledUpTo(K, States(), z, 3 * (rowOffset + 1) + columnOffset + 1)
        {
          var actColumn := column + columnOffset;
          ghost var T := States();
          OpeningKeepsClosed(E, T);
          OpenNeighbour(row, column, actRow, actColumn, S0, p0, K);
          OpenedZerosCompose(K, E, T, States());
          SettledUpToStep(K, T, States(), z, (actRow, actColumn));
        }
      }
    }

    /** One step of the cascade's loop: the neighbour (actRow, actColumn) of
        the zero clue (row, column) is opened if it is a closed clue, and the
        cascade goes on from it if it is a zero clue itself. */
    method OpenNeighbour(row: int, column: int, actRow: int, actColumn: int,
                         ghost S0: StateMap, ghost p0: Cell, ghost K: KindMap)
      requires Complete() && Kinds() == K && Generated(K, rowCount, columnCount)
      requires IsZero(K, (row, column)) && Reachable(K, S0, p0, (row, column))
      requires Adjacent((row, column), (actRow, actColumn))
      requires WithinReach(K, S0, p0, States())
      modifies states
      ensures WithinReach(K, S0, p0, States())
      ensures OnlyOpens(old(States()), States())
      ensures OpenedZerosSettled(K, old(States()), States())
      ensures IsClue(K, (actRow, actColumn)) ==> States()[(actRow, actColumn)] != Closed
      decreases CellsIn(States(), Closed), 0
    {
      if 0 <= actRow < rowCount && 0 <= actColumn < columnCount {
        if tiles[actRow, actColumn].Some? && tiles[actRow, actColumn].value.Clue? && states[actRow, actColumn] == Closed {
          ghost var y, T1 := (actRow, actColumn), States();
          OpenNextToZero(K, S0, p0, T1, (row, column), y);
          SetState(actRow, actColumn, Open);
          assert Kinds() == K && States() == T1[y := Open];
          var n := CountAdjacentMines(actRow, actColumn);
          assert ClueCorrect(K, y);
          if n == 0 {
            OpenAdjacentTiles(actRow, actColumn, S0, p0, K);
            CascadeFromOpened(K, T1, y, States());
          }
        }
      }
    }

    /** Moves (row, column) one step along CLOSED, MARKED, QUEST, CLOSED;
        open and wrongly marked tiles stay as they are. */
    method MarkTile(row: int, column: int) returns (outcome: Outcome)
      requires Valid()
      modifies states
      ensures outcome == if 0 <= row < rowCount && 0 <= column < columnCount then Pass
                         else Fail(ArrayIndexOutOfBounds)
      ensures States() == AfterMark(old(States()), (row, column))
    {
      if !(0 <= row < rowCount && 0 <= column < columnCount) {
        return Fail(ArrayIndexOutOfBounds);
      }
      outcome := Pass;
      if states[row, column] == Closed {
        SetState(row, column, Marked);
      } else if states[row, column] == Marked {
        SetState(row, column, Quest);
      } else if states[row, column] == Quest {
        SetState(row, column, Closed);
      } else {
        assert old(States())[(row, column) := states[row, column]] == old(States());
      }
    }
  }
}
