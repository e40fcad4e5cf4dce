/** The mine field as values: a map from cells to tile kinds and a map from
    cells to tile states. The class Field in module Minefield is proved
    against the functions here; the lemmas here state what those functions
    promise. */
module Board {
  import opened Tiles

  /** (row, column), both counted from 0. */
  type Cell = (int, int)
  type KindMap = map<Cell, Kind>
  type StateMap = map<Cell, State>

  /** Every cell of a rows x cols field. */
  function Cells(rows: int, cols: int): (s: set<Cell>)
    ensures forall x: Cell :: x in s <==> 0 <= x.0 < rows && 0 <= x.1 < cols
  {
    set i, j | 0 <= i < rows && 0 <= j < cols :: (i, j)
  }

  /** The cells of row r with a column below cols. */
  function RowCells(r: int, cols: int): (s: set<Cell>)
    ensures forall x: Cell :: x in s <==> x.0 == r && 0 <= x.1 < cols
  {
    set j | 0 <= j < cols :: (r, j)
  }

  lemma RowCellsNext(r: int, cols: int)
    requires cols > 0
    ensures RowCells(r, cols) == RowCells(r, cols - 1) + {(r, cols - 1)}
    ensures (r, cols - 1) !in RowCells(r, cols - 1)
  {
  }

  lemma {:induction false} RowCellsCount(r: int, cols: nat)
    ensures |RowCells(r, cols)| == cols
  {
    if cols > 0 {
      RowCellsCount(r, cols - 1);
      RowCellsNext(r, cols);
    }
  }

  /** The cells of a field are those above its last row and those of it. */
  lemma CellsLastRow(rows: int, cols: int)
    requires rows > 0
    ensures Cells(rows, cols) == Cells(rows - 1, cols) + RowCells(rows - 1, cols)
    ensures Cells(rows - 1, cols) !! RowCells(rows - 1, cols)
  {
  }

  /** A rows x cols field has rows * cols cells. */
  lemma {:induction false} CellsCount(rows: nat, cols: nat)
    ensures |Cells(rows, cols)| == rows * cols
  {
    if rows > 0 {
      CellsCount(rows - 1, cols);
      RowCellsCount(rows - 1, cols);
      CellsLastRow(rows, cols);
      RowMore(rows, cols);
    }
  }

  lemma RowMore(rows: int, cols: int)
    ensures (rows - 1) * cols + cols == rows * cols
  {
  }

  /** x and y lie in one 3 x 3 window; a cell is adjacent to itself. */
  predicate Adjacent(x: Cell, y: Cell) {
    -1 <= x.0 - y.0 <= 1 && -1 <= x.1 - y.1 <= 1
  }

  predicate IsMine(K: KindMap, x: Cell) {
    x in K && K[x] == Mine
  }

  predicate IsClue(K: KindMap, x: Cell) {
    x in K && K[x].Clue?
  }

  /** A clue with no mine around it: opening it starts the cascade. */
  predicate IsZero(K: KindMap, x: Cell) {
    x in K && K[x] == Clue(0)
  }

  function MineCells(K: KindMap): set<Cell> {
    set x | x in K && K[x] == Mine
  }

  function CellsIn(S: StateMap, s: State): set<Cell> {
    set x | x in S && S[x] == s
  }

  // ---------------------------------------------------------------------
  // Counting the mines around a cell

  function MineAt(K: KindMap, r: int, c: int): nat {
    if IsMine(K, (r, c)) then 1 else 0
  }

  /** Mines among the first k cells of row r from column c - 1 on. */
  function RowMines(K: KindMap, r: int, c: int, k: nat): nat
    requires k <= 3
  {
    if k == 0 then 0 else RowMines(K, r, c, k - 1) + MineAt(K, r, c - 2 + k)
  }

  /** Mines in the first k rows of the 3 x 3 window around (r, c). */
  function WindowMines(K: KindMap, r: int, c: int, k: nat): nat
    requires k <= 3
  {
    if k == 0 then 0 else WindowMines(K, r, c, k - 1) + RowMines(K, r - 2 + k, c, 3)
  }

  /** The number of mines in the 3 x 3 window centred on (r, c), clipped to
      the field (cells outside it are not keys of K). */
  function AdjacentMines(K: KindMap, r: int, c: int): nat {
    WindowMines(K, r, c, 3)
  }

  /** The mines adjacent to (r, c) (the cell itself included), as a set. */
  function MinesAround(K: KindMap, r: int, c: int): set<Cell> {
    set x | x in K && K[x] == Mine && Adjacent(x, (r, c))
  }

  function RowSet(K: KindMap, row: int, c: int, k: int): set<Cell> {
    set x | x in K && K[x] == Mine && x.0 == row && c - 1 <= x.1 < c - 1 + k
  }

  function WindowSet(K: KindMap, r: int, c: int, k: int): set<Cell> {
    set x | x in K && K[x] == Mine && r - 1 <= x.0 < r - 1 + k && c - 1 <= x.1 <= c + 1
  }

  /** Widening the row by one cell adds that cell if it holds a mine. */
  lemma RowSetNext(K: KindMap, row: int, c: int, k: nat)
    requires 1 <= k <= 3
    ensures (row, c - 2 + k) !in RowSet(K, row, c, k - 1)
    ensures RowSet(K, row, c, k) ==
      RowSet(K, row, c, k - 1) + if IsMine(K, (row, c - 2 + k)) then {(row, c - 2 + k)} else {}
  {
  }

  lemma {:induction false} RowSetCount(K: KindMap, row: int, c: int, k: nat)
    requires k <= 3
    ensures |RowSet(K, row, c, k)| == RowMines(K, row, c, k)
  {
    if k == 0 {
      assert RowSet(K, row, c, k) == {};
    } else {
      RowSetCount(K, row, c, k - 1);
      RowSetNext(K, row, c, k);
    }
  }

  /** Widening the window by one row adds that row's mines. */
  lemma WindowSetNext(K: KindMap, r: int, c: int, k: nat)
    requires 1 <= k <= 3
    ensures WindowSet(K, r, c, k) == WindowSet(K, r, c, k - 1) + RowSet(K, r - 2 + k, c, 3)
    ensures WindowSet(K, r, c, k - 1) !! RowSet(K, r - 2 + k, c, 3)
  {
  }

  lemma {:induction false} WindowSetCount(K: KindMap, r: int, c: int, k: nat)
    requires k <= 3
    ensures |WindowSet(K, r, c, k)| == WindowMines(K, r, c, k)
  {
    if k == 0 {
      assert WindowSet(K, r, c, k) == {};
    } else {
      WindowSetCount(K, r, c, k - 1);
      RowSetCount(K, r - 2 + k, c, 3);
      WindowSetNext(K, r, c, k);
    }
  }

  /** The clipped window sum counts exactly the mines adjacent to (r, c). */
  lemma AdjacentMinesCountsMinesAround(K: KindMap, r: int, c: int)
    ensures AdjacentMines(K, r, c) == |MinesAround(K, r, c)|
  {
    WindowSetCount(K, r, c, 3);
    assert MinesAround(K, r, c) == WindowSet(K, r, c, 3);
  }

  lemma {:induction false} RowMinesBound(K: KindMap, r: int, c: int, k: nat)
    requires k <= 3
    ensures RowMines(K, r, c, k) <= k
  {
    if k > 0 {
      RowMinesBound(K, r, c, k - 1);
    }
  }

  /** At most nine mines around a cell, and at most eight around a cell that
      is not a mine itself. */
  lemma AdjacentMinesBound(K: KindMap, r: int, c: int)
    ensures AdjacentMines(K, r, c) <= 9
    ensures !IsMine(K, (r, c)) ==> AdjacentMines(K, r, c) <= 8
  {
    RowMinesBound(K, r - 1, c, 3);
    RowMinesBound(K, r, c, 2);
    RowMinesBound(K, r + 1, c, 3);
    assert RowMines(K, r, c, 1) == MineAt(K, r, c - 1);
    assert RowMines(K, r, c, 2) == MineAt(K, r, c - 1) + MineAt(K, r, c);
    assert RowMines(K, r, c, 3) == RowMines(K, r, c, 2) + MineAt(K, r, c + 1);
    assert WindowMines(K, r, c, 1) == RowMines(K, r - 1, c, 3);
    assert WindowMines(K, r, c, 2) == RowMines(K, r - 1, c, 3) + RowMines(K, r, c, 3);
    assert WindowMines(K, r, c, 3) == WindowMines(K, r, c, 2) + RowMines(K, r + 1, c, 3);
  }

  /** The count depends on where the mines are and on nothing else. */
  lemma AdjacentMinesSeesOnlyMines(K1: KindMap, K2: KindMap, r: int, c: int)
    requires MineCells(K1) == MineCells(K2)
    ensures AdjacentMines(K1, r, c) == AdjacentMines(K2, r, c)
  {
    AdjacentMinesCountsMinesAround(K1, r, c);
    AdjacentMinesCountsMinesAround(K2, r, c);
    assert MinesAround(K1, r, c) == MinesAround(K2, r, c) by {
      forall x ensures x in MinesAround(K1, r, c) <==> x in MinesAround(K2, r, c) {
        assert x in MinesAround(K1, r, c) <==> x in MineCells(K1) && Adjacent(x, (r, c));
        assert x in MinesAround(K2, r, c) <==> x in MineCells(K2) && Adjacent(x, (r, c));
      }
    }
  }

  /** A generated field: every cell holds a tile, and every clue holds the
      number of mines around it. */
  ghost predicate Generated(K: KindMap, rows: int, cols: int) {
    K.Keys == Cells(rows, cols) && forall x :: ClueCorrect(K, x)
  }

  /** A clue at x holds the number of mines around x. */
  predicate ClueCorrect(K: KindMap, x: Cell) {
    x in K && K[x].Clue? ==> K[x].value == AdjacentMines(K, x.0, x.1)
  }

  /** Every clue of a generated field holds a value from 0 to 8. */
  lemma ClueValueInRange(K: KindMap, rows: int, cols: int, x: Cell)
    requires Generated(K, rows, cols)
    requires IsClue(K, x)
    ensures 0 <= K[x].value <= 8
  {
    assert ClueCorrect(K, x);
    AdjacentMinesBound(K, x.0, x.1);
  }

  // ---------------------------------------------------------------------
  // Placing mines by rejection sampling

  function Drawn(draws: seq<Cell>): set<Cell> {
    set x | x in draws
  }

  /** The mines placed after the draws, in order: a draw on a free cell puts
      a mine there; a draw on a mine is rejected; drawing stops once n mines
      are down. */
  function Placed(draws: seq<Cell>, n: nat): set<Cell> {
    if draws == [] then {}
    else
      var m := Placed(draws[..|draws| - 1], n);
      var x := draws[|draws| - 1];
      if |m| < n && x !in m then m + {x} else m
  }

  /** At most n mines, each on a drawn cell. */
  lemma {:induction false} PlacedBounds(draws: seq<Cell>, n: nat)
    ensures |Placed(draws, n)| <= n
    ensures Placed(draws, n) <= Drawn(draws)
  {
    if draws != [] {
      PlacedBounds(draws[..|draws| - 1], n);
      DrawnLast(draws);
    }
  }

  /** One more draw: it places a mine exactly when fewer than n are down and
      its cell is still free. */
  lemma PlacedNext(draws: seq<Cell>, n: nat, j: nat)
    requires j < |draws|
    ensures |Placed(draws[..j], n)| < n && draws[j] !in Placed(draws[..j], n) ==>
      Placed(draws[..j + 1], n) == Placed(draws[..j], n) + {draws[j]}
    ensures |Placed(draws[..j], n)| == n || draws[j] in Placed(draws[..j], n) ==>
      Placed(draws[..j + 1], n) == Placed(draws[..j], n)
  {
    assert draws[..j + 1][..j] == draws[..j];
  }

  lemma DrawnLast(draws: seq<Cell>)
    requires draws != []
    ensures Drawn(draws) == Drawn(draws[..|draws| - 1]) + {draws[|draws| - 1]}
  {
    assert draws == draws[..|draws| - 1] + [draws[|draws| - 1]];
  }

  lemma {:induction false} PlacedAllOrFull(draws: seq<Cell>, n: nat)
    ensures Placed(draws, n) == Drawn(draws) || |Placed(draws, n)| == n
  {
    if draws != [] {
      PlacedAllOrFull(draws[..|draws| - 1], n);
      PlacedBounds(draws[..|draws| - 1], n);
      DrawnLast(draws);
    }
  }

  /** When the draws hit at least n distinct cells, exactly n mines are placed. */
  lemma PlacedExact(draws: seq<Cell>, n: nat)
    requires n <= |Drawn(draws)|
    ensures |Placed(draws, n)| == n
  {
    PlacedAllOrFull(draws, n);
    PlacedBounds(draws, n);
  }

  /** Once n mines are down, later draws place nothing. */
  lemma {:induction false} PlacedStops(draws: seq<Cell>, n: nat, j: nat)
    requires j <= |draws|
    requires |Placed(draws[..j], n)| == n
    ensures Placed(draws, n) == Placed(draws[..j], n)
    decreases |draws| - j
  {
    if j < |draws| {
      assert draws[..j + 1][..j] == draws[..j];
      PlacedStops(draws, n, j + 1);
    } else {
      assert draws[..j] == draws;
    }
  }

  // ---------------------------------------------------------------------
  // The cascade

  predicate ClosedClue(K: KindMap, S: StateMap, x: Cell) {
    IsClue(K, x) && x in S && S[x] == Closed
  }

  /** A chain from p0 through closed zero clues, ending in a closed clue. */
  ghost predicate IsPath(K: KindMap, S: StateMap, p0: Cell, path: seq<Cell>) {
    && |path| > 0
    && path[0] == p0
    && (forall i | 0 <= i < |path| :: ClosedClue(K, S, path[i]))
    && (forall i | 0 <= i < |path| - 1 :: IsZero(K, path[i]) && Adjacent(path[i], path[i + 1]))
  }

  ghost predicate Reachable(K: KindMap, S: StateMap, p0: Cell, x: Cell) {
    exists path :: IsPath(K, S, p0, path) && path[|path| - 1] == x
  }

  /** The states after opening the closed clue p0: exactly the cells
      reachable from p0 are open; nothing else changes. */
  ghost function AfterCascade(K: KindMap, S: StateMap, p0: Cell): StateMap {
    map x | x in S :: if Reachable(K, S, p0, x) then Open else S[x]
  }

  /** T comes from S by turning closed tiles open and nothing else. */
  ghost predicate OnlyOpens(S: StateMap, T: StateMap) {
    S.Keys == T.Keys &&
    forall x | x in S :: T[x] == S[x] || (S[x] == Closed && T[x] == Open)
  }

  /** T comes from S0 by opening cells reachable from p0. */
  ghost predicate WithinReach(K: KindMap, S0: StateMap, p0: Cell, T: StateMap) {
    OnlyOpens(S0, T) &&
    forall x | x in S0 && T[x] != S0[x] :: Reachable(K, S0, p0, x)
  }

  /** No clue around z is still closed. */
  ghost predicate Settled(K: KindMap, T: StateMap, z: Cell) {
    forall y | y in T && IsClue(K, y) && Adjacent(z, y) :: T[y] != Closed
  }

  /** Every zero clue T opened since S has no closed clue around it. */
  ghost predicate OpenedZerosSettled(K: KindMap, S: StateMap, T: StateMap) {
    forall z | z in S && z in T && S[z] == Closed && T[z] == Open && IsZero(K, z) :: Settled(K, T, z)
  }

  lemma ReachableStart(K: KindMap, S: StateMap, p0: Cell)
    requires ClosedClue(K, S, p0)
    ensures Reachable(K, S, p0, p0)
  {
    assert IsPath(K, S, p0, [p0]);
  }

  /** A closed clue next to a reachable zero clue is reachable. */
  lemma ReachableStep(K: KindMap, S: StateMap, p0: Cell, z: Cell, y: Cell)
    requires Reachable(K, S, p0, z) && IsZero(K, z)
    requires ClosedClue(K, S, y) && Adjacent(z, y)
    ensures Reachable(K, S, p0, y)
  {
    var path :| IsPath(K, S, p0, path) && path[|path| - 1] == z;
    var longer := path + [y];
    assert IsPath(K, S, p0, longer);
  }

  /** The cascade opens only closed clues: it never opens a mine, and never
      touches a marked, questioned or open tile. */
  lemma CascadeOpensOnlyClosedClues(K: KindMap, S: StateMap, p0: Cell)
    ensures OnlyOpens(S, AfterCascade(K, S, p0))
    ensures forall x | x in S && AfterCascade(K, S, p0)[x] != S[x] :: ClosedClue(K, S, x)
  {
    var T := AfterCascade(K, S, p0);
    forall x | x in S && Reachable(K, S, p0, x) ensures ClosedClue(K, S, x) {
      var path :| IsPath(K, S, p0, path) && path[|path| - 1] == x;
    }
  }

  /** Closure: around every zero clue the cascade opens, no clue stays
      closed. */
  lemma CascadeIsClosed(K: KindMap, S: StateMap, p0: Cell, z: Cell)
    requires z in S && IsZero(K, z) && Reachable(K, S, p0, z)
    ensures Settled(K, AfterCascade(K, S, p0), z)
  {
    var T := AfterCascade(K, S, p0);
    forall y | y in T && IsClue(K, y) && Adjacent(z, y) ensures T[y] != Closed {
      if S[y] == Closed {
        ReachableStep(K, S, p0, z, y);
      }
    }
  }

  /** Any opening of S that opens p0 and leaves no closed clue around a zero
      clue it opened has opened every cell reachable from p0. */
  lemma {:induction false} ReachableIsOpened(K: KindMap, S: StateMap, p0: Cell, T: StateMap, path: seq<Cell>)
    requires OnlyOpens(S, T)
    requires p0 in T && T[p0] == Open
    requires OpenedZerosSettled(K, S, T)
    requires IsPath(K, S, p0, path)
    ensures T[path[|path| - 1]] == Open
    decreases |path|
  {
    if |path| > 1 {
      var prefix := path[..|path| - 1];
      assert IsPath(K, S, p0, prefix);
      ReachableIsOpened(K, S, p0, T, prefix);
      var z, y := prefix[|prefix| - 1], path[|path| - 1];
      assert ClosedClue(K, S, z) && IsZero(K, z) && Adjacent(z, y);
      assert Settled(K, T, z);
      assert ClosedClue(K, S, y);
    }
  }

  /** The cascade's result is the least such opening: an opening that opens
      only reachable cells, opens p0 and is closed around every zero clue
      it opened is AfterCascade itself. */
  lemma CascadeExact(K: KindMap, S0: StateMap, p0: Cell, T: StateMap)
    requires ClosedClue(K, S0, p0)
    requires WithinReach(K, S0, p0, T)
    requires T[p0] == Open
    requires OpenedZerosSettled(K, S0, T)
    ensures T == AfterCascade(K, S0, p0)
  {
    var R := AfterCascade(K, S0, p0);
    forall x | x in S0 ensures T[x] == R[x] {
      if Reachable(K, S0, p0, x) {
        var path :| IsPath(K, S0, p0, path) && path[|path| - 1] == x;
        ReachableIsOpened(K, S0, p0, T, path);
      }
    }
  }

  /** Opening cells never adds a closed cell. */
  lemma OpeningKeepsClosed(E: StateMap, T: StateMap)
    requires OnlyOpens(E, T)
    ensures CellsIn(T, Closed) <= CellsIn(E, Closed)
  {
  }

  /** Opening cells never adds a closed cell, and opening a closed one
      removes it from the closed cells. */
  lemma OpeningShrinksClosed(E: StateMap, T: StateMap, y: Cell)
    requires OnlyOpens(E, T)
    requires y in E && E[y] == Closed && T[y] == Open
    ensures CellsIn(T, Closed) < CellsIn(E, Closed)
  {
    assert y in CellsIn(E, Closed) && y !in CellsIn(T, Closed);
  }

  /** One step of the cascade: opening a closed clue y next to a reachable
      zero clue z keeps the opening within reach and shrinks the closed
      cells; unless y is a zero clue, no zero clue is left unsettled. */
  lemma OpenNextToZero(K: KindMap, S0: StateMap, p0: Cell, T: StateMap, z: Cell, y: Cell)
    requires WithinReach(K, S0, p0, T)
    requires Reachable(K, S0, p0, z) && IsZero(K, z) && Adjacent(z, y)
    requires IsClue(K, y) && y in T && T[y] == Closed
    ensures WithinReach(K, S0, p0, T[y := Open]) && OnlyOpens(T, T[y := Open])
    ensures Reachable(K, S0, p0, y)
    ensures CellsIn(T[y := Open], Closed) < CellsIn(T, Closed)
    ensures !IsZero(K, y) ==> OpenedZerosSettled(K, T, T[y := Open])
  {
    assert S0[y] == Closed;
    ReachableStep(K, S0, p0, z, y);
    OpeningShrinksClosed(T, T[y := Open], y);
  }

  /** After opening y and then cascading from it, the zero clues opened since
      before y was opened are settled, y included. */
  lemma CascadeFromOpened(K: KindMap, T: StateMap, y: Cell, U: StateMap)
    requires y in T && T[y] == Closed
    requires OnlyOpens(T[y := Open], U) && OpenedZerosSettled(K, T[y := Open], U)
    requires Settled(K, U, y)
    ensures OnlyOpens(T, U) && OpenedZerosSettled(K, T, U)
  {
    var T2 := T[y := Open];
    forall z | z in T && z in U && T[z] == Closed && U[z] == Open && IsZero(K, z)
      ensures Settled(K, U, z)
    {
      if z != y {
        assert T2[z] == Closed;
      }
    }
  }

  /** Opening more cells keeps a settled cell settled. */
  lemma SettledGrows(K: KindMap, T1: StateMap, T2: StateMap, z: Cell)
    requires OnlyOpens(T1, T2) && Settled(K, T1, z)
    ensures Settled(K, T2, z)
  {
  }

  /** Two openings in a row: the zero clues opened by either stay settled. */
  lemma OpenedZerosCompose(K: KindMap, E: StateMap, T: StateMap, U: StateMap)
    requires OnlyOpens(E, T) && OnlyOpens(T, U)
    requires OpenedZerosSettled(K, E, T) && OpenedZerosSettled(K, T, U)
    ensures OnlyOpens(E, U) && OpenedZerosSettled(K, E, U)
  {
    forall z | z in E && E[z] == Closed && U[z] == Open && IsZero(K, z)
      ensures Settled(K, U, z)
    {
      if T[z] == Open {
        SettledGrows(K, T, U, z);
      }
    }
  }

  /** Where y lies in the 3 x 3 window around z, counting row by row from 0
      at the top left corner to 8 at the bottom right. */
  function WindowIndex(z: Cell, y: Cell): int {
    3 * (y.0 - z.0 + 1) + (y.1 - z.1 + 1)
  }

  /** The first k cells of the window around z hold no closed clue. */
  ghost predicate SettledUpTo(K: KindMap, T: StateMap, z: Cell, k: int) {
    forall y | y in T && IsClue(K, y) && Adjacent(z, y) && WindowIndex(z, y) < k :: T[y] != Closed
  }

  /** Settling the next cell of the window, while opening others, settles
      one more cell of it. */
  lemma SettledUpToStep(K: KindMap, T: StateMap, U: StateMap, z: Cell, y: Cell)
    requires SettledUpTo(K, T, z, WindowIndex(z, y)) && OnlyOpens(T, U)
    requires Adjacent(z, y) && (IsClue(K, y) && y in U ==> U[y] != Closed)
    ensures SettledUpTo(K, U, z, WindowIndex(z, y) + 1)
  {
    forall x | x in U && IsClue(K, x) && Adjacent(z, x) && WindowIndex(z, x) < WindowIndex(z, y) + 1
      ensures U[x] != Closed
    {
      if x != y {
        assert WindowIndex(z, x) != WindowIndex(z, y);
      }
    }
  }

  // ---------------------------------------------------------------------
  // Counting tiles in a given state, row by row

  /** The cells in state s that come before (r, c) in row-major order. */
  function CellsBefore(S: StateMap, s: State, r: int, c: int): set<Cell> {
    set x | x in S && S[x] == s && (x.0 < r || (x.0 == r && x.1 < c))
  }

  lemma CellsBeforeNext(S: StateMap, s: State, r: int, c: int)
    requires (r, c) in S
    ensures (r, c) !in CellsBefore(S, s, r, c)
    ensures CellsBefore(S, s, r, c + 1) ==
      CellsBefore(S, s, r, c) + if S[(r, c)] == s then {(r, c)} else {}
  {
  }

  lemma CellsBeforeStep(S: StateMap, s: State, r: int, c: int)
    requires (r, c) in S
    ensures |CellsBefore(S, s, r, c + 1)| == |CellsBefore(S, s, r, c)| + (if S[(r, c)] == s then 1 else 0)
  {
    CellsBeforeNext(S, s, r, c);
  }

  lemma CellsBeforeNextRow(S: StateMap, s: State, rows: int, cols: int, r: int)
    requires S.Keys == Cells(rows, cols)
    ensures CellsBefore(S, s, r, cols) == CellsBefore(S, s, r + 1, 0)
  {
  }

  lemma CellsBeforeAll(S: StateMap, s: State, rows: int, cols: int)
    requires S.Keys == Cells(rows, cols)
    ensures CellsBefore(S, s, rows, 0) == CellsIn(S, s)
  {
  }

  /** A row with no cell of the field holds no mine. */
  lemma {:induction false} RowMinesOutside(K: KindMap, r: int, c: int, k: nat)
    requires k <= 3
    requires forall x | x in K :: x.0 != r
    ensures RowMines(K, r, c, k) == 0
  {
    if k > 0 {
      RowMinesOutside(K, r, c, k - 1);
    }
  }

  // ---------------------------------------------------------------------
  // End-of-game sweeps

  /** After a loss: closed mines are shown, marked clues become wrongly marked. */
  function LossTile(k: Kind, s: State): State {
    if k == Mine && s == Closed then Open
    else if k.Clue? && s == Marked then WrongMarked
    else s
  }

  /** After a win: closed clues open, closed mines get marked. */
  function WinTile(k: Kind, s: State): State {
    if k.Clue? && s == Closed then Open
    else if k == Mine && s == Closed then Marked
    else s
  }

  function LossSweep(K: KindMap, S: StateMap): StateMap {
    map x | x in S :: if x in K then LossTile(K[x], S[x]) else S[x]
  }

  function WinSweep(K: KindMap, S: StateMap): StateMap {
    map x | x in S :: if x in K then WinTile(K[x], S[x]) else S[x]
  }

  /** The win test: the open tiles number rows * cols - mineCount. */
  ghost predicate WinReached(S: StateMap, rows: int, cols: int, mineCount: int) {
    mineCount == rows * cols - |CellsIn(S, Open)|
  }

  // ---------------------------------------------------------------------
  // The two moves

  /** Opening x: nothing unless x is closed; a mine loses the game and runs
      the loss sweep; a clue runs the cascade, then the win test and, on a
      win, the win sweep. Otherwise the game state is kept as it was. */
  ghost function AfterOpen(K: KindMap, S: StateMap, g: GameState, rows: int, cols: int,
                           mineCount: int, x: Cell): (StateMap, GameState)
  {
    if x !in S || S[x] != Closed then (S, g)
    else if IsMine(K, x) then (LossSweep(K, S[x := Open]), Failed)
    else
      var T := AfterCascade(K, S, x);
      if WinReached(T, rows, cols, mineCount) then (WinSweep(K, T), Solved) else (T, g)
  }

  /** Marking x moves it one step along the mark cycle. */
  function AfterMark(S: StateMap, x: Cell): StateMap {
    if x in S then S[x := NextMark(S[x])] else S
  }
}
