/** What the moves of the game promise, stated over the value-level board:
    when a game is won, what the end-of-game sweeps leave behind, what
    marking does to the counts, and that an ongoing game never shows a mine. */
module GameRules {
  import opened Tiles
  import opened Board

  /** The cells holding a clue. */
  function ClueCells(K: KindMap): set<Cell> {
    set x | x in K && K[x].Clue?
  }

  /** Every mine is closed, marked or questioned: true of every game that
      has not been lost. */
  ghost predicate MinesHidden(K: KindMap, S: StateMap) {
    forall x | x in S && IsMine(K, x) :: S[x] in {Closed, Marked, Quest}
  }

  /** Every clue is open. */
  ghost predicate AllCluesOpen(K: KindMap, S: StateMap) {
    forall x | x in S && IsClue(K, x) :: S[x] == Open
  }

  /** A generated field has rows * cols - mineCount clues. */
  lemma ClueCount(K: KindMap, rows: nat, cols: nat, mineCount: int)
    requires Generated(K, rows, cols) && |MineCells(K)| == mineCount
    ensures |ClueCells(K)| == rows * cols - mineCount
  {
    CellsCount(rows, cols);
    var M, C := MineCells(K), ClueCells(K);
    assert Cells(rows, cols) == M + C by {
      forall x | x in Cells(rows, cols) ensures x in M + C {
        assert x in K;
      }
    }
    assert M * C == {};
    assert |M + C| == |M| + |C|;
  }

  /** The win test counts open tiles only, yet while every mine is hidden
      it holds exactly when every clue is open. */
  lemma WinReachedIffCluesOpen(K: KindMap, S: StateMap, rows: nat, cols: nat, mineCount: int)
    requires Generated(K, rows, cols) && |MineCells(K)| == mineCount
    requires S.Keys == Cells(rows, cols) && MinesHidden(K, S)
    ensures WinReached(S, rows, cols, mineCount) <==> AllCluesOpen(K, S)
  {
    ClueCount(K, rows, cols, mineCount);
    var O, C := CellsIn(S, Open), ClueCells(K);
    assert O <= C by {
      forall x | x in O ensures x in C {
        assert x in K;
      }
    }
    if AllCluesOpen(K, S) {
      assert C <= O;
      assert O == C;
    } else {
      var x :| x in S && IsClue(K, x) && S[x] != Open;
      assert x in C - O;
      assert |C| == |O| + |C - O| by {
        assert C == O + (C - O);
        assert O * (C - O) == {};
      }
    }
  }

  /** The loss sweep shows every hidden mine, flags every wrongly marked
      clue, and changes nothing else. */
  lemma LossSweepShows(K: KindMap, S: StateMap)
    ensures forall x | x in S && IsMine(K, x) :: LossSweep(K, S)[x] != Closed
    ensures forall x | x in S && IsClue(K, x) :: LossSweep(K, S)[x] != Marked
    ensures forall x | x in S && LossSweep(K, S)[x] != S[x] ::
      (IsMine(K, x) && S[x] == Closed && LossSweep(K, S)[x] == Open) ||
      (IsClue(K, x) && S[x] == Marked && LossSweep(K, S)[x] == WrongMarked)
  {
  }

  /** Running the loss sweep twice is running it once. */
  lemma LossSweepIdempotent(K: KindMap, S: StateMap)
    ensures LossSweep(K, LossSweep(K, S)) == LossSweep(K, S)
  {
    var L := LossSweep(K, S);
    forall x | x in L ensures LossSweep(K, L)[x] == L[x] {
    }
  }

  /** The win sweep leaves no tile closed: closed clues open, closed mines
      are marked, and nothing else changes. */
  lemma WinSweepCloses(K: KindMap, S: StateMap)
    requires S.Keys <= K.Keys
    ensures forall x | x in S :: WinSweep(K, S)[x] != Closed
    ensures forall x | x in S && WinSweep(K, S)[x] != S[x] ::
      S[x] == Closed && WinSweep(K, S)[x] == (if IsMine(K, x) then Marked else Open)
  {
  }

  /** Running the win sweep twice is running it once. */
  lemma WinSweepIdempotent(K: KindMap, S: StateMap)
    ensures WinSweep(K, WinSweep(K, S)) == WinSweep(K, S)
  {
    var W := WinSweep(K, S);
    forall x | x in W ensures WinSweep(K, W)[x] == W[x] {
    }
  }

  /** The mines in state QUEST. */
  function QuestMines(K: KindMap, S: StateMap): set<Cell> {
    set x | x in S && IsMine(K, x) && S[x] == Quest
  }

  /** After a win the remaining-mine count is the number of mines left
      questioned, not zero: the win sweep marks closed mines only. */
  lemma RemainingAfterWin(K: KindMap, T: StateMap, rows: nat, cols: nat, mineCount: int)
    requires Generated(K, rows, cols) && |MineCells(K)| == mineCount
    requires T.Keys == Cells(rows, cols) && MinesHidden(K, T)
    requires WinReached(T, rows, cols, mineCount)
    ensures mineCount - |CellsIn(WinSweep(K, T), Marked)| == |QuestMines(K, T)|
  {
    WinReachedIffCluesOpen(K, T, rows, cols, mineCount);
    WinSweepMarks(K, T);
    DifferenceCount(MineCells(K), QuestMines(K, T));
  }

  /** With every clue open and every mine hidden, the win sweep leaves
      marked exactly the mines that are not questioned. */
  lemma WinSweepMarks(K: KindMap, T: StateMap)
    requires T.Keys == K.Keys && MinesHidden(K, T) && AllCluesOpen(K, T)
    ensures CellsIn(WinSweep(K, T), Marked) == MineCells(K) - QuestMines(K, T)
  {
    var W := WinSweep(K, T);
    forall x | x in CellsIn(W, Marked) ensures x in MineCells(K) - QuestMines(K, T) {
      assert x in K;
    }
    forall x | x in MineCells(K) - QuestMines(K, T) ensures x in CellsIn(W, Marked) {
      assert x in T;
    }
  }

  lemma DifferenceCount(M: set<Cell>, Q: set<Cell>)
    requires Q <= M
    ensures |M - Q| == |M| - |Q|
  {
    assert M == (M - Q) + Q && (M - Q) !! Q;
  }

  /** Opening a tile that does not hold a mine shows no mine: the cascade
      opens clues only, and the win sweep marks the mines. */
  lemma OpenClueShowsNoMine(K: KindMap, S: StateMap, g: GameState, rows: int, cols: int, mineCount: int, x: Cell)
    requires MinesHidden(K, S)
    requires !IsMine(K, x)
    ensures MinesHidden(K, AfterOpen(K, S, g, rows, cols, mineCount, x).0)
  {
    if x in S && S[x] == Closed {
      var T := AfterCascade(K, S, x);
      CascadeOpensOnlyClosedClues(K, S, x);
      assert MinesHidden(K, T);
      assert MinesHidden(K, WinSweep(K, T));
    }
  }

  /** Opening a closed mine loses the game and leaves no mine closed. */
  lemma OpenMineLoses(K: KindMap, S: StateMap, g: GameState, rows: int, cols: int, mineCount: int, x: Cell)
    requires x in S && S[x] == Closed && IsMine(K, x)
    ensures AfterOpen(K, S, g, rows, cols, mineCount, x).1 == Failed
    ensures forall y | y in S && IsMine(K, y) :: AfterOpen(K, S, g, rows, cols, mineCount, x).0[y] != Closed
  {
    LossSweepShows(K, S[x := Open]);
  }

  /** Opening a tile only ever turns tiles from closed to open, apart from
      the end-of-game sweeps: each tile is opened at most once. */
  lemma OpenOnlyOpens(K: KindMap, S: StateMap, g: GameState, rows: int, cols: int, mineCount: int, x: Cell)
    requires x in S ==> S[x] == Closed ==> !IsMine(K, x)
    requires !WinReached(AfterCascade(K, S, x), rows, cols, mineCount)
    ensures OnlyOpens(S, AfterOpen(K, S, g, rows, cols, mineCount, x).0)
    ensures AfterOpen(K, S, g, rows, cols, mineCount, x).1 == g
  {
    if x in S && S[x] == Closed {
      CascadeOpensOnlyClosedClues(K, S, x);
    }
  }

  /** The engine never looks at the game state: a lost or won game is
      opened exactly like one in play, only the recorded state differs. */
  lemma OpenIgnoresGameState(K: KindMap, S: StateMap, g1: GameState, g2: GameState,
                             rows: int, cols: int, mineCount: int, x: Cell)
    ensures AfterOpen(K, S, g1, rows, cols, mineCount, x).0 == AfterOpen(K, S, g2, rows, cols, mineCount, x).0
  {
  }

  /** Three marks bring the field back to where it was. */
  lemma {:induction false} MarkThriceRestores(S: StateMap, x: Cell)
    ensures AfterMark(AfterMark(AfterMark(S, x), x), x) == S
  {
    if x in S {
      NextMarkCycles(S[x]);
      assert AfterMark(AfterMark(AfterMark(S, x), x), x) == S[x := NextMark(NextMark(NextMark(S[x])))];
    }
  }

  /** Marking opens nothing and closes nothing open, so it can neither win
      nor lose the game. */
  lemma MarkKeepsOpen(K: KindMap, S: StateMap, x: Cell, rows: int, cols: int, mineCount: int)
    ensures CellsIn(AfterMark(S, x), Open) == CellsIn(S, Open)
    ensures WinReached(AfterMark(S, x), rows, cols, mineCount) <==> WinReached(S, rows, cols, mineCount)
    ensures MinesHidden(K, S) ==> MinesHidden(K, AfterMark(S, x))
  {
    assert CellsIn(AfterMark(S, x), Open) == CellsIn(S, Open);
  }

  /** Marking a closed tile takes one from the remaining-mine count,
      questioning a marked tile gives one back, anything else keeps it. */
  lemma MarkCountsMarked(S: StateMap, x: Cell)
    ensures |CellsIn(AfterMark(S, x), Marked)| ==
      |CellsIn(S, Marked)| + (if x in S && S[x] == Closed then 1 else if x in S && S[x] == Marked then -1 else 0)
  {
    var A, B := CellsIn(S, Marked), CellsIn(AfterMark(S, x), Marked);
    if x in S && S[x] == Closed {
      assert B == A + {x};
    } else if x in S && S[x] == Marked {
      assert A == B + {x};
    } else {
      assert A == B;
    }
  }
}
