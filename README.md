# Minesweeper engine in Dafny

This project models the game engine of the Minesweeper program: the playing
field (`Field`), its tiles and their states (`Tile`, `Clue`), the game
settings (`Settings`) and the in-memory best-times list (`BestTimes`). It
proves what the engine promises: where mines are placed, what each clue
counts, what opening and marking a tile do, what the cascade opens, and when
a game is won or lost.

- `wrappers.dfy` (module `Wrappers`): `Option`, and `Result`/`Outcome` for
  the Java exceptions the engine throws on bad coordinates.
- `tiles.dfy` (module `Tiles`): the five tile states of `Tile.State`, a
  tile's kind (`Mine`, or `Clue(value)` — `Clue.getValue` is the field
  `value`), the game state, and the marking cycle.
- `board.dfy` (module `Board`): the field as values. These are maps from
  cells to kinds and from cells to states, plus the functions the class is
  proved against:
  - the mine count around a cell;
  - mine placement from a sequence of draws;
  - the cascade, defined as the cells reachable from the opened clue
    through closed zero clues;
  - the two end-of-game sweeps, the win test, and the effect of one open
    and of one mark.
- `minefield.dfy` (module `Minefield`): `class Field` with two
  `array2`s updated in place. `tiles` holds each cell's kind, with `None`
  standing for the source's `null` before generation. `states` holds each
  tile's state, which is what `Tile.setState` changes. Every method is
  proved against the functions of `Board`. The cascade is the
  mutually recursive pair `OpenAdjacentTiles`/`OpenNeighbour`, following
  the source's recursion. It is proved to open exactly the cells reachable
  from the opened clue.
- `rules.dfy` (module `GameRules`): lemmas about the moves. They cover
  when the game is won, what the sweeps leave, the counts, and that a game
  in play never shows a mine.
- `settings.dfy` (module `GameSettings`): the settings and their presets,
  the level name, `equals` and `hashCode`.
- `best_times.dfy` (module `BestTimesList`): `PlayerTime`, its
  `compareTo`, and `addPlayerTime`'s append-then-sort. `Collections.sort`
  is modelled as a stable insertion sort and proved sorted, a permutation
  and stable.

Behaviour of the code that a reader might not expect, and that the model
keeps:

- `openTile` and `markTile` never look at the game state. A lost or won
  field can still be opened and marked (`GameRules.OpenIgnoresGameState`).
- The win sweep marks closed mines only. A mine the player left
  questioned stays questioned, so after a win `getRemainingMineCount` is
  the number of questioned mines, not 0 (`GameRules.RemainingAfterWin`).
- The win test counts open tiles only. Flags, right or wrong, play no part
  (`GameRules.WinReachedIffCluesOpen`).

## Model

| member | source | states |
|---|---|---|
| Tiles.NextMark | src/minesweeper/core/Field.java:124-130 | the marking cycle: CLOSED, MARKED and QUEST each move to another of the three; OPEN and WRONG_MARKED do not move |
| Board.AdjacentMinesCountsMinesAround | src/minesweeper/core/Field.java:253-271 | the window sum clipped to the field equals the number of mines in the 3 x 3 window around the cell |
| Board.AdjacentMinesBound | src/minesweeper/core/Field.java:253-271 | at most 9 mines around any cell, at most 8 around a cell that is not a mine |
| Board.AdjacentMinesSeesOnlyMines | src/minesweeper/core/Field.java:221-229 | the count depends only on where the mines are, so writing clues in any order gives the same values |
| Board.ClueValueInRange | src/minesweeper/core/Field.java:225 | every clue of a generated field holds 0 to 8 |
| Board.PlacedNext | src/minesweeper/core/Field.java:205-213 | one draw places a mine exactly when fewer than n are down and its cell is free; otherwise it changes nothing |
| Board.PlacedBounds | src/minesweeper/core/Field.java:203-215 | at most n mines are placed, each on a drawn cell |
| Board.PlacedAllOrFull | src/minesweeper/core/Field.java:203-215 | either every drawn cell holds a mine or n mines are down |
| Board.PlacedExact | src/minesweeper/core/Field.java:203-215 | when the draws hit at least n distinct cells, exactly n mines are placed |
| Board.PlacedStops | src/minesweeper/core/Field.java:205 | once n mines are down, later draws place nothing |
| Board.ReachableStep | src/minesweeper/core/Field.java:306-313 | a closed clue next to a reachable zero clue is reachable |
| Board.CascadeOpensOnlyClosedClues | src/minesweeper/core/Field.java:300-323 | the cascade only turns closed tiles open, and only closed clues: never a mine, a marked or a questioned tile |
| Board.CascadeIsClosed | src/minesweeper/core/Field.java:300-323 | around every zero clue the cascade opens, no clue is left closed |
| Board.ReachableIsOpened | src/minesweeper/core/Field.java:300-323 | an opening that opens the start and leaves no closed clue around any zero clue it opened has opened every reachable cell |
| Board.CascadeExact | src/minesweeper/core/Field.java:300-323 | an opening of reachable cells only that opens the start and is closed around its zero clues is exactly the cascade |
| GameRules.ClueCount | src/minesweeper/core/Field.java:221-229 | a generated field holds rows * columns - mineCount clues |
| GameRules.WinReachedIffCluesOpen | src/minesweeper/core/Field.java:236-243 | while every mine is hidden, the open-tile count test holds exactly when every clue is open |
| GameRules.LossSweepShows | src/minesweeper/core/Field.java:63-74 | after a loss no mine is closed and no clue is marked; only closed mines and marked clues change |
| GameRules.LossSweepIdempotent | src/minesweeper/core/Field.java:63-74 | the loss sweep run twice is the loss sweep |
| GameRules.WinSweepCloses | src/minesweeper/core/Field.java:75-86 | after a win no tile is closed; only closed tiles change, clues to open and mines to marked |
| GameRules.WinSweepIdempotent | src/minesweeper/core/Field.java:75-86 | the win sweep run twice is the win sweep |
| GameRules.WinSweepMarks | src/minesweeper/core/Field.java:75-86 | with every clue open, the win sweep leaves marked exactly the mines that are not questioned |
| GameRules.RemainingAfterWin | src/minesweeper/core/Field.java:330-332 | after a win the remaining-mine count equals the number of questioned mines |
| GameRules.OpenClueShowsNoMine | src/minesweeper/core/Field.java:95-113 | opening a tile that is not a mine keeps every mine closed, marked or questioned |
| GameRules.OpenMineLoses | src/minesweeper/core/Field.java:97-103 | opening a closed mine fails the game and leaves no mine closed |
| GameRules.OpenOnlyOpens | src/minesweeper/core/Field.java:95-113 | short of a win or a loss, opening only turns closed tiles open and keeps the game state |
| GameRules.OpenIgnoresGameState | src/minesweeper/core/Field.java:95-113 | the tiles after an open do not depend on the game state before it |
| GameRules.MarkThriceRestores | src/minesweeper/core/Field.java:121-131 | marking a tile three times restores the field |
| GameRules.MarkKeepsOpen | src/minesweeper/core/Field.java:121-131 | marking opens and closes nothing open, so it neither wins nor shows a mine |
| GameRules.MarkCountsMarked | src/minesweeper/core/Field.java:121-131 | marking a closed tile adds one marked tile, moving a marked one to QUEST removes one, anything else keeps the count |
| Minefield.Field.constructor | src/minesweeper/core/Field.java:47-54 | the new field is generated with exactly mineCount mines, placed where the draws say; every tile is CLOSED and the game is PLAYING |
| Minefield.Field.GenerateMines | src/minesweeper/core/Field.java:203-215 | the mines lie exactly on the cells rejection sampling places from the draws, and no other tile is set |
| Minefield.Field.PlaceMine | src/minesweeper/core/Field.java:208-212 | a draw on an empty cell puts a mine there; a draw on a mine changes nothing and reports the rejection |
| Minefield.Field.FillWithClues | src/minesweeper/core/Field.java:221-229 | every cell holds a tile afterwards, every clue holds the number of mines around it, and the mines are unchanged |
| Minefield.Field.CountAdjacentMines | src/minesweeper/core/Field.java:253-271 | returns the number of mines in the 3 x 3 window around the cell, clipped to the field |
| Minefield.Field.CountInState | src/minesweeper/core/Field.java:279-292 | returns the number of tiles in the given state |
| Minefield.Field.IsSolved | src/minesweeper/core/Field.java:236-243 | true exactly when the open tiles number rows * columns - mineCount |
| Minefield.Field.RemainingMineCount | src/minesweeper/core/Field.java:330-332 | mineCount less the number of marked tiles |
| Minefield.Field.GetTile | src/minesweeper/core/Field.java:176-182 | the tile's kind and state inside the field, IllegalArgument outside it |
| Minefield.Field.SetState | src/minesweeper/core/Tile.java:56-58 | the one tile takes the new state and no other tile changes |
| Minefield.Field.OpenTilesWithMines | src/minesweeper/core/Field.java:62-87 | runs the loss sweep after a loss, the win sweep after a win, and changes nothing otherwise |
| Minefield.Field.SweepAfterLoss | src/minesweeper/core/Field.java:63-74 | the new states are the loss sweep of the old ones |
| Minefield.Field.SweepAfterWin | src/minesweeper/core/Field.java:75-86 | the new states are the win sweep of the old ones |
| Minefield.Field.OpenTile | src/minesweeper/core/Field.java:95-113 | ArrayIndexOutOfBounds outside the field; inside, the new states and game state are those of one open move: nothing unless closed, a mine loses with the loss sweep, a clue cascades and then wins with the win sweep if enough tiles are open |
| Minefield.Field.OpenClue | src/minesweeper/core/Field.java:104-111 | after a closed clue is opened: the cascade, then the win test and the win sweep |
| Minefield.Field.Cascade | src/minesweeper/core/Field.java:104-106 | the states after opening a clue are exactly the cascade from it |
| Minefield.Field.OpenAdjacentTiles | src/minesweeper/core/Field.java:300-323 | opens only cells reachable from the start and only closed ones, leaves no clue closed around the zero clue, and settles every zero clue it opens |
| Minefield.Field.OpenNeighbour | src/minesweeper/core/Field.java:305-318 | a closed clue neighbour ends up open, and the cascade goes on from it when it is a zero clue |
| Minefield.Field.MarkTile | src/minesweeper/core/Field.java:121-131 | ArrayIndexOutOfBounds outside the field; inside, the tile moves one step along the marking cycle |
| GameSettings.Settings.constructor | src/minesweeper/Settings.java:55-61 | the fields are the arguments and the level quotient is rows * columns |
| GameSettings.LevelNameAsWritten | src/minesweeper/Settings.java:68-85 | BEGINNER below 100 cells, INTERMEDIATE strictly between 100 and 400, EXPERT above 400, and no name at exactly 100 or 400 |
| GameSettings.Settings.GetLevelName | src/minesweeper/Settings.java:68-85 | returns the level name for the quotient and stores a name it finds in levelName |
| GameSettings.LevelNameGaps | src/minesweeper/Settings.java:68-85 | a 10 x 10 and a 20 x 20 field have no level name |
| GameSettings.LevelName | src/minesweeper/Settings.java:68-85 | corrected level name: always one of the three names, agrees with the code wherever the code gives one, 100 cells is INTERMEDIATE and 400 is EXPERT |
| GameSettings.LevelNameMonotone | src/minesweeper/Settings.java:68-85 | a larger field never gets an easier level name |
| GameSettings.PresetLevelNames | src/minesweeper/Settings.java:33-41 | each preset is classified under its own name |
| GameSettings.Equals | src/minesweeper/Settings.java:120-134 | true exactly when rows, columns and mines all agree |
| GameSettings.EqualsIsEquivalence | src/minesweeper/Settings.java:120-134 | equality is reflexive, symmetric and transitive |
| GameSettings.EqualsHashCode | src/minesweeper/Settings.java:142-144 | equal settings have equal hash codes |
| GameSettings.PresetsDiffer | src/minesweeper/Settings.java:33-41 | the three presets differ from each other, with hash codes 810, 10240 and 47520 |
| BestTimesList.CompareTo | src/minesweeper/BestTimes.java:245-255 | -1, 0 or 1 exactly as the first time is less than, equal to or greater than the second |
| BestTimesList.CompareToOrder | src/minesweeper/BestTimes.java:245-255 | the comparison is antisymmetric, transitive and total |
| BestTimesList.SortedByCompareTo | src/minesweeper/BestTimes.java:245-255 | sorted by time is sorted by compareTo |
| BestTimesList.InsertPermutes | src/minesweeper/BestTimes.java:44 | insertion adds the new entry and nothing else |
| BestTimesList.InsertSorted | src/minesweeper/BestTimes.java:44 | insertion into a sorted list keeps it sorted |
| BestTimesList.SortByTimeSorts | src/minesweeper/BestTimes.java:44 | the sort leaves the list sorted by time and a permutation of the input |
| BestTimesList.InsertAfterEqual | src/minesweeper/BestTimes.java:44 | insertion puts the new entry after every entry with the same time |
| BestTimesList.SortByTimeStable | src/minesweeper/BestTimes.java:44 | the sort keeps the order of the entries of every time, as a stable sort does |
| BestTimesList.SortSortedIsIdentity | src/minesweeper/BestTimes.java:44 | sorting a sorted list leaves it unchanged |
| BestTimesList.AddToSorted | src/minesweeper/BestTimes.java:42-44 | appending to a sorted list and sorting puts the new time after every time not greater than it |
| BestTimesList.BestTimes.constructor | src/minesweeper/BestTimes.java:22 | a new best-times list is empty |
| BestTimesList.BestTimes.AddPlayerTime | src/minesweeper/BestTimes.java:42-44 | the list becomes the stable sort by time of the old list with the new entry appended |

## Left out

- Minesweeper.java, the console and Swing interfaces, DatabaseSetting and UserInterface are not part of this model.
- BestTimes.insertToDB and the JDBC code it calls, with its SQLException: database I/O.
- BestTimes.iterator: it hands out the list itself, which the model keeps as the field `playerTimes`.
- PlayerTime.getLevel: it reads the level name of the program-wide settings object, not the entry; `getName` and `getTime` are the datatype's fields.
- Settings.save and Settings.load: Java serialisation to a file.
- Minefield.Field.constructor: the random row and column numbers become the parameter `draws`, so the uniformity of `java.util.Random` is not modelled. The constructor requires the draws to hit at least mineCount distinct cells. With more mines than cells the source loops forever, and that non-termination is not modelled.
- Field.stateCount, the scratch field getNumberOfOpen counts into, is not kept; CountInState returns the count.
- Tile objects are modelled as two arrays, the kinds and the states. GetTile returns a snapshot of one tile, not a shared object, so aliasing through getTile and getTiles is not modelled.
- The StackOverflowError caught in openAdjacentTiles (Field.java:310-317): the model's recursion has no depth limit.
- Java's 32-bit `int`: counts, the level quotient and the hash code are unbounded integers, so overflow is not modelled.
- GameSettings.Equals: it compares two settings values; the ClassCastException or NullPointerException the source's cast throws on another kind of argument is not modelled.
- Minefield.Field.OpenTile and Minefield.Field.MarkTile: they require a generated field (`Valid()`), which every constructed field is.

## Findings

| source | as written | input that shows it | evidently intended | confidence | as-written member | corrected member |
|---|---|---|---|---|---|---|
| src/minesweeper/Settings.java:69-84 | BEGINNER below 100 cells, INTERMEDIATE only strictly between 100 and 400, EXPERT only above 400, null otherwise | a 10 x 10 field (100 cells) or a 20 x 20 field (400 cells) gets null | every field size has a level name: 100 cells INTERMEDIATE, 400 cells EXPERT | medium, not executed | GameSettings.LevelNameGaps | GameSettings.LevelName |
