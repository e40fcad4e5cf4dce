/** Tiles of the mine field: what a tile is (a mine or a clue), the visible
    state every tile carries, and the game state of a field. */
module Tiles {

  /** The five visible states of a tile (Tile.State). A new tile is Closed. */
  datatype State = Open | Closed | Marked | Quest | WrongMarked

  /** What a tile is: a mine, or a clue holding the number of mines around it.
      The clue value is fixed when the clue is created (Clue.value is final). */
  datatype Kind = Mine | Clue(value: int)

  /** A tile as the engine hands it out: its kind together with its state. */
  datatype Tile = Tile(kind: Kind, state: State)

  /** The game state of a field. */
  datatype GameState = Playing | Failed | Solved

  /** The cycle markTile walks a tile through: CLOSED, MARKED, QUEST, back to
      CLOSED. Open and wrongly marked tiles do not move. */
  function NextMark(s: State): (t: State)
    ensures s in {Closed, Marked, Quest} <==> t in {Closed, Marked, Quest}
    ensures s in {Closed, Marked, Quest} ==> t != s
    ensures s !in {Closed, Marked, Quest} ==> t == s
  {
    match s
    case Closed => Marked
    case Marked => Quest
    case Quest => Closed
    case _ => s
  }

  /** Three clicks bring a tile back to where it was. */
  lemma NextMarkCycles(s: State)
    ensures NextMark(NextMark(NextMark(s))) == s
  {
  }
}
