/** Moves a player can make, and the draw event. */
module Actions {
  import opened Clues
  import opened Cards

  /** One action. The kind of a clue action (colour or rank) is its clue's hint type. */
  datatype Action =
    | Play(player: int, card: Card, boom: bool)
    | Discard(player: int, card: Card)
    | GiveClue(player: int, clue: Clue)
    | Draw(player: int, card: Card)

  /** An action with the score the search gave it. */
  datatype Scored = Scored(action: Action, score: int)
}
