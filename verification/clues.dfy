/** Clues and finesse candidates. */
module Clues {

  /** The two kinds of hint. */
  datatype HintType = Rank | Color

  /** The meaning a clue is resolved to; `Unset` until interpreted. */
  datatype Classification = Unset | PlayClue | SaveClue | TrashClue

  /** One hint event, together with the classification it was given. */
  datatype Clue = Clue(
    hintType: HintType,
    hintValue: int,           // a rank, or a suit index for colour clues
    giver: int,
    receiver: int,
    turn: int,
    classification: Classification,
    touchedOrders: seq<int>)

  /** A hypothesised identity attached to a card. */
  datatype Finesse = Finesse(rank: int, suit: int)
}
