/** The per-card belief record and the only ways it is updated. */
module Cards {
  import opened Constants
  import opened Clues

  /** What a player is believed to know about one of their cards. */
  datatype Status =
    | Unspecified
    | Useful
    | CluedSaved
    | DirectFinessed
    | IndirectFinessed
    | GoodTouchSaved
    | PlayableKnownByPlayer
    | TrashKnownByPlayer

  /** One card in a hand or a pile; `rank` and `suit` are `Unknown` (-1) until known. */
  datatype Card = Card(
    order: int,
    rank: int,
    suit: int,
    clues: seq<Clue>,
    finesseColor: int,
    finesseRank: int,
    negativeColors: seq<int>,
    negativeRanks: seq<int>,
    status: Status,
    finesses: seq<Finesse>)

  /** A freshly drawn card: no clues, no negative information, status `Unspecified`. */
  function NewCard(order: int, suit: int, rank: int): (c: Card)
    ensures c.order == order && c.suit == suit && c.rank == rank
    ensures c.clues == [] && c.finesses == [] && c.status == Unspecified
    ensures c.negativeColors == [] && c.negativeRanks == []
    ensures c.finesseColor == Unknown && c.finesseRank == Unknown
  {
    Card(order, rank, suit, [], Unknown, Unknown, [], [], Unspecified, [])
  }

  /** Everything about a card except the fields an operation is allowed to touch. */
  predicate SameIdentity(a: Card, b: Card) {
    a.order == b.order && a.rank == b.rank && a.suit == b.suit
    && a.finesseColor == b.finesseColor && a.finesseRank == b.finesseRank
  }

  /** Appends a copy of `clue` to the card's clue history. */
  function AddClue(card: Card, clue: Clue): (r: Card)
    ensures |r.clues| == |card.clues| + 1
    ensures r.clues[..|card.clues|] == card.clues
    ensures r.clues[|card.clues|] == clue
    ensures SameIdentity(r, card) && r.status == card.status && r.finesses == card.finesses
    ensures r.negativeColors == card.negativeColors && r.negativeRanks == card.negativeRanks
  {
    card.(clues := card.clues + [clue])
  }

  /** Records that `clue` did not touch this card: its hinted value is excluded. */
  function AddNegativeInfo(card: Card, clue: Clue): (r: Card)
    ensures SameIdentity(r, card) && r.clues == card.clues
    ensures r.status == card.status && r.finesses == card.finesses
    ensures clue.hintType == Rank ==>
      r.negativeRanks == card.negativeRanks + [clue.hintValue] && r.negativeColors == card.negativeColors
    ensures clue.hintType == Color ==>
      r.negativeColors == card.negativeColors + [clue.hintValue] && r.negativeRanks == card.negativeRanks
  {
    match clue.hintType
    case Rank => card.(negativeRanks := card.negativeRanks + [clue.hintValue])
    case Color => card.(negativeColors := card.negativeColors + [clue.hintValue])
  }

  /** Records that the card cannot be of `suit`. */
  function AddNegativeSuit(card: Card, suit: int): (r: Card)
    ensures SameIdentity(r, card) && r.clues == card.clues
    ensures r.status == card.status && r.finesses == card.finesses
    ensures r.negativeRanks == card.negativeRanks
    ensures r.negativeColors == card.negativeColors + [suit]
  {
    card.(negativeColors := card.negativeColors + [suit])
  }

  /** Attaches a finesse candidate without confirming it. */
  function AddFinesse(card: Card, f: Finesse): (r: Card)
    ensures SameIdentity(r, card) && r.clues == card.clues && r.status == card.status
    ensures r.negativeColors == card.negativeColors && r.negativeRanks == card.negativeRanks
    ensures r.finesses == card.finesses + [f]
  {
    card.(finesses := card.finesses + [f])
  }

  /** The stored clue keeps the classification it had when it was added, whatever the
      caller later assigns to its own copy. */
  lemma AddClueStoresSnapshot(card: Card, clue: Clue, later: Classification)
    ensures AddClue(card, clue).clues[|card.clues|].classification == clue.classification
    ensures AddClue(card, clue) == AddClue(card, clue.(classification := later)) <==> later == clue.classification
  {
    if AddClue(card, clue) == AddClue(card, clue.(classification := later)) {
      assert AddClue(card, clue).clues[|card.clues|] == AddClue(card, clue.(classification := later)).clues[|card.clues|];
    }
  }
}
