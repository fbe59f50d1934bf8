/** Game constants of the standard (no-variant) Hanabi table. */
module Constants {

  /** Highest rank of a card. */
  const MaxRank: int := 5

  /** Clue tokens at the start of a game, and the most that can be held. */
  const MaxClueNum: int := 8

  /** Misplays the team may survive, minus one. */
  const MaxBoomNum: int := 3

  /** Suits of the standard deck; the client and the game tracker hard-code it. */
  const StandardSuits: int := 5

  /** Suit index of a black colour clue, which the convention engine ignores. */
  const BlackColor: int := 5

  /** Marker for an unknown rank, suit or finesse field. */
  const Unknown: int := -1

  /** Printed copies of one card: three 1s, two each of 2 to 4, one 5. */
  function CopiesOf(suit: int, rank: int): (n: nat)
    ensures 1 <= rank <= MaxRank <==> n > 0
    ensures rank == MaxRank ==> n == 1
  {
    if rank == 1 then 3
    else if 2 <= rank <= 4 then 2
    else if rank == 5 then 1
    else 0
  }

  /** Cards of one suit in the deck. */
  function CardsPerSuit(): nat {
    CopiesOf(0, 1) + CopiesOf(0, 2) + CopiesOf(0, 3) + CopiesOf(0, 4) + CopiesOf(0, 5)
  }

  /** Python list indexing: a negative index counts from the end. */
  function PySlot(i: int, n: int): (k: int)
    requires -n <= i < n
    ensures 0 <= k < n
    ensures i >= 0 ==> k == i
  {
    if i < 0 then i + n else i
  }
}
