/** Per-suit, per-rank counting tables built by scanning piles and hands.
    Each table has one row per suit and one column per rank 0..5 (column 0 is unused).
    The source indexes them with a card's suit and rank directly, so a card whose suit or
    rank is unknown (-1) lands, by Python's negative indexing, in the last row or column. */
module Tables {
  import opened Constants
  import opened Cards
  import opened Hands

  type Table = seq<seq<int>>

  /** `t` has `rows` rows of `MaxRank + 1` entries. */
  predicate IsTable(t: Table, rows: int) {
    |t| == rows && forall i :: 0 <= i < |t| ==> |t[i]| == MaxRank + 1
  }

  /** Rank and suit are each either unknown or inside the table. */
  predicate CardInRange(c: Card, numSuits: int) {
    (c.rank == Unknown || 1 <= c.rank <= MaxRank) && (c.suit == Unknown || 0 <= c.suit < numSuits)
  }

  predicate AllInRange(cards: seq<Card>, numSuits: int) {
    forall i :: 0 <= i < |cards| ==> CardInRange(cards[i], numSuits)
  }

  function EmptyTable(rows: nat): (t: Table)
    ensures IsTable(t, rows)
    ensures forall i, j :: 0 <= i < rows && 0 <= j <= MaxRank ==> t[i][j] == 0
  {
    seq(rows, _ => seq(MaxRank + 1, _ => 0))
  }

  /** A card taken out of an in-range hand is in range, and so is what is left. */
  lemma RemovalInRange(hand: seq<Card>, order: int, numSuits: int)
    requires AllInRange(hand, numSuits)
    ensures RemoveCard(hand, order).card.Some? ==> CardInRange(RemoveCard(hand, order).card.value, numSuits)
    ensures AllInRange(RemoveCard(hand, order).rest, numSuits)
  {
    var rm := RemoveCard(hand, order);
    if rm.card.Some? {
      var i :| 0 <= i < |hand| && hand[i] == rm.card.value && rm.rest == hand[..i] + hand[i + 1..];
      forall k | 0 <= k < |rm.rest| ensures CardInRange(rm.rest[k], numSuits) {
        if k < i { assert rm.rest[k] == hand[k]; } else { assert rm.rest[k] == hand[k + 1]; }
      }
    }
  }

  /** Adds one to entry `[i][j]`. */
  function Bump(t: Table, i: int, j: int): (r: Table)
    requires IsTable(t, |t|) && 0 <= i < |t| && 0 <= j <= MaxRank
    ensures IsTable(r, |t|)
    ensures forall a, b :: 0 <= a < |t| && 0 <= b <= MaxRank ==>
      r[a][b] == t[a][b] + (if a == i && b == j then 1 else 0)
  {
    t[i := t[i][j := t[i][j] + 1]]
  }

  /** The row a pile card lands in. */
  function SuitSlot(c: Card, numSuits: int): (k: int)
    requires 1 <= numSuits && CardInRange(c, numSuits)
    ensures 0 <= k < numSuits
  {
    PySlot(c.suit, numSuits)
  }

  /** The column a pile card lands in. */
  function RankSlot(c: Card): (k: int)
    requires CardInRange(c, 1) || c.rank == Unknown || 1 <= c.rank <= MaxRank
    ensures 0 <= k <= MaxRank
  {
    PySlot(c.rank, MaxRank + 1)
  }

  // ---------------------------------------------------------------- discard table

  /** Reference count: pile cards that land in entry `[suit][rank]`. */
  function CountAt(pile: seq<Card>, numSuits: int, suit: int, rank: int): nat
    requires 1 <= numSuits && AllInRange(pile, numSuits)
  {
    if |pile| == 0 then 0
    else
      var c := pile[|pile| - 1];
      CountAt(pile[..|pile| - 1], numSuits, suit, rank)
        + (if SuitSlot(c, numSuits) == suit && RankSlot(c) == rank then 1 else 0)
  }

  /** `discard_table`: counts the pile card by card into a zeroed table. */
  function DiscardTable(pile: seq<Card>, numSuits: int): (t: Table)
    requires 1 <= numSuits && AllInRange(pile, numSuits)
    ensures IsTable(t, numSuits)
  {
    if |pile| == 0 then EmptyTable(numSuits)
    else
      var c := pile[|pile| - 1];
      Bump(DiscardTable(pile[..|pile| - 1], numSuits), SuitSlot(c, numSuits), RankSlot(c))
  }

  /** Every entry of the discard table is the number of pile cards landing there. */
  lemma {:induction false} DiscardTableCounts(pile: seq<Card>, numSuits: int, suit: int, rank: int)
    requires 1 <= numSuits && AllInRange(pile, numSuits)
    requires 0 <= suit < numSuits && 0 <= rank <= MaxRank
    ensures DiscardTable(pile, numSuits)[suit][rank] == CountAt(pile, numSuits, suit, rank)
  {
    if |pile| > 0 {
      DiscardTableCounts(pile[..|pile| - 1], numSuits, suit, rank);
    }
  }

  /** The `(suit, rank)` identity of every pile card, in pile order. */
  function Identities(pile: seq<Card>): (r: seq<(int, int)>)
    ensures |r| == |pile| && forall i :: 0 <= i < |pile| ==> r[i] == (pile[i].suit, pile[i].rank)
  {
    seq(|pile|, i requires 0 <= i < |pile| => (pile[i].suit, pile[i].rank))
  }

  /** For a revealed card the count is simply the number of copies of that card in the pile. */
  lemma {:induction false} CountAtRevealed(pile: seq<Card>, numSuits: int, suit: int, rank: int)
    requires 1 <= numSuits && AllInRange(pile, numSuits)
    requires forall c :: c in pile ==> c.suit != Unknown && c.rank != Unknown
    requires 0 <= suit < numSuits && 1 <= rank <= MaxRank
    ensures CountAt(pile, numSuits, suit, rank) == multiset(Identities(pile))[(suit, rank)]
  {
    var n := |pile|;
    if n > 0 {
      var p := pile[..n - 1];
      assert pile[n - 1] in pile;
      CountAtRevealed(p, numSuits, suit, rank);
      assert Identities(pile) == Identities(p) + [(pile[n - 1].suit, pile[n - 1].rank)];
    }
  }

  // ---------------------------------------------------------------- played ranks

  /** `played_ranks`: the highest rank played in every suit (0 when none). */
  function PlayedRanks(pile: seq<Card>, numSuits: int): (p: seq<int>)
    requires 1 <= numSuits && AllInRange(pile, numSuits)
    ensures |p| == numSuits
  {
    if |pile| == 0 then seq(numSuits, _ => 0)
    else
      var prev := PlayedRanks(pile[..|pile| - 1], numSuits);
      var c := pile[|pile| - 1];
      assert c in pile;
      var k := SuitSlot(c, numSuits);
      prev[k := if c.rank > prev[k] then c.rank else prev[k]]
  }

  /** A played stack is 0 or the rank of some card of its row, and no card of the row is higher. */
  lemma {:induction false} PlayedRanksIsMax(pile: seq<Card>, numSuits: int, suit: int)
    requires 1 <= numSuits && AllInRange(pile, numSuits) && 0 <= suit < numSuits
    ensures 0 <= PlayedRanks(pile, numSuits)[suit] <= MaxRank
    ensures forall c :: c in pile && SuitSlot(c, numSuits) == suit ==> c.rank <= PlayedRanks(pile, numSuits)[suit]
    ensures PlayedRanks(pile, numSuits)[suit] == 0
      || exists c :: c in pile && SuitSlot(c, numSuits) == suit && c.rank == PlayedRanks(pile, numSuits)[suit]
  {
    if |pile| > 0 {
      var p := pile[..|pile| - 1];
      PlayedRanksIsMax(p, numSuits, suit);
      assert pile[|pile| - 1] in pile;
      assert pile == p + [pile[|pile| - 1]];
    }
  }

  // ---------------------------------------------------------------- hints table

  /** Reference count: cards of `hand` that are not `Unspecified` and are known to be `(suit, rank)`. */
  function HandHintCount(hand: seq<Card>, suit: int, rank: int): nat {
    if |hand| == 0 then 0
    else
      var c := hand[|hand| - 1];
      HandHintCount(hand[..|hand| - 1], suit, rank)
        + (if c.status != Unspecified && c.suit == suit && c.rank == rank then 1 else 0)
  }

  /** Reference count over the hands of all players except `viewer`. */
  function HintCount(hands: seq<seq<Card>>, viewer: int, suit: int, rank: int): nat {
    if |hands| == 0 then 0
    else
      HintCount(hands[..|hands| - 1], viewer, suit, rank)
        + (if |hands| - 1 == viewer then 0 else HandHintCount(hands[|hands| - 1], suit, rank))
  }

  predicate HandsInRange(hands: seq<seq<Card>>, numSuits: int) {
    forall p :: 0 <= p < |hands| ==> AllInRange(hands[p], numSuits)
  }

  /** Adds one hand's known, touched cards to the table. */
  function AddHandHints(t: Table, hand: seq<Card>, numSuits: int): (r: Table)
    requires IsTable(t, numSuits) && AllInRange(hand, numSuits)
    ensures IsTable(r, numSuits)
  {
    if |hand| == 0 then t
    else
      var prev := AddHandHints(t, hand[..|hand| - 1], numSuits);
      var c := hand[|hand| - 1];
      assert c in hand;
      if c.status == Unspecified || c.suit == Unknown || c.rank == Unknown then prev
      else Bump(prev, c.suit, c.rank)
  }

  /** `hints_table(viewer)`: known identities of touched cards outside the viewer's hand. */
  function HintsTable(hands: seq<seq<Card>>, viewer: int, numSuits: int): (t: Table)
    requires 0 <= numSuits && HandsInRange(hands, numSuits)
    ensures IsTable(t, numSuits)
  {
    if |hands| == 0 then EmptyTable(numSuits)
    else
      var prev := HintsTable(hands[..|hands| - 1], viewer, numSuits);
      if |hands| - 1 == viewer then prev
      else AddHandHints(prev, hands[|hands| - 1], numSuits)
  }

  lemma {:induction false} AddHandHintsCounts(t: Table, hand: seq<Card>, numSuits: int, suit: int, rank: int)
    requires IsTable(t, numSuits) && AllInRange(hand, numSuits)
    requires 0 <= suit < numSuits && 0 <= rank <= MaxRank
    ensures AddHandHints(t, hand, numSuits)[suit][rank] == t[suit][rank] + HandHintCount(hand, suit, rank)
  {
    if |hand| > 0 {
      AddHandHintsCounts(t, hand[..|hand| - 1], numSuits, suit, rank);
    }
  }

  /** Every entry of the hints table counts the touched cards known to have that identity. */
  lemma {:induction false} HintsTableCounts(hands: seq<seq<Card>>, viewer: int, numSuits: int, suit: int, rank: int)
    requires 0 <= numSuits && HandsInRange(hands, numSuits)
    requires 0 <= suit < numSuits && 0 <= rank <= MaxRank
    ensures HintsTable(hands, viewer, numSuits)[suit][rank] == HintCount(hands, viewer, suit, rank)
  {
    if |hands| > 0 {
      var n := |hands| - 1;
      HintsTableCounts(hands[..n], viewer, numSuits, suit, rank);
      if n != viewer {
        AddHandHintsCounts(HintsTable(hands[..n], viewer, numSuits), hands[n], numSuits, suit, rank);
      }
    }
  }

  /** The hints table reads only identities and whether a card is touched: a change of status
      between two touched states leaves it as it was. */
  lemma {:induction false} HandHintCountStatusOnly(a: seq<Card>, b: seq<Card>, suit: int, rank: int)
    requires |a| == |b|
    requires forall i :: 0 <= i < |a| ==>
      a[i].suit == b[i].suit && a[i].rank == b[i].rank && (a[i].status == Unspecified <==> b[i].status == Unspecified)
    ensures HandHintCount(a, suit, rank) == HandHintCount(b, suit, rank)
  {
    if |a| > 0 {
      HandHintCountStatusOnly(a[..|a| - 1], b[..|b| - 1], suit, rank);
    }
  }
}
