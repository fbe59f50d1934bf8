/** A whole-table snapshot: hands, piles and tokens, with the queries the convention engine
    and the search ask of it. */
module Snapshots {
  import opened Wrappers
  import opened Constants
  import opened Clues
  import opened Cards
  import opened Actions
  import opened Hands
  import opened Seqs
  import opened Tables

  /** Table information at one moment. Every hand is ordered from the discard slot
      (index 0) to the draw slot. */
  datatype Snapshot = Snapshot(
    clueTokens: int,
    boomTokens: int,
    numSuits: int,
    numRemainingCards: int,
    postDrawTurns: int,
    numPlayers: int,
    startPlayerIndex: int,
    playPile: seq<Card>,
    discardPile: seq<Card>,
    hands: seq<seq<Card>>,
    initialCards: seq<Card>,
    actionHistory: seq<Action>)

  /** One hand per player, and every card's rank and suit either unknown or on the table. */
  predicate Valid(s: Snapshot) {
    && 1 <= s.numSuits <= StandardSuits
    && 0 < s.numPlayers == |s.hands|
    && AllInRange(s.playPile, s.numSuits)
    && AllInRange(s.discardPile, s.numSuits)
    && HandsInRange(s.hands, s.numSuits)
  }

  /** The field values of a `Snapshot()` built with no arguments. */
  function DefaultSnapshot(): Snapshot {
    Snapshot(MaxClueNum, MaxBoomNum, StandardSuits, -1, 0, -1, -1, [], [], [], [], [])
  }

  /** All cards of all hands, hand after hand. */
  function Flatten(hands: seq<seq<Card>>): (r: seq<Card>)
    ensures |r| == CardsInHands(hands)
  {
    if |hands| == 0 then [] else Flatten(hands[..|hands| - 1]) + hands[|hands| - 1]
  }

  /** `initialize`: seats the players with their opening hands; every dealt card leaves the deck
      and is remembered as an initial card. */
  function Initialize(numPlayers: int, startPlayer: int, hands: seq<seq<Card>>): (s: Snapshot)
    ensures s.numPlayers == numPlayers && s.startPlayerIndex == startPlayer && s.hands == hands
    ensures s.numRemainingCards + |s.initialCards| == s.numSuits * CardsPerSuit()
    ensures s.initialCards == Flatten(hands)
    ensures s.clueTokens == MaxClueNum && s.boomTokens == MaxBoomNum && s.postDrawTurns == 0
    ensures s.playPile == [] && s.discardPile == [] && s.actionHistory == []
  {
    var d := DefaultSnapshot();
    d.(numPlayers := numPlayers, startPlayerIndex := startPlayer, hands := hands,
       numRemainingCards := d.numSuits * CardsPerSuit() - CardsInHands(hands),
       initialCards := Flatten(hands))
  }

  // ---------------------------------------------------------------- tables of a snapshot

  function Played(s: Snapshot): (p: seq<int>)
    requires Valid(s)
    ensures |p| == s.numSuits
  {
    PlayedRanks(s.playPile, s.numSuits)
  }

  function Discards(s: Snapshot): (t: Table)
    requires Valid(s)
    ensures IsTable(t, s.numSuits)
  {
    DiscardTable(s.discardPile, s.numSuits)
  }

  /** `hints_table()` with no viewer: every hand is counted. */
  function Hints(s: Snapshot): (t: Table)
    requires Valid(s)
    ensures IsTable(t, s.numSuits)
  {
    HintsTable(s.hands, Unknown, s.numSuits)
  }

  // ---------------------------------------------------------------- score limit and game end

  /** Every copy of `(suit, rank)` is in the discard table. */
  predicate Exhausted(t: Table, suit: int, rank: int)
    requires IsTable(t, |t|) && 0 <= suit < |t| && 1 <= rank <= MaxRank
  {
    t[suit][rank] == CopiesOf(suit, rank)
  }

  /** Points a suit loses: counted from its lowest exhausted rank at or above `r`. */
  function SuitLoss(t: Table, suit: int, r: int): (loss: int)
    requires IsTable(t, |t|) && 0 <= suit < |t| && 1 <= r <= MaxRank + 1
    ensures 0 <= loss <= MaxRank + 1 - r
    decreases MaxRank + 1 - r
  {
    if r > MaxRank then 0
    else if Exhausted(t, suit, r) then MaxRank - r + 1
    else SuitLoss(t, suit, r + 1)
  }

  /** Summed loss of suits `0 .. n - 1`. */
  function TotalLoss(t: Table, n: int): (loss: int)
    requires IsTable(t, |t|) && 0 <= n <= |t|
    ensures 0 <= loss <= n * MaxRank
  {
    if n == 0 then 0 else TotalLoss(t, n - 1) + SuitLoss(t, n - 1, 1)
  }

  /** `_max_score_limit`: the best score still reachable given the discards. */
  function MaxScoreLimit(s: Snapshot): int
    requires Valid(s)
  {
    if |s.discardPile| == 0 then s.numSuits * MaxRank
    else s.numSuits * MaxRank - TotalLoss(Discards(s), s.numSuits)
  }

  /** A suit's loss is zero when no rank is exhausted, and otherwise it is exactly the
      ranks from its lowest exhausted rank upwards. */
  lemma {:induction false} SuitLossIsLowestExhausted(t: Table, suit: int, r: int)
    requires IsTable(t, |t|) && 0 <= suit < |t| && 1 <= r <= MaxRank + 1
    ensures SuitLoss(t, suit, r) == 0 <==> forall k :: r <= k <= MaxRank ==> !Exhausted(t, suit, k)
    ensures SuitLoss(t, suit, r) > 0 ==>
      exists k :: r <= k <= MaxRank && Exhausted(t, suit, k) && SuitLoss(t, suit, r) == MaxRank - k + 1
        && forall j :: r <= j < k ==> !Exhausted(t, suit, j)
    decreases MaxRank + 1 - r
  {
    if r <= MaxRank && !Exhausted(t, suit, r) {
      SuitLossIsLowestExhausted(t, suit, r + 1);
    }
  }

  lemma {:induction false} TotalLossZero(t: Table, n: int)
    requires IsTable(t, |t|) && 0 <= n <= |t|
    ensures TotalLoss(t, n) == 0 <==>
      forall suit, k :: 0 <= suit < n && 1 <= k <= MaxRank ==> !Exhausted(t, suit, k)
  {
    if n > 0 {
      TotalLossZero(t, n - 1);
      SuitLossIsLowestExhausted(t, n - 1, 1);
    }
  }

  /** The score limit lies between 0 and five points per suit, and it is below the maximum
      exactly when some rank of some suit has every copy discarded. */
  lemma MaxScoreLimitBounds(s: Snapshot)
    requires Valid(s)
    ensures 0 <= MaxScoreLimit(s) <= s.numSuits * MaxRank
    ensures |s.discardPile| == 0 ==> MaxScoreLimit(s) == s.numSuits * MaxRank
    ensures |s.discardPile| > 0 ==>
      (MaxScoreLimit(s) == s.numSuits * MaxRank <==>
        forall suit, k :: 0 <= suit < s.numSuits && 1 <= k <= MaxRank ==> !Exhausted(Discards(s), suit, k))
  {
    if |s.discardPile| > 0 {
      TotalLossZero(Discards(s), s.numSuits);
    }
  }

  /** `is_end_status`: out of boom tokens, every reachable card played, or the deck is
      empty and every player has had the final turn. */
  predicate IsEndStatus(s: Snapshot)
    requires Valid(s)
  {
    || s.boomTokens <= 0
    || |s.playPile| == MaxScoreLimit(s)
    || (s.numRemainingCards == 0 && s.postDrawTurns == s.numPlayers)
  }

  // ---------------------------------------------------------------- usefulness

  function MinOf(xs: seq<int>): (m: int)
    requires |xs| > 0
    ensures m in xs && forall x :: x in xs ==> m <= x
  {
    if |xs| == 1 then xs[0]
    else
      var m := MinOf(xs[1..]);
      assert xs == [xs[0]] + xs[1..];
      if xs[0] <= m then xs[0] else m
  }

  /** Some rank below `rank` has every copy of this suit discarded. */
  predicate LowerRankExhausted(t: Table, suit: int, rank: int)
    requires IsTable(t, |t|) && 0 <= suit < |t| && rank <= MaxRank + 1
  {
    exists r :: 1 <= r < rank && Exhausted(t, suit, r)
  }

  /** `is_useful`: whether a card may still matter. It does not when it is known trash, its rank
      is at or below every stack, its suit is complete, or its suit can no longer reach it. */
  predicate IsUseful(s: Snapshot, card: Card)
    requires Valid(s) && CardInRange(card, s.numSuits)
  {
    var played := Played(s);
    if card.status == TrashKnownByPlayer then false
    else if card.rank != Unknown && card.rank <= MinOf(played) then false
    else if card.suit != Unknown && played[card.suit] == MaxRank then false
    else if card.rank != Unknown && card.suit != Unknown
      && LowerRankExhausted(Discards(s), card.suit, card.rank) then false
    else true
  }

  /** One card after trash recalculation. */
  function RecalcCard(s: Snapshot, c: Card): (r: Card)
    requires Valid(s) && CardInRange(c, s.numSuits)
    ensures r == c || r == c.(status := TrashKnownByPlayer)
    ensures r.status == TrashKnownByPlayer <==> !IsUseful(s, c)
    ensures IsUseful(s, c) ==> r == c
  {
    if c.status != TrashKnownByPlayer && !IsUseful(s, c) then c.(status := TrashKnownByPlayer) else c
  }

  function RecalcHand(s: Snapshot, hand: seq<Card>): (r: seq<Card>)
    requires Valid(s) && AllInRange(hand, s.numSuits)
    ensures |r| == |hand|
    ensures forall i :: 0 <= i < |hand| ==> r[i] == RecalcCard(s, hand[i])
  {
    seq(|hand|, i requires 0 <= i < |hand| => RecalcCard(s, hand[i]))
  }

  /** Whether two snapshots differ at most in the statuses of hand cards. */
  predicate SameButStatuses(a: Snapshot, b: Snapshot) {
    && a.(hands := []) == b.(hands := [])
    && |a.hands| == |b.hands|
    && (forall p :: 0 <= p < |a.hands| ==> |a.hands[p]| == |b.hands[p]|)
    && (forall p, i :: 0 <= p < |a.hands| && 0 <= i < |a.hands[p]| ==>
          a.hands[p][i] == b.hands[p][i].(status := a.hands[p][i].status))
  }

  /** `recalculate_trash_cards`: marks as known trash every card `is_useful` rejects. */
  function RecalculateTrashCards(s: Snapshot): (r: Snapshot)
    requires Valid(s)
    ensures Valid(r) && SameButStatuses(r, s)
    ensures forall p, i :: 0 <= p < |s.hands| && 0 <= i < |s.hands[p]| ==>
      (r.hands[p][i].status == TrashKnownByPlayer <==> !IsUseful(s, s.hands[p][i]))
    ensures forall p, i :: 0 <= p < |s.hands| && 0 <= i < |s.hands[p]| && s.hands[p][i].status == TrashKnownByPlayer ==>
      r.hands[p][i].status == TrashKnownByPlayer
    ensures forall p, i :: 0 <= p < |s.hands| && 0 <= i < |s.hands[p]| && IsUseful(s, s.hands[p][i]) ==>
      r.hands[p][i] == s.hands[p][i]
  {
    var hs := seq(|s.hands|, p requires 0 <= p < |s.hands| =>
      RecalcHand(s, s.hands[p]));
    s.(hands := hs)
  }

  /** Usefulness reads only the piles and the card itself, so it agrees on snapshots that
      differ only in statuses. */
  lemma IsUsefulIgnoresHands(a: Snapshot, b: Snapshot, c: Card)
    requires Valid(a) && Valid(b) && SameButStatuses(a, b) && CardInRange(c, a.numSuits)
    ensures IsUseful(a, c) == IsUseful(b, c)
  {
    assert a.playPile == b.playPile && a.discardPile == b.discardPile && a.numSuits == b.numSuits by {
      assert a.(hands := []) == b.(hands := []);
    }
  }

  /** Recalculating twice changes nothing more. */
  lemma RecalculateIdempotent(s: Snapshot)
    requires Valid(s)
    ensures RecalculateTrashCards(RecalculateTrashCards(s)) == RecalculateTrashCards(s)
  {
    var r := RecalculateTrashCards(s);
    var rr := RecalculateTrashCards(r);
    assert |rr.hands| == |r.hands|;
    forall p | 0 <= p < |r.hands|
      ensures rr.hands[p] == r.hands[p]
    {
      forall i | 0 <= i < |r.hands[p]|
        ensures rr.hands[p][i] == r.hands[p][i]
      {
        IsUsefulIgnoresHands(r, s, s.hands[p][i]);
        if IsUseful(s, s.hands[p][i]) {
          assert r.hands[p][i] == s.hands[p][i];
        } else {
          assert r.hands[p][i].status == TrashKnownByPlayer;
        }
      }
    }
    assert rr.hands == r.hands;
  }

  // ---------------------------------------------------------------- discard slot and saves

  /** `_unique_suits_in_rank`: suits where one copy of `rank` survives and the stack is still below it. */
  function UniqueSuitsInRank(s: Snapshot, rank: int): (r: seq<int>)
    requires Valid(s) && 1 <= rank <= MaxRank
    ensures forall suit :: suit in r <==>
      0 <= suit < s.numSuits && Discards(s)[suit][rank] == CopiesOf(suit, rank) - 1 && Played(s)[suit] < rank
  {
    UniqueSuitsBelow(s, rank, s.numSuits)
  }

  function UniqueSuitsBelow(s: Snapshot, rank: int, n: int): (r: seq<int>)
    requires Valid(s) && 1 <= rank <= MaxRank && 0 <= n <= s.numSuits
    ensures forall suit :: suit in r <==>
      0 <= suit < n && Discards(s)[suit][rank] == CopiesOf(suit, rank) - 1 && Played(s)[suit] < rank
  {
    if n == 0 then []
    else
      var prev := UniqueSuitsBelow(s, rank, n - 1);
      var k := n - 1;
      if Discards(s)[k][rank] == CopiesOf(k, rank) - 1 && Played(s)[k] < rank then prev + [k] else prev
  }

  /** `_pending_discard_slot`: no slot when the player holds a known playable or known trash card;
      otherwise the first `Unspecified` card, else the first `Useful` card. */
  function PendingDiscardSlot(hand: seq<Card>): (r: Option<nat>)
    ensures r.Some? ==> r.value < |hand|
    ensures (exists i :: 0 <= i < |hand| && hand[i].status in {PlayableKnownByPlayer, TrashKnownByPlayer}) ==> r.None?
    ensures r.Some? ==> hand[r.value].status in {Unspecified, Useful}
    ensures r.Some? && hand[r.value].status == Useful ==>
      forall i :: 0 <= i < |hand| ==> hand[i].status != Unspecified
    ensures r.Some? ==> forall i :: 0 <= i < r.value ==> hand[i].status != hand[r.value].status
    ensures r.None? ==>
      (exists i :: 0 <= i < |hand| && hand[i].status in {PlayableKnownByPlayer, TrashKnownByPlayer})
      || forall i :: 0 <= i < |hand| ==> hand[i].status !in {Unspecified, Useful}
  {
    if exists i :: 0 <= i < |hand| && hand[i].status in {PlayableKnownByPlayer, TrashKnownByPlayer} then None
    else match FirstWithStatus(hand, Unspecified)
      case Some(i) => Some(i)
      case None => FirstWithStatus(hand, Useful)
  }

  function FirstWithStatus(hand: seq<Card>, st: Status): (r: Option<nat>)
    ensures r.None? <==> forall i :: 0 <= i < |hand| ==> hand[i].status != st
    ensures r.Some? ==> r.value < |hand| && hand[r.value].status == st
    ensures r.Some? ==> forall i :: 0 <= i < r.value ==> hand[i].status != st
  {
    if |hand| == 0 then None
    else if hand[0].status == st then Some(0)
    else match FirstWithStatus(hand[1..], st)
      case None => None
      case Some(k) => Some(k + 1)
  }
}
