/** Looking cards up in a hand by their order, and taking them out. */
module Hands {
  import opened Wrappers
  import opened Cards

  /** Position of the first card of `hand` with the given order, if any. */
  function FindSlot(hand: seq<Card>, order: int): (r: Option<nat>)
    ensures r.None? <==> forall i :: 0 <= i < |hand| ==> hand[i].order != order
    ensures r.Some? ==> r.value < |hand| && hand[r.value].order == order
    ensures r.Some? ==> forall i :: 0 <= i < r.value ==> hand[i].order != order
  {
    if |hand| == 0 then None
    else if hand[0].order == order then Some(0)
    else match FindSlot(hand[1..], order)
      case None => None
      case Some(k) => Some(k + 1)
  }

  /** No two cards of the hand share an order (the server numbers every card uniquely). */
  predicate DistinctOrders(hand: seq<Card>) {
    forall i, j :: 0 <= i < j < |hand| ==> hand[i].order != hand[j].order
  }

  /** True when some card of `hand` has the given order. */
  predicate HasOrder(hand: seq<Card>, order: int) {
    exists i :: 0 <= i < |hand| && hand[i].order == order
  }

  /** The card with the given order, or `None` when it is not in the hand. */
  function CardByOrder(hand: seq<Card>, order: int): (r: Option<Card>)
    ensures r.Some? <==> HasOrder(hand, order)
    ensures r.Some? ==> r.value in hand && r.value.order == order
  {
    match FindSlot(hand, order)
    case None => None
    case Some(i) => Some(hand[i])
  }

  /** Result of removing a card: the card taken out (if found) and the hand left behind. */
  datatype Removal = Removal(card: Option<Card>, rest: seq<Card>)

  /** Removes the first card with the given order, keeping the other cards in order;
      a missing order leaves the hand as it was. */
  function RemoveCard(hand: seq<Card>, order: int): (r: Removal)
    ensures r.card.None? <==> !HasOrder(hand, order)
    ensures r.card.None? ==> r.rest == hand
    ensures r.card.Some? ==>
      exists i :: 0 <= i < |hand| && hand[i] == r.card.value && r.card.value.order == order
        && r.rest == hand[..i] + hand[i + 1..]
        && (forall j :: 0 <= j < i ==> hand[j].order != order)
    ensures r.card.Some? ==> |r.rest| + 1 == |hand| && multiset(r.rest) + multiset{r.card.value} == multiset(hand)
  {
    match FindSlot(hand, order)
    case None => Removal(None, hand)
    case Some(i) =>
      assert hand == hand[..i] + [hand[i]] + hand[i + 1..];
      Removal(Some(hand[i]), hand[..i] + hand[i + 1..])
  }

  /** Replaces the card at position `i`. */
  function SetAt(hand: seq<Card>, i: nat, c: Card): (r: seq<Card>)
    requires i < |hand|
    ensures |r| == |hand| && r[i] == c
    ensures forall j :: 0 <= j < |hand| && j != i ==> r[j] == hand[j]
  {
    hand[i := c]
  }

  /** Total number of cards held over all hands. */
  function CardsInHands(hands: seq<seq<Card>>): nat {
    if |hands| == 0 then 0 else CardsInHands(hands[..|hands| - 1]) + |hands[|hands| - 1]|
  }

  /** Changing one hand changes the total by that hand's change in size. */
  lemma {:induction false} CardsInHandsUpdate(hands: seq<seq<Card>>, p: nat, h: seq<Card>)
    requires p < |hands|
    ensures CardsInHands(hands[p := h]) + |hands[p]| == CardsInHands(hands) + |h|
    decreases |hands|
  {
    var n := |hands| - 1;
    if p == n {
      assert hands[p := h][..n] == hands[..n];
    } else {
      assert hands[p := h][..n] == hands[..n][p := h];
      CardsInHandsUpdate(hands[..n], p, h);
    }
  }
}
