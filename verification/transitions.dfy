/** How a snapshot moves on after one action (`_perform_*` and `next_snapshot`). */
module Transitions {
  import opened Wrappers
  import opened Constants
  import opened Clues
  import opened Cards
  import opened Actions
  import opened Hands
  import opened Seqs
  import opened Tables
  import opened Snapshots
  import opened ClueEngine

  /** What `next_snapshot` assumes of a game-valid action: its players sit at the table and a
      drawn card is a card of the table's deck. */
  predicate WellFormed(s: Snapshot, a: Action) {
    && 0 <= a.player < s.numPlayers
    && (a.GiveClue? ==> 0 <= a.clue.receiver < s.numPlayers)
    && (a.Draw? ==> CardInRange(a.card, s.numSuits))
  }

  /** Cards on the table or still in the deck. */
  function Total(s: Snapshot): int {
    s.numRemainingCards + |s.playPile| + |s.discardPile| + CardsInHands(s.hands)
  }

  // ---------------------------------------------------------------- draw, play, boom

  /** `_perform_draw`: the card joins the draw slot end of the hand and leaves the deck. */
  function PerformDraw(s: Snapshot, player: int, card: Card): (r: Snapshot)
    requires Valid(s) && 0 <= player < s.numPlayers && CardInRange(card, s.numSuits)
    ensures Valid(r) && Total(r) == Total(s)
    ensures r.hands == s.hands[player := s.hands[player] + [card]]
    ensures r.numRemainingCards == s.numRemainingCards - 1
  {
    CardsInHandsUpdate(s.hands, player, s.hands[player] + [card]);
    var h := s.hands[player] + [card];
    assert forall i :: 0 <= i < |h| ==> CardInRange(h[i], s.numSuits) by {
      forall i | 0 <= i < |h| ensures CardInRange(h[i], s.numSuits) {
        if i < |s.hands[player]| { assert h[i] == s.hands[player][i]; }
      }
    }
    s.(hands := s.hands[player := h], numRemainingCards := s.numRemainingCards - 1)
  }

  /** Takes the card with `order` out of `player`'s hand and puts it on a pile. */
  function MoveToPile(s: Snapshot, player: int, order: int, toPlay: bool): (r: Result<Snapshot>)
    requires Valid(s) && 0 <= player < s.numPlayers
    ensures r.Err? <==> !HasOrder(s.hands[player], order)
    ensures r.Err? ==> r.error == CardNotFound
    ensures r.Ok? ==> Valid(r.value) && Total(r.value) == Total(s)
    ensures r.Ok? ==> CardsInHands(r.value.hands) + 1 == CardsInHands(s.hands)
    ensures r.Ok? ==> r.value.(hands := s.hands, playPile := s.playPile, discardPile := s.discardPile) == s
    ensures r.Ok? ==> |r.value.hands| == |s.hands|
    ensures r.Ok? ==> forall p :: 0 <= p < |s.hands| && p != player ==> r.value.hands[p] == s.hands[p]
    ensures r.Ok? ==> r.value.hands[player] == RemoveCard(s.hands[player], order).rest
    ensures r.Ok? && toPlay ==>
      r.value.discardPile == s.discardPile && |r.value.playPile| == |s.playPile| + 1
      && r.value.playPile[..|s.playPile|] == s.playPile && r.value.playPile[|s.playPile|].order == order
      && r.value.playPile[|s.playPile|] in s.hands[player]
    ensures r.Ok? && !toPlay ==>
      r.value.playPile == s.playPile && |r.value.discardPile| == |s.discardPile| + 1
      && r.value.discardPile[..|s.discardPile|] == s.discardPile && r.value.discardPile[|s.discardPile|].order == order
      && r.value.discardPile[|s.discardPile|] in s.hands[player]
    ensures r.Ok? && toPlay ==> r.value.playPile[|s.playPile|] == CardByOrder(s.hands[player], order).value
    ensures r.Ok? && !toPlay ==> r.value.discardPile[|s.discardPile|] == CardByOrder(s.hands[player], order).value
  {
    var hand := s.hands[player];
    var rm := RemoveCard(hand, order);
    if rm.card.None? then Err(CardNotFound)
    else
      var c := rm.card.value;
      CardsInHandsUpdate(s.hands, player, rm.rest);
      RemovalInRange(hand, order, s.numSuits);
      var hs := s.hands[player := rm.rest];
      if toPlay then Ok(s.(hands := hs, playPile := s.playPile + [c]))
      else Ok(s.(hands := hs, discardPile := s.discardPile + [c]))
  }

  /** `_perform_play`: a successful play moves the card to the play pile. */
  function PerformPlay(s: Snapshot, player: int, order: int): (r: Result<Snapshot>)
    requires Valid(s) && 0 <= player < s.numPlayers
    ensures r.Ok? <==> HasOrder(s.hands[player], order)
    ensures r.Ok? ==> Valid(r.value) && Total(r.value) == Total(s)
    ensures r.Ok? ==> r.value.(hands := s.hands, playPile := s.playPile) == s
  {
    MoveToPile(s, player, order, true)
  }

  /** `_perform_boom`: a misplay moves the card to the discard pile and costs a boom token. */
  function PerformBoom(s: Snapshot, player: int, order: int): (r: Result<Snapshot>)
    requires Valid(s) && 0 <= player < s.numPlayers
    ensures r.Ok? <==> HasOrder(s.hands[player], order)
    ensures r.Ok? ==> r.value.boomTokens == s.boomTokens - 1 && Total(r.value) == Total(s)
    ensures r.Ok? ==> |r.value.discardPile| == |s.discardPile| + 1 && r.value.playPile == s.playPile
    ensures r.Ok? ==> Valid(r.value) && r.value.(hands := s.hands, discardPile := s.discardPile, boomTokens := s.boomTokens) == s
  {
    var t :- MoveToPile(s, player, order, false);
    Ok(t.(boomTokens := t.boomTokens - 1))
  }

  // ---------------------------------------------------------------- discard

  /** Orders of the hand's known-trash cards, in hand order. */
  function TrashOrders(hand: seq<Card>): (r: seq<int>)
    ensures forall o :: o in r <==>
      exists i :: 0 <= i < |hand| && hand[i].order == o && hand[i].status == TrashKnownByPlayer
  {
    if |hand| == 0 then []
    else
      var n := |hand| - 1;
      assert forall i :: 0 <= i < n ==> hand[..n][i] == hand[i];
      TrashOrders(hand[..n]) + (if hand[n].status == TrashKnownByPlayer then [hand[n].order] else [])
  }

  /** Appends the orders of `Unspecified` cards not already listed. */
  function AddUnspecified(acc: seq<int>, hand: seq<Card>): (r: seq<int>)
    ensures forall o :: o in r <==>
      o in acc || exists i :: 0 <= i < |hand| && hand[i].order == o && hand[i].status == Unspecified
    ensures |r| >= |acc| && r[..|acc|] == acc
    decreases |hand|
  {
    if |hand| == 0 then acc
    else
      var next := if hand[0].order !in acc && hand[0].status == Unspecified then acc + [hand[0].order] else acc;
      var r := AddUnspecified(next, hand[1..]);
      assert forall i :: 1 <= i < |hand| ==> hand[1..][i - 1] == hand[i];
      assert r[..|acc|] == next[..|acc|];
      r
  }

  /** The order in which the player is expected to discard: known trash first, then untouched
      cards, each from the discard slot towards the draw slot. */
  function PendingDiscards(hand: seq<Card>): (r: seq<int>)
    ensures forall o :: o in r <==>
      exists i :: 0 <= i < |hand| && hand[i].order == o && hand[i].status in {TrashKnownByPlayer, Unspecified}
  {
    AddUnspecified(TrashOrders(hand), hand)
  }

  /** Position of the first occurrence of `x`, or -1 when it is absent. */
  function PendingIndex(xs: seq<int>, x: int): (k: int)
    ensures x in xs ==> 0 <= k < |xs| && xs[k] == x && forall j :: 0 <= j < k ==> xs[j] != x
    ensures x !in xs ==> k == -1
  {
    if |xs| == 0 then -1
    else if xs[0] == x then 0
    else
      var k := PendingIndex(xs[1..], x);
      if k < 0 then -1 else 1 + k
  }

  /** The discarder holds a card they know to be playable. */
  predicate HoldsKnownPlayable(hand: seq<Card>) {
    exists i :: 0 <= i < |hand| && hand[i].status == PlayableKnownByPlayer
  }

  /** How many cards the discard of `order` by `player` asks the next player to save. */
  function SaveRequest(s: Snapshot, player: int, order: int): int
    requires 0 <= player < |s.hands|
  {
    var hand := s.hands[player];
    SaveCount(s.clueTokens, PendingIndex(PendingDiscards(hand), order), HoldsKnownPlayable(hand))
  }

  /** How many of the next player's cards a discard at position `index` of the pending list
      asks them to save. */
  function SaveCount(clueTokens: int, index: int, knownPlayable: bool): int {
    if index == 0 then (if knownPlayable then (if clueTokens > 0 then 1 else 0) + 1 else 0)
    else clueTokens + index + (if knownPlayable then 1 else 0)
  }

  /** Statuses a discard never overrides. */
  predicate Protected(c: Card) {
    c.status in {CluedSaved, DirectFinessed, GoodTouchSaved, IndirectFinessed, PlayableKnownByPlayer}
  }

  function Unprotected(hand: seq<Card>): (n: nat)
    ensures n <= |hand|
  {
    if |hand| == 0 then 0 else (if Protected(hand[0]) then 0 else 1) + Unprotected(hand[1..])
  }

  /** Marks the first `n` unprotected cards, from the discard slot, as `Useful`. */
  function MarkUseful(hand: seq<Card>, n: int): (r: seq<Card>)
    ensures |r| == |hand|
    ensures forall i :: 0 <= i < |hand| ==> r[i] == hand[i] || (r[i] == hand[i].(status := Useful) && !Protected(hand[i]))
    decreases |hand|
  {
    if n <= 0 || |hand| == 0 then hand
    else if Protected(hand[0]) then [hand[0]] + MarkUseful(hand[1..], n)
    else [hand[0].(status := Useful)] + MarkUseful(hand[1..], n - 1)
  }

  /** Slot `i` once `n` cards are to be marked: an unprotected card with fewer than `n`
      unprotected cards before it becomes `Useful`; any other card stays. */
  function MarkedSlot(hand: seq<Card>, n: int, i: int): Card
    requires 0 <= i < |hand|
  {
    if !Protected(hand[i]) && Unprotected(hand[..i]) < n then hand[i].(status := Useful) else hand[i]
  }

  /** How many slots marking `n` cards reaches, read slot by slot from the newest end: a slot is
      reached when its card is unprotected and fewer than `n` unprotected cards precede it. */
  function MarkedCount(hand: seq<Card>, n: int): nat
    decreases |hand|
  {
    if |hand| == 0 then 0
    else
      var p := hand[..|hand| - 1];
      MarkedCount(p, n) + (if !Protected(hand[|hand| - 1]) && Unprotected(p) < n then 1 else 0)
  }

  /** Marking visits exactly the unprotected cards with fewer than `n` unprotected cards before
      them and sets those to `Useful` whatever their note was; every other card, protected cards
      included, stays as it is. */
  lemma {:induction false} MarkUsefulMarksFirst(hand: seq<Card>, n: int)
    ensures forall i :: 0 <= i < |hand| ==> MarkUseful(hand, n)[i] == MarkedSlot(hand, n, i)
    decreases |hand|
  {
    if |hand| > 0 {
      var m := if Protected(hand[0]) then n else n - 1;
      MarkUsefulMarksFirst(hand[1..], m);
      var r := MarkUseful(hand, n);
      forall i | 0 <= i < |hand| ensures r[i] == MarkedSlot(hand, n, i)
      {
        if i == 0 {
          assert hand[..0] == [];
        } else {
          assert hand[..i][1..] == hand[1..][..i - 1];
          assert hand[1..][i - 1] == hand[i];
          if n > 0 {
            assert r[1..] == MarkUseful(hand[1..], m);
            assert r[i] == r[1..][i - 1];
          }
        }
      }
    }
  }

  /** Counting unprotected cards from the newest end agrees with counting from the oldest. */
  lemma {:induction false} UnprotectedLast(hand: seq<Card>)
    requires |hand| > 0
    ensures Unprotected(hand) == Unprotected(hand[..|hand| - 1]) + (if Protected(hand[|hand| - 1]) then 0 else 1)
    decreases |hand|
  {
    if |hand| == 1 {
      assert hand[1..] == [] && hand[..0] == [];
    } else {
      UnprotectedLast(hand[1..]);
      assert hand[1..][..|hand| - 2] == hand[..|hand| - 1][1..];
    }
  }

  /** Marking `n` cards reaches `n` slots, or every unprotected card when fewer, and none when
      `n <= 0`. */
  lemma {:induction false} MarkedCountIsMin(hand: seq<Card>, n: int)
    ensures MarkedCount(hand, n) == if n <= 0 then 0 else if n < Unprotected(hand) then n else Unprotected(hand)
    decreases |hand|
  {
    if |hand| > 0 {
      MarkedCountIsMin(hand[..|hand| - 1], n);
      UnprotectedLast(hand);
    }
  }

  /** The next player's save marks for a discard of `card` by `player`. */
  function SaveForNext(s: Snapshot, player: int, card: Card): (r: Snapshot)
    requires Valid(s) && 0 <= player < s.numPlayers
    ensures Valid(r) && Total(r) == Total(s)
    ensures r.(hands := s.hands) == s && |r.hands| == |s.hands|
    ensures forall p :: 0 <= p < |s.hands| ==> SameOrders(r.hands[p], s.hands[p])
    ensures forall p :: 0 <= p < |s.hands| && p != (player + 1) % s.numPlayers ==> r.hands[p] == s.hands[p]
  {
    var next := (player + 1) % s.numPlayers;
    var num := SaveRequest(s, player, card.order);
    if num <= 0 then s
    else
      var h := MarkUseful(s.hands[next], num);
      CardsInHandsUpdate(s.hands, next, h);
      assert forall i :: 0 <= i < |h| ==> CardInRange(h[i], s.numSuits) by {
        forall i | 0 <= i < |h| ensures CardInRange(h[i], s.numSuits) {
          assert h[i].suit == s.hands[next][i].suit && h[i].rank == s.hands[next][i].rank;
        }
      }
      s.(hands := s.hands[next := h])
  }

  /** Removing an order from two hands with the same orders leaves hands with the same orders. */
  lemma RemoveSameOrders(a: seq<Card>, b: seq<Card>, order: int)
    requires SameOrders(a, b)
    ensures SameOrders(RemoveCard(a, order).rest, RemoveCard(b, order).rest)
  {
    FindSlotOrdersOnly(a, b, order);
    match FindSlot(a, order)
    case None =>
    case Some(i) =>
      var ra := RemoveCard(a, order).rest;
      var rb := RemoveCard(b, order).rest;
      assert ra == a[..i] + a[i + 1..] && rb == b[..i] + b[i + 1..];
      forall j | 0 <= j < |ra| ensures ra[j].order == rb[j].order {
        if j < i { assert ra[j] == a[j] && rb[j] == b[j]; } else { assert ra[j] == a[j + 1] && rb[j] == b[j + 1]; }
      }
  }

  lemma SameOrdersHasOrder(a: seq<Card>, b: seq<Card>, order: int)
    requires SameOrders(a, b)
    ensures HasOrder(a, order) <==> HasOrder(b, order)
  {
    if HasOrder(b, order) {
      var i :| 0 <= i < |b| && b[i].order == order;
      assert a[i].order == order;
    }
  }

  /** `_perform_discard`. Only a known-trash or untouched card may be discarded; the position of
      the card in the pending-discard list tells the next player how many cards to save, and
      those are marked `Useful` before the card goes to the discard pile for a clue token. */
  function PerformDiscard(s: Snapshot, player: int, order: int): (r: Result<Snapshot>)
    requires Valid(s) && 0 <= player < s.numPlayers
    ensures r.Err? ==> r.error in {CardNotFound, PossiblyUseful}
    ensures r.Err? && r.error == CardNotFound <==> !HasOrder(s.hands[player], order)
    ensures r.Err? && r.error == PossiblyUseful <==>
      HasOrder(s.hands[player], order)
      && CardByOrder(s.hands[player], order).value.status !in {TrashKnownByPlayer, Unspecified}
    ensures r.Ok? ==> Valid(r.value) && Total(r.value) == Total(s)
    ensures r.Ok? ==> r.value.clueTokens == s.clueTokens + 1 && r.value.boomTokens == s.boomTokens
    ensures r.Ok? ==> r.value.playPile == s.playPile && |r.value.discardPile| == |s.discardPile| + 1
    ensures r.Ok? ==> r.value.discardPile[|s.discardPile|].order == order
    ensures r.Ok? ==> r.value.(hands := s.hands, discardPile := s.discardPile, clueTokens := s.clueTokens) == s
    ensures r.Ok? ==> |r.value.hands| == |s.hands|
    ensures r.Ok? ==> SameOrders(r.value.hands[player], RemoveCard(s.hands[player], order).rest)
    ensures r.Ok? ==> forall p :: 0 <= p < |s.hands| && p != player ==> SameOrders(r.value.hands[p], s.hands[p])
    ensures r.Ok? ==> forall p :: 0 <= p < |s.hands| && p != player && p != (player + 1) % s.numPlayers ==>
      r.value.hands[p] == s.hands[p]
    ensures r.Ok? && s.numPlayers > 1 ==> r.value.hands[player] == RemoveCard(s.hands[player], order).rest
    ensures r.Ok? && s.numPlayers > 1 ==> r.value.discardPile[|s.discardPile|] == CardByOrder(s.hands[player], order).value
  {
    var hand := s.hands[player];
    match CardByOrder(hand, order)
    case None => Err(CardNotFound)
    case Some(card) =>
      if card.status !in {TrashKnownByPlayer, Unspecified} then Err(PossiblyUseful)
      else
        var pending := PendingDiscards(hand);
        assert card.order in pending by {
          var i :| 0 <= i < |hand| && hand[i] == card;
        }
        if card.order !in pending then Err(UnexpectedDiscard)
        else Ok(DiscardPending(s, player, card))
  }

  /** The accepted discard: the next player's save marks, then the card to the discard pile
      and a clue token back. */
  function DiscardPending(s: Snapshot, player: int, card: Card): (r: Snapshot)
    requires Valid(s) && 0 <= player < s.numPlayers
    requires card.order in PendingDiscards(s.hands[player])
    ensures Valid(r) && Total(r) == Total(s)
    ensures r.clueTokens == s.clueTokens + 1
    ensures |r.discardPile| == |s.discardPile| + 1 && r.discardPile[|s.discardPile|].order == card.order
    ensures r.(hands := s.hands, discardPile := s.discardPile, clueTokens := s.clueTokens) == s
    ensures |r.hands| == |s.hands|
    ensures SameOrders(r.hands[player], RemoveCard(s.hands[player], card.order).rest)
    ensures forall p :: 0 <= p < |s.hands| && p != player ==> SameOrders(r.hands[p], s.hands[p])
    ensures forall p :: 0 <= p < |s.hands| && p != player && p != (player + 1) % s.numPlayers ==> r.hands[p] == s.hands[p]
    ensures s.numPlayers > 1 ==> r.hands[player] == RemoveCard(s.hands[player], card.order).rest
    ensures s.numPlayers > 1 ==> r.discardPile[|s.discardPile|] == CardByOrder(s.hands[player], card.order).value
  {
    var marked := SaveForNext(s, player, card);
    SameOrdersHasOrder(marked.hands[player], s.hands[player], card.order);
    RemoveSameOrders(marked.hands[player], s.hands[player], card.order);
    NextSeatOther(player, s.numPlayers);
    var t := MoveToPile(marked, player, card.order, false).value;
    t.(clueTokens := t.clueTokens + 1)
  }

  /** An accepted discard marks exactly the first `SaveRequest` unprotected cards of the next
      player as `Useful` (all of them when fewer), a card already `Useful` included, leaves saved,
      finessed and known-playable cards alone, and marks nothing for the first pending card when
      the discarder knows no playable card. */
  lemma DiscardMarksNext(s: Snapshot, player: int, order: int)
    requires Valid(s) && 0 <= player < s.numPlayers && s.numPlayers > 1
    requires PerformDiscard(s, player, order).Ok?
    ensures var before := s.hands[(player + 1) % s.numPlayers];
      var after := PerformDiscard(s, player, order).value.hands[(player + 1) % s.numPlayers];
      var n := SaveRequest(s, player, order);
      && |after| == |before|
      && (forall i :: 0 <= i < |before| && Protected(before[i]) ==> after[i] == before[i])
      && (forall i :: 0 <= i < |before| ==> after[i] == MarkedSlot(before, n, i))
      && MarkedCount(before, n) == (if n <= 0 then 0 else if n < Unprotected(before) then n else Unprotected(before))
      && (n <= 0 ==> after == before)
    ensures PendingIndex(PendingDiscards(s.hands[player]), order) == 0 && !HoldsKnownPlayable(s.hands[player]) ==>
      PerformDiscard(s, player, order).value.hands[(player + 1) % s.numPlayers] == s.hands[(player + 1) % s.numPlayers]
  {
    var next := (player + 1) % s.numPlayers;
    var card := DiscardAccepted(s, player, order);
    NextHandMarked(s, player, card);
    MarkUsefulMarksFirst(s.hands[next], SaveRequest(s, player, order));
    MarkedCountIsMin(s.hands[next], SaveRequest(s, player, order));
  }

  /** With two or more players the next seat is someone else's. */
  lemma NextSeatDiffers(p: int, n: int)
    requires 0 <= p < n && n > 1
    ensures 0 <= (p + 1) % n < n && (p + 1) % n != p
  {
    if p + 1 < n {
      assert (p + 1) % n == p + 1;
    } else {
      assert (p + 1) % n == 0;
    }
  }

  lemma NextSeatOther(p: int, n: int)
    requires 0 <= p < n
    ensures n > 1 ==> (p + 1) % n != p
  {
    if n > 1 {
      NextSeatDiffers(p, n);
    }
  }

  /** The accepted discard is the pending-list branch, for the card found in the hand. */
  lemma DiscardAccepted(s: Snapshot, player: int, order: int) returns (card: Card)
    requires Valid(s) && 0 <= player < s.numPlayers
    requires PerformDiscard(s, player, order).Ok?
    ensures card.order == order && card.order in PendingDiscards(s.hands[player])
    ensures PerformDiscard(s, player, order) == Ok(DiscardPending(s, player, card))
  {
    card := CardByOrder(s.hands[player], order).value;
    var i :| 0 <= i < |s.hands[player]| && s.hands[player][i] == card;
  }

  /** Other players' hands after an accepted discard carry exactly the save marks. */
  lemma NextHandMarked(s: Snapshot, player: int, card: Card)
    requires Valid(s) && 0 <= player < s.numPlayers && s.numPlayers > 1
    requires card.order in PendingDiscards(s.hands[player])
    ensures DiscardPending(s, player, card).hands[(player + 1) % s.numPlayers]
      == MarkUseful(s.hands[(player + 1) % s.numPlayers], SaveRequest(s, player, card.order))
  {
    var next := (player + 1) % s.numPlayers;
    var marked := SaveForNext(s, player, card);
    assert marked.hands[next] == MarkUseful(s.hands[next], SaveRequest(s, player, card.order));
    NextSeatDiffers(player, s.numPlayers);
    SameOrdersHasOrder(marked.hands[player], s.hands[player], card.order);
  }

  // ---------------------------------------------------------------- dispatch

  /** After any non-draw action with the deck empty, one more final turn has passed. */
  function CountFinalTurn(s: Snapshot): Snapshot {
    if s.numRemainingCards == 0 then s.(postDrawTurns := s.postDrawTurns + 1) else s
  }

  /** A clue only rewrites notes: no card enters or leaves a hand. */
  lemma ClueKeepsTotal(s: Snapshot, clue: Clue)
    requires Valid(s) && 0 <= clue.receiver < s.numPlayers
    ensures PerformClue(s, clue).Ok? ==> Total(PerformClue(s, clue).value) == Total(s)
  {
    var r := PerformClue(s, clue);
    if r.Ok? {
      var t := r.value;
      CardsInHandsUpdate(s.hands, clue.receiver, t.hands[clue.receiver]);
      assert t.hands == s.hands[clue.receiver := t.hands[clue.receiver]];
    }
  }

  /** The bookkeeping a play, discard or clue leaves alone. */
  predicate SameFrame(r: Snapshot, s: Snapshot) {
    && r.numSuits == s.numSuits && r.numPlayers == s.numPlayers
    && r.numRemainingCards == s.numRemainingCards && r.postDrawTurns == s.postDrawTurns
    && r.startPlayerIndex == s.startPlayerIndex && r.actionHistory == s.actionHistory
  }

  /** A play, misplay, discard or clue before the final-turn count. */
  function PerformMove(s: Snapshot, a: Action): (r: Result<Snapshot>)
    requires Valid(s) && WellFormed(s, a) && !a.Draw?
    ensures r.Ok? ==> Valid(r.value) && Total(r.value) == Total(s) && SameFrame(r.value, s)
    ensures a.Play? ==> (r.Ok? <==> HasOrder(s.hands[a.player], a.card.order))
    ensures a.Discard? ==> (r.Ok? <==> PerformDiscard(s, a.player, a.card.order).Ok?)
    ensures a.GiveClue? ==> (r.Ok? <==> PerformClue(s, a.clue).Ok?)
  {
    match a
    case Play(p, c, boom) => if boom then PerformBoom(s, p, c.order) else PerformPlay(s, p, c.order)
    case Discard(p, c) => PerformDiscard(s, p, c.order)
    case GiveClue(p, clue) =>
      ClueKeepsTotal(s, clue);
      PerformClue(s, clue)
  }

  /** `_perform_action`. */
  function PerformAction(s: Snapshot, a: Action): (r: Result<Snapshot>)
    requires Valid(s) && WellFormed(s, a)
    ensures r.Ok? ==> Valid(r.value) && r.value.numPlayers == s.numPlayers
    ensures r.Ok? ==> Total(r.value) == Total(s)
    ensures a.Draw? ==> r.Ok?
    ensures a.Play? ==> (r.Ok? <==> HasOrder(s.hands[a.player], a.card.order))
    ensures a.Discard? ==> (r.Ok? <==> PerformDiscard(s, a.player, a.card.order).Ok?)
    ensures a.GiveClue? ==> (r.Ok? <==> PerformClue(s, a.clue).Ok?)
    ensures r.Ok? ==> r.value.actionHistory == s.actionHistory
    ensures r.Ok? ==> r.value.numSuits == s.numSuits && r.value.startPlayerIndex == s.startPlayerIndex
    ensures r.Ok? ==> r.value.numRemainingCards == s.numRemainingCards - (if a.Draw? then 1 else 0)
    ensures r.Ok? ==>
        r.value.postDrawTurns == s.postDrawTurns + (if !a.Draw? && s.numRemainingCards == 0 then 1 else 0)
  {
    if a.Draw? then Ok(PerformDraw(s, a.player, a.card))
    else
      var t :- PerformMove(s, a);
      Ok(CountFinalTurn(t))
  }

  /** `next_snapshot`: a fresh snapshot that keeps tokens, piles, hands and history but not the
      deck count, the final-turn count or the starting player; the action is applied to it and
      appended to the history. */
  function NextSnapshot(s: Snapshot, a: Action): (r: Result<Snapshot>)
    requires Valid(s) && WellFormed(s, a)
    ensures r.Ok? ==> Valid(r.value) && r.value.numPlayers == s.numPlayers && r.value.numSuits == s.numSuits
    ensures r.Ok? ==> r.value.actionHistory == s.actionHistory + [a]
    ensures r.Ok? ==> r.value.postDrawTurns == 0 && r.value.startPlayerIndex == Unknown
    ensures r.Ok? ==> r.value.numRemainingCards == (if a.Draw? then Unknown - 1 else Unknown)
  {
    var fork := s.(numRemainingCards := Unknown, postDrawTurns := 0, startPlayerIndex := Unknown);
    var t :- PerformAction(fork, a);
    Ok(t.(actionHistory := t.actionHistory + [a]))
  }
}
