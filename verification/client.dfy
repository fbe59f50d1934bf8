/** The older client-side tracker (`HanabiClient.handle_action` in src/hanabi_client.py): it keeps
    a lighter game state whose play stacks are a plain list, updates it from the server's game
    events, and classifies every clue it sees with `GameState.is_playable`. */
module Client {
  import opened Constants
  import opened Wrappers
  import opened Clues
  import opened Cards
  import opened Hands
  import opened Games
  import opened GameEvents

  /** The client's game state (`GameState`). */
  datatype ClientState = ClientState(
    clueTokens: int,
    playerHands: seq<seq<Card>>,
    playStacks: seq<int>,        // the highest rank played, per suit
    discardPile: seq<Card>,
    turn: int,
    currentPlayerIndex: int)

  /** A `gameAction` message from the server. `clueType` 1 is a rank clue, anything else a
      colour clue; a message of any other type is `OtherEvent`. */
  datatype Event =
    | DrawEvent(player: int, order: int, suit: int, rank: int)
    | PlayEvent(player: int, order: int, suit: int, rank: int)
    | DiscardEvent(player: int, order: int, suit: int, rank: int, failed: bool)
    | ClueEvent(clueType: int, value: int, giver: int, target: int, turn: int, touched: seq<int>)
    | TurnEvent(num: int, currentPlayer: int)
    | OtherEvent

  /** The indices `is_playable` may read from the stacks exist for this card. */
  predicate OnStacks(stacks: seq<int>, c: Card) {
    (c.finesseColor == Unknown || 0 <= c.finesseColor < |stacks|)
    && (c.suit == Unknown || 0 <= c.suit < |stacks|)
  }

  /** Five stacks, and every card in a hand indexes them safely. */
  predicate ClientValid(s: ClientState) {
    |s.playStacks| == StandardSuits
    && forall p, i :: 0 <= p < |s.playerHands| && 0 <= i < |s.playerHands[p]| ==>
         OnStacks(s.playStacks, s.playerHands[p][i])
  }

  /** The event's indices are those the server sends: existing players, a real suit for a
      played card, and a suit that is unknown or real for a drawn one. */
  predicate WellFormedEvent(s: ClientState, e: Event) {
    match e
    case DrawEvent(p, _, suit, _) => 0 <= p < |s.playerHands| && (suit == Unknown || 0 <= suit < StandardSuits)
    case PlayEvent(p, _, suit, _) => 0 <= p < |s.playerHands| && 0 <= suit < StandardSuits
    case DiscardEvent(p, _, _, _, _) => 0 <= p < |s.playerHands|
    case ClueEvent(_, _, _, target, _, _) => 0 <= target < |s.playerHands|
    case TurnEvent(_, _) => true
    case OtherEvent => true
  }

  // ---------------------------------------------------------------- GameState.is_playable

  /** `GameState.is_playable`: an unclued card is playable when its finesse identity is next on
      its stack; a card whose last clue is a play clue is playable; any other card is playable
      when its known identity is next on its stack. */
  function IsPlayableNow(stacks: seq<int>, c: Card): bool
    requires OnStacks(stacks, c)
  {
    if |c.clues| == 0 then
      c.finesseColor != Unknown && c.finesseRank != Unknown && stacks[c.finesseColor] + 1 == c.finesseRank
    else if c.clues[|c.clues| - 1].classification == PlayClue then true
    else c.suit != Unknown && c.rank != Unknown && stacks[c.suit] + 1 == c.rank
  }

  /** Receiving a play clue makes any card playable, whatever its identity. */
  lemma PlayClueMakesPlayable(stacks: seq<int>, c: Card, clue: Clue)
    requires OnStacks(stacks, c) && clue.classification == PlayClue
    ensures IsPlayableNow(stacks, AddClue(c, clue))
  {
  }

  /** Only the last clue is read: a later non-play clue hides an earlier play clue, so a card of
      unknown identity stops being playable. */
  lemma OnlyLastClueMatters(stacks: seq<int>, c: Card, clue: Clue)
    requires OnStacks(stacks, c) && clue.classification != PlayClue
    requires c.suit == Unknown || c.rank == Unknown
    ensures !IsPlayableNow(stacks, AddClue(c, clue))
  {
  }

  /** Two clued cards with the same identity and the same last clue are alike for the check,
      whatever their earlier clues. */
  lemma EarlierCluesIgnored(stacks: seq<int>, c: Card, d: Card)
    requires OnStacks(stacks, c) && OnStacks(stacks, d)
    requires |c.clues| > 0 && |d.clues| > 0 && c.clues[|c.clues| - 1] == d.clues[|d.clues| - 1]
    requires c.suit == d.suit && c.rank == d.rank
    ensures IsPlayableNow(stacks, c) == IsPlayableNow(stacks, d)
  {
  }

  /** Without clues or a finesse identity, nothing is playable. */
  lemma UnknownUncluedNotPlayable(stacks: seq<int>, c: Card)
    requires OnStacks(stacks, c) && |c.clues| == 0 && c.finesseColor == Unknown
    ensures !IsPlayableNow(stacks, c)
  {
  }

  // ---------------------------------------------------------------- remove_card_from_hand

  datatype Removed = Removed(card: Option<Card>, state: ClientState)

  /** `remove_card_from_hand`: takes the first card with `order` out of the player's hand; a
      missing order returns nothing and leaves the state as it was. */
  function RemoveCardFromHand(s: ClientState, player: int, order: int): (r: Removed)
    requires 0 <= player < |s.playerHands|
    ensures r.card.None? <==> !HasOrder(s.playerHands[player], order)
    ensures r.card.None? ==> r.state == s
    ensures r.state == s.(playerHands := r.state.playerHands)
    ensures |r.state.playerHands| == |s.playerHands|
    ensures r.card.Some? ==> r.card.value.order == order && (exists i ::
              0 <= i < |s.playerHands[player]| && s.playerHands[player][i] == r.card.value
              && r.state.playerHands[player] == s.playerHands[player][..i] + s.playerHands[player][i + 1..])
    ensures forall p :: 0 <= p < |s.playerHands| && p != player ==> r.state.playerHands[p] == s.playerHands[p]
  {
    var rm := RemoveCard(s.playerHands[player], order);
    if rm.card.None? then Removed(None, s)
    else Removed(rm.card, s.(playerHands := s.playerHands[player := rm.rest]))
  }

  // ---------------------------------------------------------------- clue classification

  function HintOf(clueType: int): HintType {
    if clueType == 1 then Rank else Color
  }

  /** The clue object built from a clue event, not yet classified. */
  function EventClue(e: Event): (c: Clue)
    requires e.ClueEvent?
    ensures c.receiver == e.target && c.touchedOrders == e.touched && c.classification == Unset
  {
    Clue(HintOf(e.clueType), e.value, e.giver, e.target, e.turn, Unset, e.touched)
  }

  /** Position of the newest double-clued card: the last entry of `double_clued_cards`. */
  function NewestDouble(hand: seq<Card>, clue: Clue): (r: Option<nat>)
    ensures r.None? <==> forall i :: 0 <= i < |hand| ==> !DoubleTouched(clue, hand[i])
    ensures r.Some? ==> r.value < |hand| && DoubleTouched(clue, hand[r.value])
    ensures r.Some? ==> forall i :: r.value < i < |hand| ==> !DoubleTouched(clue, hand[i])
  {
    if |hand| == 0 then None
    else
      var k := |hand| - 1;
      if DoubleTouched(clue, hand[k]) then Some(k)
      else
        assert forall i :: 0 <= i < k ==> hand[..k][i] == hand[i];
        NewestDouble(hand[..k], clue)
  }

  /** One step of `double_clued_cards`: the last card is listed last exactly when it is double
      clued. */
  lemma DoubleCluedStep(hand: seq<Card>, clue: Clue)
    requires |hand| > 0
    ensures DoubleCluedCards(hand, clue) == DoubleCluedCards(hand[..|hand| - 1], clue)
      + (if DoubleTouched(clue, hand[|hand| - 1]) then [hand[|hand| - 1]] else [])
  {
  }

  /** The newest double-clued card is the last one `double_clued_cards` lists. */
  lemma {:induction false} NewestDoubleIsLastListed(hand: seq<Card>, clue: Clue)
    ensures NewestDouble(hand, clue).None? <==> |DoubleCluedCards(hand, clue)| == 0
    ensures NewestDouble(hand, clue).Some? ==>
      DoubleCluedCards(hand, clue)[|DoubleCluedCards(hand, clue)| - 1] == hand[NewestDouble(hand, clue).value]
  {
    if |hand| > 0 {
      var k := |hand| - 1;
      var init := hand[..k];
      DoubleCluedStep(hand, clue);
      if !DoubleTouched(clue, hand[k]) {
        NewestDoubleIsLastListed(init, clue);
        var d := NewestDouble(init, clue);
        if d.Some? {
          assert init[d.value] == hand[d.value];
        }
      }
    }
  }

  /** The receiver's discard slot is touched by a rank clue naming 5 or the rank of some
      discarded card. */
  predicate IsClientSave(s: ClientState, clue: Clue)
    requires 0 <= clue.receiver < |s.playerHands|
  {
    var hand := s.playerHands[clue.receiver];
    match CurrentDiscardSlot(hand)
    case None => false
    case Some(k) =>
      Touched(clue, hand[k]) && clue.hintType == Rank
      && (clue.hintValue == MaxRank || exists i :: 0 <= i < |s.discardPile| && s.discardPile[i].rank == clue.hintValue)
  }

  /** A save in which the newest double-clued card `k` is playable: it alone gets a play clue,
      the other touched cards a save clue, and a card sharing its order is left alone. */
  function SaveFocusHand(hand: seq<Card>, clue: Clue, k: nat): (r: seq<Card>)
    requires k < |hand|
    ensures |r| == |hand|
    ensures r[k] == AddClue(hand[k], clue.(classification := PlayClue))
    ensures forall i :: 0 <= i < |hand| && i != k ==> r[i] == MarkCard(hand[i], clue, [], [hand[k].order])
  {
    MarkHand(hand, clue, [], [hand[k].order])[k := AddClue(hand[k], clue.(classification := PlayClue))]
  }

  /** The order of a play clue's focus: the newest double-clued card when the clue makes it
      playable, otherwise the newest touched order. */
  function ClientFocus(stacks: seq<int>, hand: seq<Card>, clue: Clue): (f: int)
    requires |clue.touchedOrders| > 0
    requires forall i :: 0 <= i < |hand| ==> OnStacks(stacks, hand[i])
    ensures f in clue.touchedOrders
  {
    match NewestDouble(hand, clue)
    case Some(k) =>
      assert OnStacks(stacks, hand[k]);
      if IsPlayableNow(stacks, AddClue(hand[k], clue)) then hand[k].order else MaxOf(clue.touchedOrders)
    case None => MaxOf(clue.touchedOrders)
  }

  /** The receiver's hand after a clue event is classified; `max()` of an empty touched list
      raises. */
  function ClientClueHand(s: ClientState, clue: Clue): (r: Result<seq<Card>>)
    requires ClientValid(s) && 0 <= clue.receiver < |s.playerHands|
    ensures r.Err? <==> !IsRankOne(clue) && !IsClientSave(s, clue) && |clue.touchedOrders| == 0
    ensures r.Err? ==> r.error == EmptyClue
    ensures r.Ok? ==> |r.value| == |s.playerHands[clue.receiver]|
    ensures r.Ok? ==> forall i :: 0 <= i < |r.value| ==> SameIdentity(r.value[i], s.playerHands[clue.receiver][i])
    ensures r.Ok? ==> forall i :: 0 <= i < |r.value| && !Touched(clue, s.playerHands[clue.receiver][i]) ==>
              r.value[i] == AddNegativeInfo(s.playerHands[clue.receiver][i], clue)
  {
    var hand := s.playerHands[clue.receiver];
    if IsRankOne(clue) then
      MarkHandIdentity(hand, clue, clue.touchedOrders, []);
      Ok(MarkHand(hand, clue, clue.touchedOrders, []))
    else if IsClientSave(s, clue) then Ok(ClientSaveHand(s.playStacks, hand, clue))
    else if |clue.touchedOrders| == 0 then Err(EmptyClue)
    else
      var f := ClientFocus(s.playStacks, hand, clue);
      MarkHandIdentity(hand, clue, [f], []);
      Ok(MarkHand(hand, clue, [f], []))
  }

  /** The receiver's hand after a save: `SaveFocusHand` when the newest double-clued card is
      playable, otherwise every touched card takes a save clue. */
  function ClientSaveHand(stacks: seq<int>, hand: seq<Card>, clue: Clue): (r: seq<Card>)
    requires forall i :: 0 <= i < |hand| ==> OnStacks(stacks, hand[i])
    ensures |r| == |hand|
    ensures forall i :: 0 <= i < |hand| ==> SameIdentity(r[i], hand[i])
    ensures forall i :: 0 <= i < |hand| && !Touched(clue, hand[i]) ==> r[i] == AddNegativeInfo(hand[i], clue)
  {
    var d := NewestDouble(hand, clue);
    if d.Some? && IsPlayableNow(stacks, hand[d.value]) then
      MarkHandIdentity(hand, clue, [], [hand[d.value].order]);
      SaveFocusHand(hand, clue, d.value)
    else
      MarkHandIdentity(hand, clue, [], []);
      MarkHand(hand, clue, [], [])
  }

  /** In a save every touched card takes a save clue, except the newest double-clued card when
      it is already playable, which takes a play clue. */
  lemma SaveHandMarks(stacks: seq<int>, hand: seq<Card>, clue: Clue, i: int)
    requires forall i :: 0 <= i < |hand| ==> OnStacks(stacks, hand[i])
    requires DistinctOrders(hand) && 0 <= i < |hand| && Touched(clue, hand[i])
    ensures ClientSaveHand(stacks, hand, clue)[i] == AddClue(hand[i], clue.(classification :=
      if NewestDouble(hand, clue) == Some(i) && IsPlayableNow(stacks, hand[i]) then PlayClue else SaveClue))
  {
    var d := NewestDouble(hand, clue);
    if d.Some? && IsPlayableNow(stacks, hand[d.value]) && d.value != i {
      assert hand[i].order != hand[d.value].order;
      assert ClientSaveHand(stacks, hand, clue)[i] == MarkCard(hand[i], clue, [], [hand[d.value].order]);
    }
  }

  /** A 1s clue is a play clue on every card it touches. */
  lemma ClientRankOneMarks(s: ClientState, clue: Clue, i: int)
    requires ClientValid(s) && 0 <= clue.receiver < |s.playerHands| && IsRankOne(clue)
    requires 0 <= i < |s.playerHands[clue.receiver]| && Touched(clue, s.playerHands[clue.receiver][i])
    ensures ClientClueHand(s, clue).Ok?
    ensures ClientClueHand(s, clue).value[i] == AddClue(s.playerHands[clue.receiver][i], clue.(classification := PlayClue))
  {
  }

  /** A save marks every touched card with a save clue, except the newest double-clued card when
      it is already playable, which gets a play clue. */
  lemma ClientSaveMarks(s: ClientState, clue: Clue, i: int)
    requires ClientValid(s) && 0 <= clue.receiver < |s.playerHands|
    requires !IsRankOne(clue) && IsClientSave(s, clue) && DistinctOrders(s.playerHands[clue.receiver])
    requires 0 <= i < |s.playerHands[clue.receiver]| && Touched(clue, s.playerHands[clue.receiver][i])
    ensures ClientClueHand(s, clue).Ok?
    ensures ClientClueHand(s, clue).value[i] == AddClue(s.playerHands[clue.receiver][i], clue.(classification :=
      if NewestDouble(s.playerHands[clue.receiver], clue) == Some(i)
         && IsPlayableNow(s.playStacks, s.playerHands[clue.receiver][i]) then PlayClue else SaveClue))
  {
    SaveHandMarks(s.playStacks, s.playerHands[clue.receiver], clue, i);
  }

  /** Outside 1s clues and saves, the touched card whose order is the focus gets a play clue and
      every other touched card a save clue. */
  lemma ClientPlayMarks(s: ClientState, clue: Clue, i: int)
    requires ClientValid(s) && 0 <= clue.receiver < |s.playerHands|
    requires !IsRankOne(clue) && !IsClientSave(s, clue) && |clue.touchedOrders| > 0
    requires 0 <= i < |s.playerHands[clue.receiver]| && Touched(clue, s.playerHands[clue.receiver][i])
    ensures ClientClueHand(s, clue).Ok?
    ensures ClientClueHand(s, clue).value[i] == AddClue(s.playerHands[clue.receiver][i], clue.(classification :=
      if s.playerHands[clue.receiver][i].order == ClientFocus(s.playStacks, s.playerHands[clue.receiver], clue)
      then PlayClue else SaveClue))
  {
  }

  /** A play clue that makes the newest double-clued card playable is focused on that card. */
  lemma ClientFocusOnNewlyPlayable(s: ClientState, clue: Clue, k: nat)
    requires ClientValid(s) && 0 <= clue.receiver < |s.playerHands| && |clue.touchedOrders| > 0
    requires NewestDouble(s.playerHands[clue.receiver], clue) == Some(k)
    requires IsPlayableNow(s.playStacks, AddClue(s.playerHands[clue.receiver][k], clue))
    ensures ClientFocus(s.playStacks, s.playerHands[clue.receiver], clue) == s.playerHands[clue.receiver][k].order
  {
  }

  /** Otherwise the focus is the newest touched order. */
  lemma ClientFocusDefault(s: ClientState, clue: Clue)
    requires ClientValid(s) && 0 <= clue.receiver < |s.playerHands| && |clue.touchedOrders| > 0
    requires forall k :: 0 <= k < |s.playerHands[clue.receiver]| && NewestDouble(s.playerHands[clue.receiver], clue) == Some(k) ==>
      !IsPlayableNow(s.playStacks, AddClue(s.playerHands[clue.receiver][k], clue))
    ensures forall x :: x in clue.touchedOrders ==> x <= ClientFocus(s.playStacks, s.playerHands[clue.receiver], clue)
  {
  }

  // ---------------------------------------------------------------- handle_action

  /** A draw appends the new card to the drawer's hand. */
  function ClientDraw(s: ClientState, p: int, c: Card): (r: ClientState)
    requires ClientValid(s) && 0 <= p < |s.playerHands| && OnStacks(s.playStacks, c)
    ensures ClientValid(r)
    ensures r == s.(playerHands := s.playerHands[p := s.playerHands[p] + [c]])
  {
    s.(playerHands := s.playerHands[p := s.playerHands[p] + [c]])
  }

  /** Taking a card out of a hand keeps the state valid. */
  lemma RemoveKeepsClientValid(s: ClientState, p: int, order: int)
    requires ClientValid(s) && 0 <= p < |s.playerHands|
    ensures ClientValid(RemoveCardFromHand(s, p, order).state)
  {
    var rm := RemoveCardFromHand(s, p, order);
    forall q, i | 0 <= q < |rm.state.playerHands| && 0 <= i < |rm.state.playerHands[q]|
      ensures OnStacks(s.playStacks, rm.state.playerHands[q][i])
    {
      if q == p && rm.card.Some? {
        var h := s.playerHands[p];
        var j :| 0 <= j < |h| && h[j] == rm.card.value && rm.state.playerHands[p] == h[..j] + h[j + 1..];
        if i < j {
          assert rm.state.playerHands[p][i] == h[i];
        } else {
          assert rm.state.playerHands[p][i] == h[i + 1];
        }
      }
    }
  }

  /** A successful play takes the card out and sets its suit's stack to the played rank. */
  function ClientPlay(s: ClientState, p: int, order: int, suit: int, rank: int): (r: ClientState)
    requires ClientValid(s) && 0 <= p < |s.playerHands| && 0 <= suit < StandardSuits
    ensures ClientValid(r) && |r.playerHands| == |s.playerHands|
    ensures r.playerHands == RemoveCardFromHand(s, p, order).state.playerHands
    ensures r.playStacks == if RemoveCardFromHand(s, p, order).card.Some? then s.playStacks[suit := rank] else s.playStacks
    ensures r.clueTokens == s.clueTokens && r.discardPile == s.discardPile
    ensures r.turn == s.turn && r.currentPlayerIndex == s.currentPlayerIndex
  {
    var rm := RemoveCardFromHand(s, p, order);
    RemoveKeepsClientValid(s, p, order);
    if rm.card.Some? then rm.state.(playStacks := s.playStacks[suit := rank]) else rm.state
  }

  /** A discard (or misplay) moves the card, revealed, to the discard pile, and gives a token
      back unless the event is a failed play. */
  function ClientDiscard(s: ClientState, p: int, order: int, suit: int, rank: int, failed: bool): (r: ClientState)
    requires ClientValid(s) && 0 <= p < |s.playerHands|
    ensures ClientValid(r) && |r.playerHands| == |s.playerHands|
    ensures r.playerHands == RemoveCardFromHand(s, p, order).state.playerHands
    ensures r.clueTokens == s.clueTokens + (if failed then 0 else 1)
    ensures r.discardPile == s.discardPile + (
              var rm := RemoveCardFromHand(s, p, order);
              if rm.card.Some? then [rm.card.value.(rank := rank, suit := suit)] else [])
    ensures r.playStacks == s.playStacks && r.turn == s.turn && r.currentPlayerIndex == s.currentPlayerIndex
  {
    var rm := RemoveCardFromHand(s, p, order);
    RemoveKeepsClientValid(s, p, order);
    var t := if rm.card.Some? then rm.state.(discardPile := s.discardPile + [rm.card.value.(rank := rank, suit := suit)])
             else rm.state;
    if failed then t else t.(clueTokens := t.clueTokens + 1)
  }

  /** A clue event costs one token and replaces the receiver's hand by its classified copy. */
  function ClientClue(s: ClientState, clue: Clue): (r: Result<ClientState>)
    requires ClientValid(s) && 0 <= clue.receiver < |s.playerHands|
    ensures r.Err? <==> ClientClueHand(s, clue).Err?
    ensures r.Err? ==> r.error == EmptyClue
    ensures r.Ok? ==> ClientValid(r.value)
    ensures r.Ok? ==> r.value == s.(clueTokens := s.clueTokens - 1,
                                    playerHands := s.playerHands[clue.receiver := ClientClueHand(s, clue).value])
  {
    var hand :- ClientClueHand(s, clue);
    var t := s.(clueTokens := s.clueTokens - 1, playerHands := s.playerHands[clue.receiver := hand]);
    assert forall i :: 0 <= i < |hand| ==> OnStacks(s.playStacks, s.playerHands[clue.receiver][i]);
    Ok(t)
  }

  /** `handle_action`: applies one server event to the client's state. */
  function HandleEvent(s: ClientState, e: Event): (r: Result<ClientState>)
    requires ClientValid(s) && WellFormedEvent(s, e)
    ensures r.Ok? ==> ClientValid(r.value) && |r.value.playerHands| == |s.playerHands|
    ensures r.Err? <==> e.ClueEvent? && ClientClueHand(s, EventClue(e)).Err?
    ensures e.DrawEvent? ==> r == Ok(s.(playerHands := s.playerHands[e.player :=
              s.playerHands[e.player] + [NewCard(e.order, e.suit, e.rank)]]))
    ensures e.PlayEvent? ==>
              r.Ok? && (var rm := RemoveCardFromHand(s, e.player, e.order);
              r.value == rm.state.(playStacks := if rm.card.Some? then s.playStacks[e.suit := e.rank] else s.playStacks))
    ensures e.DiscardEvent? ==>
              r.Ok? && (var rm := RemoveCardFromHand(s, e.player, e.order);
              r.value.playerHands == rm.state.playerHands
              && r.value.clueTokens == s.clueTokens + (if e.failed then 0 else 1)
              && r.value.discardPile == s.discardPile + (if rm.card.Some? then [rm.card.value.(rank := e.rank, suit := e.suit)] else [])
              && r.value.playStacks == s.playStacks && r.value.turn == s.turn
              && r.value.currentPlayerIndex == s.currentPlayerIndex)
    ensures e.ClueEvent? && r.Ok? ==>
              r.value == s.(clueTokens := s.clueTokens - 1,
                            playerHands := s.playerHands[e.target := ClientClueHand(s, EventClue(e)).value])
    ensures e.TurnEvent? ==> r == Ok(s.(turn := e.num, currentPlayerIndex := e.currentPlayer))
    ensures e.OtherEvent? ==> r == Ok(s)
  {
    match e
    case DrawEvent(p, order, suit, rank) => Ok(ClientDraw(s, p, NewCard(order, suit, rank)))
    case PlayEvent(p, order, suit, rank) => Ok(ClientPlay(s, p, order, suit, rank))
    case DiscardEvent(p, order, suit, rank, failed) => Ok(ClientDiscard(s, p, order, suit, rank, failed))
    case ClueEvent(_, _, _, _, _, _) => ClientClue(s, EventClue(e))
    case TurnEvent(num, cp) => Ok(s.(turn := num, currentPlayerIndex := cp))
    case OtherEvent => Ok(s)
  }

  /** Every clue event that goes through costs exactly one clue token and changes only the
      receiver's hand. */
  lemma ClueCostsOneToken(s: ClientState, e: Event)
    requires ClientValid(s) && WellFormedEvent(s, e) && e.ClueEvent? && |e.touched| > 0
    ensures HandleEvent(s, e).Ok?
    ensures HandleEvent(s, e).value.clueTokens == s.clueTokens - 1
    ensures forall p :: 0 <= p < |s.playerHands| && p != e.target ==> HandleEvent(s, e).value.playerHands[p] == s.playerHands[p]
    ensures HandleEvent(s, e).value.playStacks == s.playStacks && HandleEvent(s, e).value.discardPile == s.discardPile
  {
  }

  // ---------------------------------------------------------------- the handler as written

  /** The handler run on the `GameState` the client actually creates: that class has no
      `current_discard_slot` (nor `double_clued_cards`), so every clue event other than a 1s
      clue raises once it reaches the save check. */
  function HandleEventOnGameState(s: ClientState, e: Event): (r: Result<ClientState>)
    requires ClientValid(s) && WellFormedEvent(s, e)
    ensures e.ClueEvent? && !IsRankOne(EventClue(e)) ==> r == Err(MissingMethod)
    ensures !e.ClueEvent? || IsRankOne(EventClue(e)) ==> r == HandleEvent(s, e)
  {
    if e.ClueEvent? && !IsRankOne(EventClue(e)) then Err(MissingMethod) else HandleEvent(s, e)
  }

  /** A 5s save clue, which the corrected handler classifies, raises as written. */
  lemma FiveSaveRaisesOnGameState(s: ClientState, target: int, order: int)
    requires ClientValid(s) && 0 <= target < |s.playerHands|
    ensures HandleEventOnGameState(s, ClueEvent(1, 5, 0, target, 0, [order])) == Err(MissingMethod)
    ensures HandleEvent(s, ClueEvent(1, 5, 0, target, 0, [order])).Ok?
  {
  }
}
