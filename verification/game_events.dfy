/** How the game tracker updates itself when an action arrives (`Game.handle_*` in src/game.py):
    token and pile accounting for plays, discards and misplays, and the play/save
    classification of every received clue. */
module GameEvents {
  import opened Constants
  import opened Wrappers
  import opened Clues
  import opened Cards
  import opened Actions
  import opened Hands
  import opened Tables
  import opened Games

  /** The action can be applied to the game: the acting player and the clue receiver exist,
      played and discarded cards carry the identity the server showed, drawn cards are in range. */
  predicate WellFormedAction(g: Game, a: Action) {
    match a
    case Play(p, card, _) => 0 <= p < |g.playerHands| && Revealed(card)
    case Discard(p, card) => 0 <= p < |g.playerHands| && Revealed(card)
    case Draw(p, card) => 0 <= p < |g.playerHands| && CardInRange(card, StandardSuits)
    case GiveClue(_, clue) => 0 <= clue.receiver < |g.playerHands|
  }

  /** Cards on the table: in the hands and in both piles. */
  function Total(g: Game): nat {
    |g.playPile| + |g.discardPile| + CardsInHands(g.playerHands)
  }

  /** Removing a card leaves the other hand cards in range. */
  lemma RemoveKeepsRange(g: Game, player: int, order: int)
    requires Valid(g) && 0 <= player < |g.playerHands|
    ensures Valid(RemoveCardFromHand(g, player, order).game)
  {
    RemovalInRange(g.playerHands[player], order, StandardSuits);
  }

  // ---------------------------------------------------------------- draws and moves

  /** `handle_draw`: the drawn card goes to the end of the player's hand. */
  function HandleDraw(g: Game, player: int, card: Card): (r: Game)
    requires 0 <= player < |g.playerHands|
    ensures |r.playerHands| == |g.playerHands|
    ensures r.playerHands[player] == g.playerHands[player] + [card]
    ensures forall p :: 0 <= p < |g.playerHands| && p != player ==> r.playerHands[p] == g.playerHands[p]
    ensures r.actionHistory == g.actionHistory + [Draw(player, card)]
    ensures r.(playerHands := g.playerHands, actionHistory := g.actionHistory) == g
    ensures Total(r) == Total(g) + 1
  {
    CardsInHandsUpdate(g.playerHands, player, g.playerHands[player] + [card]);
    g.(playerHands := g.playerHands[player := g.playerHands[player] + [card]],
       actionHistory := g.actionHistory + [Draw(player, card)])
  }

  /** Drawing a card in range keeps the game valid. */
  lemma DrawKeepsValid(g: Game, player: int, card: Card)
    requires Valid(g) && 0 <= player < |g.playerHands| && CardInRange(card, StandardSuits)
    ensures Valid(HandleDraw(g, player, card))
  {
    var r := HandleDraw(g, player, card);
    assert forall i :: 0 <= i < |g.playerHands[player]| ==> r.playerHands[player][i] == g.playerHands[player][i];
  }

  /** The card as it reaches a pile: the held copy, with the identity the server showed. */
  function Reveal(held: Card, shown: Card): (c: Card)
    ensures c.rank == shown.rank && c.suit == shown.suit
    ensures c.(rank := held.rank, suit := held.suit) == held
  {
    held.(rank := shown.rank, suit := shown.suit)
  }

  /** The three ways a card leaves a hand. */
  datatype Move = Played | Discarded | Boomed

  /** The action as the history records it, with the revealed card. */
  function Recorded(player: int, c: Card, move: Move): Action {
    match move
    case Played => Play(player, c, false)
    case Discarded => Discard(player, c)
    case Boomed => Play(player, c, true)
  }

  /** `handle_play`, `handle_discard` and `handle_boom`: the card leaves the hand, is revealed and
      goes to its pile; a discard earns a clue token, a misplay costs a boom token; the action is
      recorded with the revealed card. A card missing from the hand raises. */
  function HandleMove(g: Game, player: int, shown: Card, move: Move): (r: Result<Game>)
    requires Valid(g) && 0 <= player < |g.playerHands| && Revealed(shown)
    ensures r.Err? <==> !HasOrder(g.playerHands[player], shown.order)
    ensures r.Err? ==> r.error == CardNotFound
    ensures r.Ok? ==> Valid(r.value) && Total(r.value) == Total(g)
    ensures r.Ok? ==> |r.value.playerHands| == |g.playerHands|
    ensures r.Ok? ==> |r.value.playerHands[player]| + 1 == |g.playerHands[player]|
    ensures r.Ok? ==> forall p :: 0 <= p < |g.playerHands| && p != player ==> r.value.playerHands[p] == g.playerHands[p]
    ensures r.Ok? ==> r.value.playerHands == g.playerHands[player := RemoveCard(g.playerHands[player], shown.order).rest]
    ensures r.Ok? ==> r.value.numPlayers == g.numPlayers && r.value.ourPlayerIndex == g.ourPlayerIndex
    ensures r.Ok? ==> r.value.clueTokens == g.clueTokens + (if move == Discarded then 1 else 0)
    ensures r.Ok? ==> r.value.boomTokens == g.boomTokens - (if move == Boomed then 1 else 0)
    ensures r.Ok? && move == Played ==>
      r.value.discardPile == g.discardPile && |r.value.playPile| == |g.playPile| + 1
      && r.value.playPile[..|g.playPile|] == g.playPile
    ensures r.Ok? && move != Played ==>
      r.value.playPile == g.playPile && |r.value.discardPile| == |g.discardPile| + 1
      && r.value.discardPile[..|g.discardPile|] == g.discardPile
    ensures r.Ok? ==> exists c :: (c in g.playerHands[player] && c.order == shown.order
                                   && r.value.actionHistory == g.actionHistory + [Recorded(player, Reveal(c, shown), move)]
                                   && (move == Played ==> r.value.playPile == g.playPile + [Reveal(c, shown)])
                                   && (move != Played ==> r.value.discardPile == g.discardPile + [Reveal(c, shown)]))
  {
    var t := RemoveCardFromHand(g, player, shown.order);
    match t.card
    case None => Err(CardNotFound)
    case Some(held) =>
      RemoveKeepsRange(g, player, shown.order);
      CardsInHandsUpdate(g.playerHands, player, t.game.playerHands[player]);
      var c := Reveal(held, shown);
      var h := t.game.(actionHistory := t.game.actionHistory + [Recorded(player, c, move)]);
      Ok(PutOnPile(h, c, move))
  }

  /** The revealed card goes to the play pile or the discard pile, with its token effect. */
  function PutOnPile(h: Game, c: Card, move: Move): (r: Game)
    requires Valid(h) && Revealed(c)
    ensures Valid(r) && Total(r) == Total(h) + 1
    ensures r.(clueTokens := h.clueTokens, boomTokens := h.boomTokens, playPile := h.playPile,
               discardPile := h.discardPile) == h
    ensures r.clueTokens == h.clueTokens + (if move == Discarded then 1 else 0)
    ensures r.boomTokens == h.boomTokens - (if move == Boomed then 1 else 0)
    ensures move == Played ==> r.playPile == h.playPile + [c] && r.discardPile == h.discardPile
    ensures move != Played ==> r.discardPile == h.discardPile + [c] && r.playPile == h.playPile
  {
    match move
    case Played => h.(playPile := h.playPile + [c])
    case Discarded => h.(discardPile := h.discardPile + [c], clueTokens := h.clueTokens + 1)
    case Boomed => h.(discardPile := h.discardPile + [c], boomTokens := h.boomTokens - 1)
  }

  // ---------------------------------------------------------------- clue marking

  /** One receiver card after a clue: an untouched card learns what it is not; a touched card
      not in `skip` stores the clue, as a play clue when its order is in `focus`, else as a save. */
  function MarkCard(c: Card, clue: Clue, focus: seq<int>, skip: seq<int>): Card {
    if !Touched(clue, c) then AddNegativeInfo(c, clue)
    else if c.order in skip then c
    else AddClue(c, clue.(classification := if c.order in focus then PlayClue else SaveClue))
  }

  function MarkHand(hand: seq<Card>, clue: Clue, focus: seq<int>, skip: seq<int>): (r: seq<Card>)
    ensures |r| == |hand|
    ensures forall i :: 0 <= i < |hand| ==> r[i] == MarkCard(hand[i], clue, focus, skip)
  {
    seq(|hand|, i requires 0 <= i < |hand| => MarkCard(hand[i], clue, focus, skip))
  }

  /** The classification the clue object is left with after the marking loop: that of the
      last touched card of the hand, or `other` when the hand has no touched card. */
  function LastMarkedClass(hand: seq<Card>, clue: Clue, focus: seq<int>, other: Classification): (k: Classification)
    ensures (forall i :: 0 <= i < |hand| ==> !Touched(clue, hand[i])) ==> k == other
    ensures (exists i :: 0 <= i < |hand| && Touched(clue, hand[i])) ==> k == PlayClue || k == SaveClue
  {
    if |hand| == 0 then other
    else
      var c := hand[|hand| - 1];
      if Touched(clue, c) then (if c.order in focus then PlayClue else SaveClue)
      else
        assert forall i :: 0 <= i < |hand| - 1 ==> hand[..|hand| - 1][i] == hand[i];
        LastMarkedClass(hand[..|hand| - 1], clue, focus, other)
  }

  /** State of the scan over double-clued cards: the hand so far, the clue object as it now
      stands, and the orders of the cards that became newly playable. */
  datatype Sweep = Sweep(hand: seq<Card>, clue: Clue, added: seq<int>)

  /** The scan of the double-clued cards: a card that was not playable and would be with this
      clue gets it, classified as a play clue; from then on the clue object stays a play clue. */
  function Promote(g: Game, hand: seq<Card>, clue: Clue): (r: Sweep)
    requires Valid(g) && AllInRange(hand, StandardSuits)
    ensures |r.hand| == |hand|
    ensures r.clue == if |r.added| == 0 then clue else clue.(classification := PlayClue)
    ensures |r.added| == 0 ==> r.hand == hand
  {
    if |hand| == 0 then Sweep([], clue, [])
    else
      var k := |hand| - 1;
      assert forall i :: 0 <= i < k ==> hand[..k][i] == hand[i];
      var p := Promote(g, hand[..k], clue);
      var c := hand[k];
      if Promotes(g, c, p.clue) then
        var pc := clue.(classification := PlayClue);
        Sweep(p.hand + [AddClue(c, pc)], pc, p.added + [c.order])
      else
        Sweep(p.hand + [c], p.clue, p.added)
  }

  /** The scan's test on one card, with the clue object as it stands. */
  predicate Promotes(g: Game, c: Card, current: Clue)
    requires Valid(g) && CardInRange(c, StandardSuits)
  {
    DoubleTouched(current, c) && !IsPlayable(g, c) && IsPlayable(g, AddClue(c, current))
  }

  /** A card the scan changes was a double-clued card that was not playable; it now holds the
      clue as a play clue and its order is recorded. */
  lemma {:induction false} PromoteChanges(g: Game, hand: seq<Card>, clue: Clue, i: int)
    requires Valid(g) && AllInRange(hand, StandardSuits) && 0 <= i < |hand|
    ensures Promote(g, hand, clue).hand[i] == hand[i]
      || (Promote(g, hand, clue).hand[i] == AddClue(hand[i], clue.(classification := PlayClue))
          && hand[i].order in Promote(g, hand, clue).added
          && DoubleTouched(clue, hand[i]) && !IsPlayable(g, hand[i]))
  {
    var k := |hand| - 1;
    assert forall j :: 0 <= j < k ==> hand[..k][j] == hand[j];
    var p := Promote(g, hand[..k], clue);
    if i < k {
      PromoteChanges(g, hand[..k], clue, i);
      assert Promote(g, hand, clue).hand[i] == p.hand[i];
    }
  }

  /** Every recorded order belongs to a card the scan changed. */
  lemma {:induction false} PromoteAdded(g: Game, hand: seq<Card>, clue: Clue, o: int)
    requires Valid(g) && AllInRange(hand, StandardSuits) && o in Promote(g, hand, clue).added
    ensures exists i :: 0 <= i < |hand| && hand[i].order == o && Promote(g, hand, clue).hand[i] != hand[i]
  {
    var k := |hand| - 1;
    assert forall j :: 0 <= j < k ==> hand[..k][j] == hand[j];
    var p := Promote(g, hand[..k], clue);
    if o in p.added {
      PromoteAdded(g, hand[..k], clue, o);
      var i :| 0 <= i < k && hand[..k][i].order == o && p.hand[i] != hand[..k][i];
      assert Promote(g, hand, clue).hand[i] == p.hand[i];
    } else {
      assert Promote(g, hand, clue).hand[k] != hand[k];
    }
  }

  /** When the scan records nothing, no double-clued card becomes playable with the clue. */
  lemma {:induction false} PromoteNone(g: Game, hand: seq<Card>, clue: Clue, i: int)
    requires Valid(g) && AllInRange(hand, StandardSuits) && 0 <= i < |hand|
    requires |Promote(g, hand, clue).added| == 0
    requires DoubleTouched(clue, hand[i]) && !IsPlayable(g, hand[i])
    ensures !IsPlayable(g, AddClue(hand[i], clue))
  {
    var k := |hand| - 1;
    assert forall j :: 0 <= j < k ==> hand[..k][j] == hand[j];
    if i < k {
      PromoteNone(g, hand[..k], clue, i);
    }
  }

  /** The orders the double-clued scan turns into play clues. */
  function NewlyPlayable(g: Game, hand: seq<Card>, clue: Clue): seq<int>
    requires Valid(g) && AllInRange(hand, StandardSuits)
  {
    Promote(g, hand, clue).added
  }

  /** Every order the scan records is that of a double-clued card that was not yet playable. */
  lemma NewlyPlayableWereDouble(g: Game, hand: seq<Card>, clue: Clue)
    requires Valid(g) && AllInRange(hand, StandardSuits)
    ensures forall o :: o in NewlyPlayable(g, hand, clue) ==>
      exists i :: (0 <= i < |hand| && hand[i].order == o && DoubleTouched(clue, hand[i]) && !IsPlayable(g, hand[i]))
  {
    forall o | o in NewlyPlayable(g, hand, clue)
      ensures exists i :: (0 <= i < |hand| && hand[i].order == o && DoubleTouched(clue, hand[i]) && !IsPlayable(g, hand[i]))
    {
      PromoteAdded(g, hand, clue, o);
      var i :| 0 <= i < |hand| && hand[i].order == o && Promote(g, hand, clue).hand[i] != hand[i];
      PromoteChanges(g, hand, clue, i);
    }
  }

  /** The scan leaves every untouched card as it was. */
  lemma PromoteKeepsUntouched(g: Game, hand: seq<Card>, clue: Clue)
    requires Valid(g) && AllInRange(hand, StandardSuits)
    ensures forall i :: 0 <= i < |hand| && !Touched(clue, hand[i]) ==> Promote(g, hand, clue).hand[i] == hand[i]
    ensures forall i :: 0 <= i < |hand| ==> SameIdentity(Promote(g, hand, clue).hand[i], hand[i])
  {
    forall i | 0 <= i < |hand|
      ensures !Touched(clue, hand[i]) ==> Promote(g, hand, clue).hand[i] == hand[i]
      ensures SameIdentity(Promote(g, hand, clue).hand[i], hand[i])
    {
      PromoteChanges(g, hand, clue, i);
    }
  }

  /** Suits of the critical discards of the clued rank: the only suits a saved card may be. */
  function SaveSuits(critical: seq<Card>, rank: int): (r: seq<int>)
    ensures forall s :: s in r <==> exists d :: d in critical && d.rank == rank && d.suit == s
  {
    if |critical| == 0 then []
    else
      var k := |critical| - 1;
      assert critical == critical[..k] + [critical[k]];
      SaveSuits(critical[..k], rank) + (if critical[k].rank == rank then [critical[k].suit] else [])
  }

  /** Records that the card is none of the suits 0..4 from `from` on that are not in `suits`. */
  function ExcludeSuits(c: Card, suits: seq<int>, from: nat): (r: Card)
    requires from <= StandardSuits
    ensures SameIdentity(r, c) && r.clues == c.clues && r.status == c.status
    ensures r.negativeRanks == c.negativeRanks
    ensures |r.negativeColors| >= |c.negativeColors| && r.negativeColors[..|c.negativeColors|] == c.negativeColors
    ensures forall s :: s in r.negativeColors[|c.negativeColors|..] <==> from <= s < StandardSuits && s !in suits
    decreases StandardSuits - from
  {
    if from == StandardSuits then c
    else
      var next := if from in suits then c else AddNegativeSuit(c, from);
      var r := ExcludeSuits(next, suits, from + 1);
      assert r.negativeColors[..|c.negativeColors|] == next.negativeColors[..|c.negativeColors|];
      assert from !in suits ==> r.negativeColors[|c.negativeColors|..] == [from] + r.negativeColors[|next.negativeColors|..];
      r
  }

  /** The largest value of a non-empty list (`max`). */
  function MaxOf(xs: seq<int>): (m: int)
    requires |xs| > 0
    ensures m in xs && forall x :: x in xs ==> x <= m
  {
    if |xs| == 1 then xs[0]
    else
      var m := MaxOf(xs[1..]);
      assert xs == [xs[0]] + xs[1..];
      if xs[0] > m then xs[0] else m
  }

  predicate IsRankOne(clue: Clue) {
    clue.hintType == Rank && clue.hintValue == 1
  }

  /** A rank clue touching the receiver's discard slot, of rank 5 or of the rank of a critical
      discard, is read as a save clue. */
  predicate IsSaveClue(g: Game, hand: seq<Card>, clue: Clue)
    requires Valid(g)
  {
    match CurrentDiscardSlot(hand)
    case None => false
    case Some(k) =>
      Touched(clue, hand[k]) && clue.hintType == Rank
      && (clue.hintValue == MaxRank || exists d :: d in CriticalNon5Cards(g) && d.rank == clue.hintValue)
  }

  /** The cards a play clue focuses on: the newly playable double-clued cards, or else the
      touched card of largest order. */
  function PlayFocus(g: Game, hand: seq<Card>, clue: Clue): (r: seq<int>)
    requires Valid(g) && AllInRange(hand, StandardSuits) && |clue.touchedOrders| > 0
    ensures |r| > 0
  {
    var added := NewlyPlayable(g, hand, clue);
    if |added| > 0 then added else [MaxOf(clue.touchedOrders)]
  }

  /** The receiver's hand after the clue, and the classification left on the clue object. */
  datatype Outcome = Outcome(hand: seq<Card>, last: Classification)

  /** A rank-1 clue: every touched card takes it as a play clue. */
  function RankOneOutcome(hand: seq<Card>, clue: Clue): (r: Outcome)
    ensures |r.hand| == |hand|
    ensures forall i :: 0 <= i < |hand| ==> SameIdentity(r.hand[i], hand[i])
    ensures forall i :: 0 <= i < |hand| && Touched(clue, hand[i]) ==>
      r.hand[i] == AddClue(hand[i], clue.(classification := PlayClue))
    ensures forall i :: 0 <= i < |hand| && !Touched(clue, hand[i]) ==> r.hand[i] == AddNegativeInfo(hand[i], clue)
  {
    Outcome(MarkHand(hand, clue, clue.touchedOrders, []), PlayClue)
  }

  /** The suits a saved non-5 card may be: those of the critical discards of its rank. */
  function SlotSuits(g: Game, clue: Clue): (r: seq<int>)
    requires Valid(g)
    ensures forall s :: s in r <==>
      clue.hintValue != MaxRank && exists d :: d in CriticalNon5Cards(g) && d.rank == clue.hintValue && d.suit == s
  {
    if clue.hintValue != MaxRank then SaveSuits(CriticalNon5Cards(g), clue.hintValue) else []
  }

  /** A save clue with no newly playable double-clued card: every touched card is saved, and
      the saved slot learns it can only be one of the suits of the critical discards of that rank. */
  function SaveAll(g: Game, hand: seq<Card>, clue: Clue): (r: seq<Card>)
    requires Valid(g) && CurrentDiscardSlot(hand).Some? && Touched(clue, hand[CurrentDiscardSlot(hand).value])
    ensures |r| == |hand|
    ensures forall i :: 0 <= i < |hand| ==> SameIdentity(r[i], hand[i])
    ensures forall i :: 0 <= i < |hand| && !Touched(clue, hand[i]) ==> r[i] == AddNegativeInfo(hand[i], clue)
    ensures forall i :: 0 <= i < |hand| && Touched(clue, hand[i]) ==>
        r[i].clues == hand[i].clues + [clue.(classification := SaveClue)]
  {
    var marked := MarkHand(hand, clue, [], []);
    var slot := CurrentDiscardSlot(hand).value;
    MarkHandIdentity(hand, clue, [], []);
    ExcludeAt(marked, slot, SlotSuits(g, clue))
  }

  /** The card at `slot` learns it is none of the suits outside `suits` (nothing, when `suits`
      is empty); the other cards stay as they are. */
  function ExcludeAt(hand: seq<Card>, slot: nat, suits: seq<int>): (r: seq<Card>)
    requires slot < |hand|
    ensures |r| == |hand|
    ensures forall i :: 0 <= i < |hand| ==> SameIdentity(r[i], hand[i]) && r[i].clues == hand[i].clues
    ensures forall i :: 0 <= i < |hand| && i != slot ==> r[i] == hand[i]
    ensures r[slot] == if |suits| > 0 then ExcludeSuits(hand[slot], suits, 0) else hand[slot]
  {
    if |suits| > 0 then hand[slot := ExcludeSuits(hand[slot], suits, 0)] else hand
  }

  /** A save clue always touches the discard slot. */
  lemma SaveSlotTouched(g: Game, hand: seq<Card>, clue: Clue)
    requires Valid(g) && IsSaveClue(g, hand, clue)
    ensures CurrentDiscardSlot(hand).Some? && Touched(clue, hand[CurrentDiscardSlot(hand).value])
  {
  }

  /** Marking never changes which card sits where. */
  lemma MarkHandIdentity(hand: seq<Card>, clue: Clue, focus: seq<int>, skip: seq<int>)
    ensures forall i :: 0 <= i < |hand| ==> SameIdentity(MarkHand(hand, clue, focus, skip)[i], hand[i])
  {
  }

  /** Marking the promoted hand keeps every card's identity and gives untouched cards only
      the negative information. */
  lemma MarkAfterPromote(g: Game, hand: seq<Card>, clue: Clue, focus: seq<int>, skip: seq<int>)
    requires Valid(g) && AllInRange(hand, StandardSuits)
    ensures |MarkHand(Promote(g, hand, clue).hand, clue, focus, skip)| == |hand|
    ensures forall i :: 0 <= i < |hand| ==>
        SameIdentity(MarkHand(Promote(g, hand, clue).hand, clue, focus, skip)[i], hand[i])
    ensures forall i :: 0 <= i < |hand| && !Touched(clue, hand[i]) ==>
        MarkHand(Promote(g, hand, clue).hand, clue, focus, skip)[i] == AddNegativeInfo(hand[i], clue)
  {
    PromoteKeepsUntouched(g, hand, clue);
    MarkHandIdentity(Promote(g, hand, clue).hand, clue, focus, skip);
  }

  /** A save clue: newly playable double-clued cards keep their play clue and the other touched
      cards take a save clue; with none, `SaveAll`. */
  function SaveOutcome(g: Game, hand: seq<Card>, clue: Clue): (r: Outcome)
    requires Valid(g) && AllInRange(hand, StandardSuits) && IsSaveClue(g, hand, clue)
    ensures |r.hand| == |hand|
    ensures forall i :: 0 <= i < |hand| ==> SameIdentity(r.hand[i], hand[i])
    ensures forall i :: 0 <= i < |hand| && !Touched(clue, hand[i]) ==> r.hand[i] == AddNegativeInfo(hand[i], clue)
  {
    var sw := Promote(g, hand, clue);
    if |sw.added| > 0 then
      MarkAfterPromote(g, hand, clue, [], sw.added);
      Outcome(MarkHand(sw.hand, clue, [], sw.added), SaveClue)
    else
      SaveSlotTouched(g, hand, clue);
      Outcome(SaveAll(g, hand, clue), SaveClue)
  }

  /** A play clue: the focus cards take it as a play clue (newly playable double-clued cards a
      second time), the other touched cards as a save clue. */
  function PlayOutcome(g: Game, hand: seq<Card>, clue: Clue): (r: Result<Outcome>)
    requires Valid(g) && AllInRange(hand, StandardSuits)
    ensures r.Err? <==> |NewlyPlayable(g, hand, clue)| == 0 && |clue.touchedOrders| == 0
    ensures r.Err? ==> r.error == EmptyClue
    ensures r.Ok? ==> |r.value.hand| == |hand|
    ensures r.Ok? ==> forall i :: 0 <= i < |hand| ==> SameIdentity(r.value.hand[i], hand[i])
    ensures r.Ok? ==> forall i :: 0 <= i < |hand| && !Touched(clue, hand[i]) ==>
      r.value.hand[i] == AddNegativeInfo(hand[i], clue)
  {
    var sw := Promote(g, hand, clue);
    if |sw.added| == 0 && |clue.touchedOrders| == 0 then Err(EmptyClue)
    else
      var focus := if |sw.added| > 0 then sw.added else [MaxOf(clue.touchedOrders)];
      MarkAfterPromote(g, hand, clue, focus, []);
      Ok(Outcome(MarkHand(sw.hand, clue, focus, []), LastMarkedClass(hand, clue, focus, sw.clue.classification)))
  }

  /** The marking part of `handle_clue`: a rank-1 clue, a save clue, or else a play clue. */
  function ReceiveClue(g: Game, hand: seq<Card>, clue: Clue): (r: Result<Outcome>)
    requires Valid(g) && AllInRange(hand, StandardSuits)
    ensures r.Err? ==> r.error == EmptyClue && |clue.touchedOrders| == 0
    ensures |clue.touchedOrders| > 0 ==> r.Ok?
    ensures r.Ok? ==> |r.value.hand| == |hand|
    ensures r.Ok? ==> forall i :: 0 <= i < |hand| ==> SameIdentity(r.value.hand[i], hand[i])
    ensures r.Ok? ==> forall i :: 0 <= i < |hand| && !Touched(clue, hand[i]) ==>
      r.value.hand[i] == AddNegativeInfo(hand[i], clue)
  {
    if IsRankOne(clue) then Ok(RankOneOutcome(hand, clue))
    else if IsSaveClue(g, hand, clue) then Ok(SaveOutcome(g, hand, clue))
    else PlayOutcome(g, hand, clue)
  }

  /** With distinct orders, the scan changed a card exactly when it recorded the card's order. */
  lemma PromotedIff(g: Game, hand: seq<Card>, clue: Clue, i: int)
    requires Valid(g) && AllInRange(hand, StandardSuits) && DistinctOrders(hand) && 0 <= i < |hand|
    ensures hand[i].order in Promote(g, hand, clue).added ==>
      Promote(g, hand, clue).hand[i] == AddClue(hand[i], clue.(classification := PlayClue))
    ensures hand[i].order !in Promote(g, hand, clue).added ==> Promote(g, hand, clue).hand[i] == hand[i]
  {
    var sw := Promote(g, hand, clue);
    PromoteChanges(g, hand, clue, i);
    if hand[i].order in sw.added {
      PromoteAdded(g, hand, clue, hand[i].order);
      var j :| 0 <= j < |hand| && hand[j].order == hand[i].order && sw.hand[j] != hand[j];
      assert j == i;
    }
  }

  /** A rank clue on the discard slot that reads as a save: every touched card stores the clue
      exactly once, as a play clue if it is a newly playable double-clued card and as a save clue
      otherwise; the clue object ends as a save clue. */
  lemma SaveClueMarks(g: Game, hand: seq<Card>, clue: Clue, i: int)
    requires Valid(g) && AllInRange(hand, StandardSuits) && DistinctOrders(hand)
    requires !IsRankOne(clue) && IsSaveClue(g, hand, clue)
    requires 0 <= i < |hand| && Touched(clue, hand[i])
    ensures ReceiveClue(g, hand, clue) == Ok(SaveOutcome(g, hand, clue))
    ensures SaveOutcome(g, hand, clue).last == SaveClue
    ensures SaveOutcome(g, hand, clue).hand[i].clues == hand[i].clues
      + [clue.(classification := if hand[i].order in NewlyPlayable(g, hand, clue) then PlayClue else SaveClue)]
  {
    var sw := Promote(g, hand, clue);
    PromotedIff(g, hand, clue, i);
    if |sw.added| > 0 {
      assert SaveOutcome(g, hand, clue).hand == MarkHand(sw.hand, clue, [], sw.added);
    } else {
      SaveAllMarks(g, hand, clue, i);
    }
  }

  /** Without newly playable cards every touched card stores the clue once, as a save clue. */
  lemma SaveAllMarks(g: Game, hand: seq<Card>, clue: Clue, i: int)
    requires Valid(g) && IsSaveClue(g, hand, clue)
    requires 0 <= i < |hand| && Touched(clue, hand[i])
    ensures SaveAll(g, hand, clue)[i].clues == hand[i].clues + [clue.(classification := SaveClue)]
  {
    SaveSlotTouched(g, hand, clue);
  }

  /** Any other clue is a play clue: each touched card stores it as a play clue exactly when it
      is in the focus, else as a save clue; a newly playable double-clued card has stored it
      once already, as a play clue, during the scan. */
  lemma PlayClueMarks(g: Game, hand: seq<Card>, clue: Clue, i: int)
    requires Valid(g) && AllInRange(hand, StandardSuits) && DistinctOrders(hand)
    requires !IsRankOne(clue) && !IsSaveClue(g, hand, clue) && |clue.touchedOrders| > 0
    requires 0 <= i < |hand| && Touched(clue, hand[i])
    ensures ReceiveClue(g, hand, clue) == PlayOutcome(g, hand, clue) && PlayOutcome(g, hand, clue).Ok?
    ensures PlayOutcome(g, hand, clue).value.hand[i].clues == hand[i].clues
      + (if hand[i].order in NewlyPlayable(g, hand, clue) then [clue.(classification := PlayClue)] else [])
      + [clue.(classification := if hand[i].order in PlayFocus(g, hand, clue) then PlayClue else SaveClue)]
  {
    PromotedIff(g, hand, clue, i);
  }

  /** `handle_clue`: the receiver's cards are marked, one clue token is spent and the action is
      recorded once, with the classification its clue was left with. */
  function HandleClue(g: Game, player: int, clue: Clue): (r: Result<Game>)
    requires Valid(g) && 0 <= clue.receiver < |g.playerHands|
    ensures r.Err? ==> r.error == EmptyClue && |clue.touchedOrders| == 0
    ensures r.Ok? ==> r.value.clueTokens == g.clueTokens - 1
    ensures r.Ok? ==> exists k :: r.value.actionHistory == g.actionHistory + [GiveClue(player, clue.(classification := k))]
    ensures r.Ok? ==> r.value.playPile == g.playPile && r.value.discardPile == g.discardPile
    ensures r.Ok? ==> r.value.boomTokens == g.boomTokens && r.value.numPlayers == g.numPlayers
    ensures r.Ok? ==> |r.value.playerHands| == |g.playerHands|
    ensures r.Ok? ==> forall p :: 0 <= p < |g.playerHands| && p != clue.receiver ==> r.value.playerHands[p] == g.playerHands[p]
    ensures r.Ok? ==> ReceiveClue(g, g.playerHands[clue.receiver], clue).Ok?
    ensures r.Ok? ==> r.value.playerHands[clue.receiver] == ReceiveClue(g, g.playerHands[clue.receiver], clue).value.hand
    ensures r.Ok? ==> Valid(r.value)
  {
    var o :- ReceiveClue(g, g.playerHands[clue.receiver], clue);
    assert AllInRange(o.hand, StandardSuits) by {
      assert forall i :: 0 <= i < |o.hand| ==> SameIdentity(o.hand[i], g.playerHands[clue.receiver][i]);
    }
    Ok(g.(clueTokens := g.clueTokens - 1,
          playerHands := g.playerHands[clue.receiver := o.hand],
          actionHistory := g.actionHistory + [GiveClue(player, clue.(classification := o.last))]))
  }

  /** `handle_action`: dispatches one received action. */
  function HandleAction(g: Game, a: Action): (r: Result<Game>)
    requires Valid(g) && WellFormedAction(g, a)
    ensures r.Ok? ==> |r.value.actionHistory| == |g.actionHistory| + 1
    ensures r.Ok? ==> r.value.actionHistory[..|g.actionHistory|] == g.actionHistory
    ensures r.Ok? ==> Valid(r.value) && r.value.numPlayers == g.numPlayers
    ensures r.Ok? && a.Play? && !a.boom ==> r.value.clueTokens == g.clueTokens && r.value.boomTokens == g.boomTokens
    ensures r.Ok? && a.Play? && a.boom ==> r.value.clueTokens == g.clueTokens && r.value.boomTokens == g.boomTokens - 1
    ensures r.Ok? && a.Discard? ==> r.value.clueTokens == g.clueTokens + 1 && r.value.boomTokens == g.boomTokens
    ensures r.Ok? && a.GiveClue? ==> r.value.clueTokens == g.clueTokens - 1 && r.value.boomTokens == g.boomTokens
    ensures r.Ok? && !a.GiveClue? ==> Total(r.value) == Total(g) + (if a.Draw? then 1 else 0)
    ensures r.Err? && a.GiveClue? ==> |a.clue.touchedOrders| == 0
    ensures r.Err? && !a.GiveClue? ==> !a.Draw? && !HasOrder(g.playerHands[a.player], a.card.order)
  {
    match a
    case Draw(p, card) =>
      DrawKeepsValid(g, p, card);
      Ok(HandleDraw(g, p, card))
    case Play(p, card, boom) => HandleMove(g, p, card, if boom then Boomed else Played)
    case Discard(p, card) => HandleMove(g, p, card, Discarded)
    case GiveClue(p, clue) => HandleClue(g, p, clue)
  }
}
