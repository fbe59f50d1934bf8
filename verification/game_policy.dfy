/** The bot's move choice on its own turn (`Game.try_discard` and
    `Game.pre_action_intention_check` in src/game.py), as pure functions that return the chosen
    actions. */
module GamePolicy {
  import opened Constants
  import opened Wrappers
  import opened Clues
  import opened Cards
  import opened Actions
  import opened Hands
  import opened Tables
  import opened Games

  /** A clue as the bot builds it: no turn, no classification, no touched orders yet. */
  function ClueTo(g: Game, receiver: int, hint: HintType, value: int): Action {
    GiveClue(g.ourPlayerIndex, Clue(hint, value, g.ourPlayerIndex, receiver, Unknown, Unset, []))
  }

  /** The hand holds a card of the given rank. */
  predicate HoldsRank(hand: seq<Card>, rank: int) {
    exists i :: 0 <= i < |hand| && hand[i].rank == rank
  }

  function HasRank(hand: seq<Card>, rank: int): (r: bool)
    ensures r <==> HoldsRank(hand, rank)
  {
    if |hand| == 0 then false
    else
      assert forall i :: 0 <= i < |hand| - 1 ==> hand[..|hand| - 1][i] == hand[i];
      hand[|hand| - 1].rank == rank || HasRank(hand[..|hand| - 1], rank)
  }

  /** The first player from `from` on, other than us, holding a card of `rank`. */
  function RankHolder(g: Game, rank: int, from: nat): (r: Option<int>)
    requires from <= |g.playerHands|
    ensures r.None? <==> forall p :: from <= p < |g.playerHands| && p != g.ourPlayerIndex ==> !HoldsRank(g.playerHands[p], rank)
    ensures r.Some? ==>
        from <= r.value < |g.playerHands| && r.value != g.ourPlayerIndex
        && HoldsRank(g.playerHands[r.value], rank)
    decreases |g.playerHands| - from
  {
    if from == |g.playerHands| then None
    else if from != g.ourPlayerIndex && HasRank(g.playerHands[from], rank) then Some(from)
    else RankHolder(g, rank, from + 1)
  }

  /** The ranks a full-token turn tries to clue, in order: trash 1s first, then 5s to save. */
  const CluePriority: seq<int> := [1, 5, 2, 3, 4]

  /** Position, from `k` on, of the first rank of the priority list that some other player
      holds. */
  function PriorityIndex(g: Game, k: nat): (r: Option<nat>)
    requires k <= |CluePriority|
    ensures r.Some? ==> k <= r.value < |CluePriority| && RankHolder(g, CluePriority[r.value], 0).Some?
    ensures forall j :: k <= j < |CluePriority| && (r.None? || j < r.value) ==>
        RankHolder(g, CluePriority[j], 0).None?
    decreases |CluePriority| - k
  {
    if k == |CluePriority| then None
    else if RankHolder(g, CluePriority[k], 0).Some? then Some(k)
    else PriorityIndex(g, k + 1)
  }

  /** The rank clue of the first rank of the priority list that some other player holds, to
      the first such player. */
  function PriorityClue(g: Game): (r: Option<Action>)
    ensures r.None? <==> forall j :: 0 <= j < |CluePriority| ==> RankHolder(g, CluePriority[j], 0).None?
    ensures r.Some? ==>
        var j := PriorityIndex(g, 0).value;
        r.value == ClueTo(g, RankHolder(g, CluePriority[j], 0).value, Rank, CluePriority[j])
  {
    match PriorityIndex(g, 0)
    case None => None
    case Some(j) => Some(ClueTo(g, RankHolder(g, CluePriority[j], 0).value, Rank, CluePriority[j]))
  }

  /** Position of the first card of `cards` that is trash. */
  function FirstTrash(g: Game, cards: seq<Card>): (r: Option<nat>)
    requires Valid(g) && AllInRange(cards, StandardSuits)
    ensures r.None? <==> forall i :: 0 <= i < |cards| ==> !IsTrash(g, cards[i])
    ensures r.Some? ==>
        r.value < |cards| && IsTrash(g, cards[r.value])
        && forall i :: 0 <= i < r.value ==> !IsTrash(g, cards[i])
  {
    if |cards| == 0 then None
    else if IsTrash(g, cards[0]) then Some(0)
    else
      assert AllInRange(cards[1..], StandardSuits);
      match FirstTrash(g, cards[1..])
      case None => None
      case Some(k) => Some(k + 1)
  }

  /** `try_discard`: with all eight tokens, a rank clue by priority; otherwise discard the first
      trash card, else the first unclued card, else play the newest card (raising on an empty
      hand). */
  function TryDiscard(g: Game, cards: seq<Card>): (r: Result<Action>)
    requires Valid(g) && AllInRange(cards, StandardSuits)
    ensures r.Err? ==> r.error == IndexOutOfRange && |cards| == 0
    ensures r.Ok? && r.value.GiveClue? ==>
        g.clueTokens == MaxClueNum
        && r.value.clue.hintType == Rank && r.value.clue.receiver != g.ourPlayerIndex
        && 0 <= r.value.clue.receiver < |g.playerHands|
        && HoldsRank(g.playerHands[r.value.clue.receiver], r.value.clue.hintValue)
    ensures r.Ok? ==> r.value.player == g.ourPlayerIndex
    ensures r.Ok? && r.value.Discard? ==>
        r.value.card in cards
        && (IsTrash(g, r.value.card) || |r.value.card.clues| == 0)
    ensures r.Ok? && r.value.Play? ==>
        |cards| > 0 && r.value.card == cards[|cards| - 1] && !r.value.boom
        && forall i :: 0 <= i < |cards| ==> !IsTrash(g, cards[i]) && |cards[i].clues| > 0
    ensures g.clueTokens != MaxClueNum && FirstTrash(g, cards).Some? ==>
      r == Ok(Discard(g.ourPlayerIndex, cards[FirstTrash(g, cards).value]))
  {
    var clue := if g.clueTokens == MaxClueNum then PriorityClue(g) else None;
    if clue.Some? then Ok(clue.value)
    else match FirstTrash(g, cards)
      case Some(i) => Ok(Discard(g.ourPlayerIndex, cards[i]))
      case None =>
        match CurrentDiscardSlot(cards)
        case Some(i) => Ok(Discard(g.ourPlayerIndex, cards[i]))
        case None =>
          if |cards| == 0 then Err(IndexOutOfRange)
          else Ok(Play(g.ourPlayerIndex, cards[|cards| - 1], false))
  }

  /** With all eight tokens, a player holding a 1 always gets the 1s clue. */
  lemma TryDiscardCluesOnesFirst(g: Game, cards: seq<Card>, p: int)
    requires Valid(g) && AllInRange(cards, StandardSuits) && g.clueTokens == MaxClueNum
    requires 0 <= p < |g.playerHands| && p != g.ourPlayerIndex && HoldsRank(g.playerHands[p], 1)
    ensures TryDiscard(g, cards).Ok? && TryDiscard(g, cards).value.GiveClue?
    ensures TryDiscard(g, cards).value.clue.hintValue == 1
  {
    assert RankHolder(g, 1, 0).Some?;
  }

  // ---------------------------------------------------------------- pre_action_intention_check

  /** Another player about to lose a critical card: their discard slot is critical and no card
      of theirs carries a play clue. */
  predicate Endangered(g: Game, p: int)
    requires Valid(g) && 0 <= p < |g.playerHands|
  {
    p != g.ourPlayerIndex
    && match CurrentDiscardSlot(g.playerHands[p])
       case None => false
       case Some(k) => IsCritical(g, g.playerHands[p][k]) && !WillNotDiscard(g.playerHands[p])
  }

  /** Whether each player is endangered, seat by seat. */
  function EndangeredFlags(g: Game): (flags: seq<bool>)
    requires Valid(g)
    ensures |flags| == |g.playerHands|
    ensures forall p :: 0 <= p < |flags| ==> flags[p] == Endangered(g, p)
  {
    seq(|g.playerHands|, p requires 0 <= p < |g.playerHands| => Endangered(g, p))
  }

  /** The first raised flag from `from` on. */
  function FirstRaised(flags: seq<bool>, from: nat): (r: Option<int>)
    requires from <= |flags|
    ensures r.None? <==> forall p :: from <= p < |flags| ==> !flags[p]
    ensures r.Some? ==> from <= r.value < |flags| && flags[r.value] && forall p :: from <= p < r.value ==> !flags[p]
    decreases |flags| - from
  {
    if from == |flags| then None
    else if flags[from] then Some(from)
    else FirstRaised(flags, from + 1)
  }

  /** The first endangered player from `from` on, scanning seats in order. */
  function FirstEndangered(g: Game, from: nat): (r: Option<int>)
    requires Valid(g) && from <= |g.playerHands|
    ensures r.None? <==> forall p :: from <= p < |g.playerHands| ==> !Endangered(g, p)
    ensures r.Some? ==>
        from <= r.value < |g.playerHands| && Endangered(g, r.value)
        && forall p :: from <= p < r.value ==> !Endangered(g, p)
  {
    FirstRaised(EndangeredFlags(g), from)
  }

  /** Position of the newest playable card of `cards` (scanning from the draw slot). */
  function NewestPlayable(g: Game, cards: seq<Card>): (r: Option<nat>)
    requires Valid(g) && AllInRange(cards, StandardSuits)
    ensures r.None? <==> forall i :: 0 <= i < |cards| ==> !IsPlayable(g, cards[i])
    ensures r.Some? ==>
        r.value < |cards| && IsPlayable(g, cards[r.value])
        && forall i :: r.value < i < |cards| ==> !IsPlayable(g, cards[i])
  {
    PlayableBelow(g, cards, |cards|)
  }

  /** Position of the last playable card among the first `n` of `cards`. */
  function PlayableBelow(g: Game, cards: seq<Card>, n: nat): (r: Option<nat>)
    requires Valid(g) && AllInRange(cards, StandardSuits) && n <= |cards|
    ensures r.None? <==> forall i :: 0 <= i < n ==> !IsPlayable(g, cards[i])
    ensures r.Some? ==>
        r.value < n && IsPlayable(g, cards[r.value])
        && forall i :: r.value < i < n ==> !IsPlayable(g, cards[i])
  {
    if n == 0 then None
    else if IsPlayable(g, cards[n - 1]) then Some(n - 1)
    else PlayableBelow(g, cards, n - 1)
  }

  /** Some card among the first `n` of `hand` has the same `value` for the hint as `c` and a
      larger order, so a clue for `c` would not focus on it. */
  function LeftOf(hand: seq<Card>, n: nat, c: Card, hint: HintType): (r: bool)
    requires n <= |hand|
    ensures r <==> exists i ::
        0 <= i < n && hand[i].order > c.order
        && (if hint == Color then hand[i].suit == c.suit else hand[i].rank == c.rank)
  {
    if n == 0 then false
    else
      var d := hand[n - 1];
      (d.order > c.order && (if hint == Color then d.suit == c.suit else d.rank == c.rank))
      || LeftOf(hand, n - 1, c, hint)
  }

  /** The clue the bot gives for one playable card of `player`, if any: a card already holding a
      play clue gets none; a card clued before gets the other kind of clue; a fresh card gets a
      colour clue, or a rank clue, if no card to its left shares that value. The scan for cards to
      the left runs over as many positions as our own hand has, and raises when the other hand is
      shorter. */
  function ClueForCard(g: Game, player: int, c: Card, numCards: nat): (r: Result<Option<Action>>)
    requires 0 <= player < |g.playerHands|
    ensures r.Err? ==> |c.clues| == 0 && |g.playerHands[player]| < numCards && r.error == IndexOutOfRange
    ensures r.Ok? && r.value.Some? ==>
        r.value.value.GiveClue?
        && r.value.value == ClueTo(g, player, r.value.value.clue.hintType, r.value.value.clue.hintValue)
    ensures |c.clues| > 0 ==> r.Ok? && (r.value.None? <==> c.clues[|c.clues| - 1].classification == PlayClue)
    ensures |c.clues| > 0 && r.Ok? && r.value.Some? ==>
      r.value.value.clue.hintType != c.clues[|c.clues| - 1].hintType
  {
    if |c.clues| > 0 then
      var last := c.clues[|c.clues| - 1];
      if last.classification == PlayClue then Ok(None)
      else if last.hintType == Rank then Ok(Some(ClueTo(g, player, Color, c.suit)))
      else Ok(Some(ClueTo(g, player, Rank, c.rank)))
    else if |g.playerHands[player]| < numCards then Err(IndexOutOfRange)
    else if !LeftOf(g.playerHands[player], numCards, c, Color) then Ok(Some(ClueTo(g, player, Color, c.suit)))
    else if !LeftOf(g.playerHands[player], numCards, c, Rank) then Ok(Some(ClueTo(g, player, Rank, c.rank)))
    else Ok(None)
  }

  /** The first clue found for the playable cards of `player` from position `from` on. */
  function ClueForPlayer(g: Game, player: int, from: nat, numCards: nat): (r: Result<Option<Action>>)
    requires Valid(g) && 0 <= player < |g.playerHands| && from <= |g.playerHands[player]|
    ensures r.Err? ==> r.error == IndexOutOfRange
    ensures r.Ok? && r.value.Some? ==> (exists i ::
        from <= i < |g.playerHands[player]|
        && IsPlayable(g, g.playerHands[player][i]) && ClueForCard(g, player, g.playerHands[player][i], numCards) == Ok(r.value))
    decreases |g.playerHands[player]| - from
  {
    var hand := g.playerHands[player];
    if from == |hand| then Ok(None)
    else
      assert CardInRange(hand[from], StandardSuits);
      if !IsPlayable(g, hand[from]) then ClueForPlayer(g, player, from + 1, numCards)
      else
        var c :- ClueForCard(g, player, hand[from], numCards);
        if c.Some? then Ok(c) else ClueForPlayer(g, player, from + 1, numCards)
  }

  /** The play-clue search over the other players, from player `from` on. */
  function PlayClueSearch(g: Game, from: nat, numCards: nat): (r: Result<Option<Action>>)
    requires Valid(g) && from <= g.numPlayers
    ensures r.Err? ==> r.error == IndexOutOfRange
    ensures r.Ok? && r.value.Some? ==>
        r.value.value.GiveClue?
        && (exists p :: from <= p < g.numPlayers && p != g.ourPlayerIndex
                         && r.value.value == ClueTo(g, p, r.value.value.clue.hintType, r.value.value.clue.hintValue))
    decreases g.numPlayers - from
  {
    if from == g.numPlayers then Ok(None)
    else if from == g.ourPlayerIndex then PlayClueSearch(g, from + 1, numCards)
    else
      var c :- ClueForPlayer(g, from, 0, numCards);
      if c.Some? then Ok(c) else PlayClueSearch(g, from + 1, numCards)
  }

  /** The chosen actions and the game, whose clue tokens the check may reset to zero. */
  datatype Decision = Decision(actions: seq<Action>, game: Game)

  /** `pre_action_intention_check`, from our own view on our own turn: save an endangered
      player's critical discard slot (with a rank clue, or, without tokens, by discarding or
      playing ourselves); else play our newest playable card; else, without tokens, discard;
      else clue a playable card of another player; else discard. Any other view or player
      yields no action. */
  function PreActionIntentionCheck(g: Game, viewer: int, player: int): (r: Result<Decision>)
    requires Valid(g) && 0 <= g.ourPlayerIndex < |g.playerHands|
    ensures (viewer != g.ourPlayerIndex || player != g.ourPlayerIndex) ==> r == Ok(Decision([], g))
    ensures r.Err? ==> r.error == IndexOutOfRange
    ensures r.Ok? ==> r.value.game == g || (g.clueTokens <= 0 && r.value.game == g.(clueTokens := 0))
    ensures r.Ok? && viewer == player == g.ourPlayerIndex ==>
      |r.value.actions| == 1 && r.value.actions[0].player == g.ourPlayerIndex
    ensures r.Ok? && |r.value.actions| == 1 && r.value.actions[0].GiveClue? ==>
      g.clueTokens > 0 && r.value.actions[0].clue.receiver != g.ourPlayerIndex
    ensures r.Ok? && |r.value.actions| == 1 && !r.value.actions[0].GiveClue? ==>
      r.value.actions[0].card in g.playerHands[g.ourPlayerIndex]
  {
    if viewer != g.ourPlayerIndex || player != g.ourPlayerIndex then Ok(Decision([], g))
    else
      var cards := g.playerHands[player];
      match FirstEndangered(g, 0)
      case Some(p) =>
        var slot := g.playerHands[p][CurrentDiscardSlot(g.playerHands[p]).value];
        if g.clueTokens > 0 then Ok(Decision([ClueTo(g, p, Rank, slot.rank)], g))
        else (match CurrentDiscardSlot(cards)
          case Some(i) => Ok(Decision([Discard(g.ourPlayerIndex, cards[i])], g))
          case None =>
            if |cards| == 0 then Err(IndexOutOfRange)
            else Ok(Decision([Play(g.ourPlayerIndex, cards[|cards| - 1], false)], g)))
      case None =>
        match NewestPlayable(g, cards)
        case Some(i) => Ok(Decision([Play(g.ourPlayerIndex, cards[i], false)], g))
        case None =>
          if g.clueTokens <= 0 then
            var g0 := g.(clueTokens := 0);
            var a :- TryDiscard(g0, cards);
            Ok(Decision([a], g0))
          else
            var found :- PlayClueSearch(g, 0, |cards|);
            if found.Some? then Ok(Decision([found.value], g))
            else
              var a :- TryDiscard(g, cards);
              Ok(Decision([a], g))
  }

  /** An endangered player comes first: with a token left, the first one gets a rank clue
      naming their discard slot's rank. */
  lemma SaveComesFirst(g: Game, p: int)
    requires Valid(g) && 0 <= g.ourPlayerIndex < |g.playerHands| && g.clueTokens > 0
    requires 0 <= p < |g.playerHands| && Endangered(g, p)
    requires forall q :: 0 <= q < p ==> !Endangered(g, q)
    ensures PreActionIntentionCheck(g, g.ourPlayerIndex, g.ourPlayerIndex) == Ok(Decision(
      [ClueTo(g, p, Rank, g.playerHands[p][CurrentDiscardSlot(g.playerHands[p]).value].rank)], g))
  {
    var e := FirstEndangered(g, 0);
    assert e.Some?;
    assert e.value == p;
  }

  /** With nobody endangered, a playable card of ours is played, the newest one first. */
  lemma PlayBeforeClue(g: Game, i: int)
    requires Valid(g) && 0 <= g.ourPlayerIndex < |g.playerHands|
    requires forall q :: 0 <= q < |g.playerHands| ==> !Endangered(g, q)
    requires 0 <= i < |g.playerHands[g.ourPlayerIndex]|
    requires IsPlayable(g, g.playerHands[g.ourPlayerIndex][i])
    requires forall j :: i < j < |g.playerHands[g.ourPlayerIndex]| ==> !IsPlayable(g, g.playerHands[g.ourPlayerIndex][j])
    ensures PreActionIntentionCheck(g, g.ourPlayerIndex, g.ourPlayerIndex) ==
      Ok(Decision([Play(g.ourPlayerIndex, g.playerHands[g.ourPlayerIndex][i], false)], g))
  {
    var cards := g.playerHands[g.ourPlayerIndex];
    var k := NewestPlayable(g, cards);
    assert k.Some?;
  }
}
