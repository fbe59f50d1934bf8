/** The bot's own view of a game (`Game` in src/game.py): piles, tokens, the hands as it
    believes them, and the pure predicates its policy consults. The tracker hard-codes the five
    suits of the standard deck. */
module Games {
  import opened Constants
  import opened Wrappers
  import opened Clues
  import opened Cards
  import opened Actions
  import opened Hands
  import opened Tables

  /** Ground truth (tokens, piles), the believed hands, and every action received so far. */
  datatype Game = Game(
    clueTokens: int,
    boomTokens: int,
    numPlayers: int,                // the number of player names
    playPile: seq<Card>,
    discardPile: seq<Card>,         // also holds the cards of failed plays
    playerHands: seq<seq<Card>>,
    ourPlayerIndex: int,
    actionHistory: seq<Action>)     // includes the draws

  /** A card whose identity the server has shown. */
  predicate Revealed(c: Card) {
    0 <= c.suit < StandardSuits && 1 <= c.rank <= MaxRank
  }

  predicate AllRevealed(pile: seq<Card>) {
    forall i :: 0 <= i < |pile| ==> Revealed(pile[i])
  }

  /** One hand per player name, piles of shown cards, hand cards within the deck's ranges. */
  predicate Valid(g: Game) {
    g.numPlayers == |g.playerHands|
    && AllRevealed(g.playPile) && AllRevealed(g.discardPile)
    && HandsInRange(g.playerHands, StandardSuits)
  }

  // ---------------------------------------------------------------- counting

  /** Cards of `cards` that are known to be `(rank, suit)`. */
  function CountOf(cards: seq<Card>, rank: int, suit: int): (n: nat)
    ensures n <= |cards|
    ensures n > 0 <==> (exists i :: 0 <= i < |cards| && cards[i].rank == rank && cards[i].suit == suit)
  {
    if |cards| == 0 then 0
    else
      var k := |cards| - 1;
      assert forall i :: 0 <= i < k ==> cards[..k][i] == cards[i];
      CountOf(cards[..k], rank, suit) + (if cards[k].rank == rank && cards[k].suit == suit then 1 else 0)
  }

  /** `count_discarded`: copies of `(rank, suit)` in the discard pile. */
  function CountDiscarded(g: Game, rank: int, suit: int): (n: nat)
    ensures n <= |g.discardPile|
    ensures n > 0 <==> (exists i :: 0 <= i < |g.discardPile| && g.discardPile[i].rank == rank && g.discardPile[i].suit == suit)
  {
    CountOf(g.discardPile, rank, suit)
  }

  /** Cards known to be `(rank, suit)` over all hands. */
  function CountInHands(hands: seq<seq<Card>>, rank: int, suit: int): nat {
    if |hands| == 0 then 0
    else CountInHands(hands[..|hands| - 1], rank, suit) + CountOf(hands[|hands| - 1], rank, suit)
  }

  /** `seen_in_hands`: some hand, ours included, holds a card known to be `(rank, suit)`. */
  function SeenInHands(hands: seq<seq<Card>>, rank: int, suit: int): (r: bool)
    ensures r <==> (exists p, i :: 0 <= p < |hands| && 0 <= i < |hands[p]|
                     && hands[p][i].rank == rank && hands[p][i].suit == suit)
  {
    if |hands| == 0 then false
    else
      var k := |hands| - 1;
      assert forall p :: 0 <= p < k ==> hands[..k][p] == hands[p];
      SeenInHands(hands[..k], rank, suit) || CountOf(hands[k], rank, suit) > 0
  }

  /** A card is seen in the hands exactly when the hands hold a positive count of it. */
  lemma {:induction false} SeenIffCounted(hands: seq<seq<Card>>, rank: int, suit: int)
    ensures SeenInHands(hands, rank, suit) <==> CountInHands(hands, rank, suit) > 0
  {
    if |hands| > 0 {
      SeenIffCounted(hands[..|hands| - 1], rank, suit);
    }
  }

  /** `play_stacks`: the highest rank played in every suit. */
  function Stacks(g: Game): (s: seq<int>)
    requires Valid(g)
    ensures |s| == StandardSuits
  {
    PlayedRanks(g.playPile, StandardSuits)
  }

  /** Every stack lies in 0..5 and is the rank of a played card of its suit, or 0. */
  lemma StacksInRange(g: Game)
    requires Valid(g)
    ensures forall s :: 0 <= s < StandardSuits ==> 0 <= Stacks(g)[s] <= MaxRank
    ensures forall s :: 0 <= s < StandardSuits ==>
      Stacks(g)[s] == 0 || exists i :: 0 <= i < |g.playPile| && g.playPile[i].suit == s && g.playPile[i].rank == Stacks(g)[s]
  {
    forall s | 0 <= s < StandardSuits
      ensures 0 <= Stacks(g)[s] <= MaxRank
      ensures Stacks(g)[s] == 0 || exists i :: 0 <= i < |g.playPile| && g.playPile[i].suit == s && g.playPile[i].rank == Stacks(g)[s]
    {
      PlayedRanksIsMax(g.playPile, StandardSuits, s);
      if Stacks(g)[s] != 0 {
        var c :| c in g.playPile && SuitSlot(c, StandardSuits) == s && c.rank == Stacks(g)[s];
        var i :| 0 <= i < |g.playPile| && g.playPile[i] == c;
        assert Revealed(g.playPile[i]);
      }
    }
  }

  // ---------------------------------------------------------------- is_trash

  /** Every suit from `from` on that the card may still be has its stack at `rank` or higher. */
  function SuitsAtOrPast(stacks: seq<int>, rank: int, excluded: seq<int>, from: nat): (r: bool)
    requires from <= StandardSuits == |stacks|
    ensures r <==> forall i :: from <= i < StandardSuits && i !in excluded ==> stacks[i] >= rank
    decreases StandardSuits - from
  {
    if from == StandardSuits then true
    else if from !in excluded && stacks[from] < rank then false
    else SuitsAtOrPast(stacks, rank, excluded, from + 1)
  }

  /** Copies of `(rank, suit)` the bot can see: in any hand or in the discard pile. */
  function Visible(g: Game, rank: int, suit: int): nat {
    CountInHands(g.playerHands, rank, suit) + CountOf(g.discardPile, rank, suit)
  }

  /** Every rank from `from` to 5 that the card may still be is fully visible elsewhere. */
  function AllCopiesSeen(g: Game, suit: int, excluded: seq<int>, from: int): (r: bool)
    ensures r <==> forall j :: from <= j <= MaxRank && j !in excluded ==> Visible(g, j, suit) >= CopiesOf(suit, j)
    decreases MaxRank + 1 - from
  {
    if from > MaxRank then true
    else if from !in excluded && Visible(g, from, suit) < CopiesOf(suit, from) then false
    else AllCopiesSeen(g, suit, excluded, from + 1)
  }

  /** Some rank in `from..to-1` of the suit has exactly all its copies in `pile`. */
  function SomeRankGone(pile: seq<Card>, suit: int, lo: int, hi: int): (r: bool)
    ensures r <==> (exists i :: lo <= i < hi && CountOf(pile, i, suit) == CopiesOf(suit, i))
    decreases hi - lo
  {
    if lo >= hi then false
    else CountOf(pile, lo, suit) == CopiesOf(suit, lo) || SomeRankGone(pile, suit, lo + 1, hi)
  }

  /** `is_trash`: the card can no longer be played, judged from what the card's holder knows. */
  function IsTrash(g: Game, c: Card): (r: bool)
    requires Valid(g) && CardInRange(c, StandardSuits)
    ensures c.suit == Unknown && c.rank == Unknown ==> !r
    ensures c.suit == Unknown && c.rank != Unknown ==>
      (r <==> forall i :: 0 <= i < StandardSuits && i !in c.negativeColors ==> Stacks(g)[i] >= c.rank)
    ensures c.suit != Unknown && c.rank == Unknown ==>
      (r <==> (Stacks(g)[c.suit] == MaxRank
                || CountDiscarded(g, Stacks(g)[c.suit] + 1, c.suit) == CopiesOf(c.suit, Stacks(g)[c.suit] + 1)
                || (forall j :: Stacks(g)[c.suit] + 1 <= j <= MaxRank && j !in c.negativeRanks ==>
                      Visible(g, j, c.suit) >= CopiesOf(c.suit, j))))
    ensures c.suit != Unknown && c.rank != Unknown ==>
      (r <==> (Stacks(g)[c.suit] >= c.rank
                || (exists i :: 1 <= i < c.rank && CountDiscarded(g, i, c.suit) == CopiesOf(c.suit, i))))
  {
    var stacks := Stacks(g);
    if c.suit == Unknown && c.rank == Unknown then false
    else if c.suit == Unknown then SuitsAtOrPast(stacks, c.rank, c.negativeColors, 0)
    else if c.rank == Unknown then
      if stacks[c.suit] == MaxRank then true
      else
        var next := stacks[c.suit] + 1;
        if CountOf(g.discardPile, next, c.suit) == CopiesOf(c.suit, next) then true
        else AllCopiesSeen(g, c.suit, c.negativeRanks, next)
    else if stacks[c.suit] >= c.rank then true
    else if |g.discardPile| == 0 then false
    else SomeRankGone(g.discardPile, c.suit, 1, c.rank)
  }

  /** A fully known card that has already been played is trash. */
  lemma PlayedCardIsTrash(g: Game, c: Card, k: nat)
    requires Valid(g) && CardInRange(c, StandardSuits)
    requires c.suit != Unknown && c.rank != Unknown
    requires k < |g.playPile| && g.playPile[k].suit == c.suit && g.playPile[k].rank == c.rank
    ensures IsTrash(g, c)
  {
    PlayedRanksIsMax(g.playPile, StandardSuits, c.suit);
    assert g.playPile[k] in g.playPile && Revealed(g.playPile[k]);
  }

  // ---------------------------------------------------------------- is_playable

  /** Some clue of the history was classified as a play clue. */
  function HasPlayClue(clues: seq<Clue>): (r: bool)
    ensures r <==> exists k :: 0 <= k < |clues| && clues[k].classification == PlayClue
  {
    if |clues| == 0 then false
    else
      var k := |clues| - 1;
      assert forall i :: 0 <= i < k ==> clues[..k][i] == clues[i];
      clues[k].classification == PlayClue || HasPlayClue(clues[..k])
  }

  /** Some suit from `from` on is waiting for exactly `rank`. */
  function SomeSuitAwaits(stacks: seq<int>, rank: int, from: nat): (r: bool)
    requires from <= StandardSuits == |stacks|
    ensures r <==> exists s :: from <= s < StandardSuits && stacks[s] + 1 == rank
    decreases StandardSuits - from
  {
    if from == StandardSuits then false
    else stacks[from] + 1 == rank || SomeSuitAwaits(stacks, rank, from + 1)
  }

  /** `is_playable`: whether the card's holder should believe it plays now. */
  function IsPlayable(g: Game, c: Card): (r: bool)
    requires Valid(g) && CardInRange(c, StandardSuits)
    ensures r ==> !IsTrash(g, c)
    ensures c.suit != Unknown && c.rank != Unknown ==>
      (r <==> !IsTrash(g, c) && Stacks(g)[c.suit] + 1 == c.rank)
    ensures (c.suit == Unknown || c.rank == Unknown) && |c.clues| == 0 ==>
      (r <==> !IsTrash(g, c) && |c.finesses| > 0)
    ensures (c.suit == Unknown || c.rank == Unknown) && |c.clues| > 0 && r ==> HasPlayClue(c.clues)
    ensures c.suit == Unknown && c.rank != Unknown && |c.clues| > 0 ==>
      (r <==> (!IsTrash(g, c) && HasPlayClue(c.clues)
                && (exists s :: 0 <= s < StandardSuits && Stacks(g)[s] + 1 == c.rank)
                && c.clues[|c.clues| - 1].classification != SaveClue))
    ensures c.suit != Unknown && c.rank == Unknown && |c.clues| > 0 ==>
      (r <==> !IsTrash(g, c) && HasPlayClue(c.clues))
  {
    if IsTrash(g, c) then false
    else if c.suit != Unknown && c.rank != Unknown then Stacks(g)[c.suit] + 1 == c.rank
    else if |c.clues| == 0 then |c.finesses| > 0
    else if !HasPlayClue(c.clues) then false
    else if c.rank != Unknown then
      SomeSuitAwaits(Stacks(g), c.rank, 0) && c.clues[|c.clues| - 1].classification != SaveClue
    else true
  }

  // ---------------------------------------------------------------- is_critical

  /** `is_critical`: the card must not be discarded. */
  function IsCritical(g: Game, c: Card): (r: bool)
    requires Valid(g) && CardInRange(c, StandardSuits)
    ensures r ==> !IsTrash(g, c)
    ensures c.rank == MaxRank ==> (r <==> !IsTrash(g, c))
    ensures c.rank == 1 || c.rank == Unknown ==> !r
    ensures c.rank != 1 && c.rank != MaxRank ==>
      (r <==> !IsTrash(g, c) && CountDiscarded(g, c.rank, c.suit) > 0)
  {
    if IsTrash(g, c) then false
    else if c.rank == MaxRank then true
    else if c.rank == 1 then false
    else CountOf(g.discardPile, c.rank, c.suit) > 0
  }

  // ---------------------------------------------------------------- critical_non_5_cards

  /** Some rank in `from..to-1` of the suit has at least all its copies in `pile`. */
  function SomeRankExhausted(pile: seq<Card>, suit: int, lo: int, hi: int): (r: bool)
    ensures r <==> (exists i :: lo <= i < hi && CountOf(pile, i, suit) >= CopiesOf(suit, i))
    decreases hi - lo
  {
    if lo >= hi then false
    else CountOf(pile, lo, suit) >= CopiesOf(suit, lo) || SomeRankExhausted(pile, suit, lo + 1, hi)
  }

  /** The conditions under which a discarded card signals a non-5 card worth saving:
      not a 5, not yet played, copies left, every rank below it still reachable, none in hand. */
  predicate CriticalNon5(g: Game, d: Card)
    requires Valid(g) && Revealed(d)
  {
    d.rank != MaxRank
    && Stacks(g)[d.suit] < d.rank
    && CountDiscarded(g, d.rank, d.suit) < CopiesOf(d.suit, d.rank)
    && (forall k :: Stacks(g)[d.suit] + 1 <= k < d.rank ==>
          CountDiscarded(g, k, d.suit) < CopiesOf(d.suit, k))
    && !SeenInHands(g.playerHands, d.rank, d.suit)
  }

  /** Filters a prefix of the discard pile. */
  function CriticalAmong(g: Game, pile: seq<Card>): (r: seq<Card>)
    requires Valid(g) && AllRevealed(pile)
    ensures |r| <= |pile|
    ensures forall c :: c in r <==> c in pile && Revealed(c) && CriticalNon5(g, c)
  {
    if |pile| == 0 then []
    else
      var k := |pile| - 1;
      var d := pile[k];
      var prev := CriticalAmong(g, pile[..k]);
      assert pile == pile[..k] + [d];
      assert forall c :: c in pile <==> c in pile[..k] || c == d;
      var keep :=
        d.rank != MaxRank
        && Stacks(g)[d.suit] < d.rank
        && CountOf(g.discardPile, d.rank, d.suit) < CopiesOf(d.suit, d.rank)
        && !SomeRankExhausted(g.discardPile, d.suit, Stacks(g)[d.suit] + 1, d.rank)
        && !SeenInHands(g.playerHands, d.rank, d.suit);
      if keep then prev + [d] else prev
  }

  /** `critical_non_5_cards`: the discarded cards, in pile order, that say their remaining copy
      must be saved. */
  function CriticalNon5Cards(g: Game): (r: seq<Card>)
    requires Valid(g)
    ensures |g.discardPile| == 0 ==> r == []
    ensures forall c :: c in r <==> c in g.discardPile && CriticalNon5(g, c)
  {
    CriticalAmong(g, g.discardPile)
  }

  // ---------------------------------------------------------------- hand queries

  /** `current_discard_slot`: the oldest card of the player's hand that carries no clue. */
  function CurrentDiscardSlot(hand: seq<Card>): (r: Option<nat>)
    ensures r.None? <==> forall i :: 0 <= i < |hand| ==> |hand[i].clues| > 0
    ensures r.Some? ==> r.value < |hand| && |hand[r.value].clues| == 0
    ensures r.Some? ==> forall i :: 0 <= i < r.value ==> |hand[i].clues| > 0
  {
    if |hand| == 0 then None
    else if |hand[0].clues| == 0 then Some(0)
    else match CurrentDiscardSlot(hand[1..])
      case None => None
      case Some(k) => Some(k + 1)
  }

  /** The clue touches the card. */
  predicate Touched(clue: Clue, c: Card) {
    c.order in clue.touchedOrders
  }

  /** A touched card that already carried a clue. */
  predicate DoubleTouched(clue: Clue, c: Card) {
    Touched(clue, c) && |c.clues| > 0
  }

  /** `double_clued_cards`: the receiver's touched cards that were clued before, in hand order. */
  function DoubleCluedCards(hand: seq<Card>, clue: Clue): (r: seq<Card>)
    ensures |r| <= |hand|
    ensures forall c :: c in r <==> c in hand && DoubleTouched(clue, c)
  {
    if |hand| == 0 then []
    else
      var k := |hand| - 1;
      assert hand == hand[..k] + [hand[k]];
      var prev := DoubleCluedCards(hand[..k], clue);
      if DoubleTouched(clue, hand[k]) then prev + [hand[k]] else prev
  }

  /** `will_not_discard`: some card of the player carries a play clue. */
  function WillNotDiscard(hand: seq<Card>): (r: bool)
    ensures r <==> exists i, k :: 0 <= i < |hand| && 0 <= k < |hand[i].clues| && hand[i].clues[k].classification == PlayClue
  {
    if |hand| == 0 then false
    else
      var k := |hand| - 1;
      assert forall i :: 0 <= i < k ==> hand[..k][i] == hand[i];
      HasPlayClue(hand[k].clues) || WillNotDiscard(hand[..k])
  }

  /** Actions of the history other than draws. */
  function Turns(history: seq<Action>): (n: nat)
    ensures n <= |history|
  {
    if |history| == 0 then 0
    else Turns(history[..|history| - 1]) + (if history[|history| - 1].Draw? then 0 else 1)
  }

  /** `current_player_index`: whose turn it is, counting the recorded non-draw actions. */
  function CurrentPlayerIndex(g: Game): (r: int)
    requires g.numPlayers > 0
    ensures 0 <= r < g.numPlayers
  {
    Turns(g.actionHistory) % g.numPlayers
  }

  /** Recording one more action moves the turn on by one exactly when it is not a draw. */
  lemma NextPlayer(g: Game, a: Action)
    requires g.numPlayers > 0
    ensures CurrentPlayerIndex(g.(actionHistory := g.actionHistory + [a])) ==
      if a.Draw? then CurrentPlayerIndex(g) else (CurrentPlayerIndex(g) + 1) % g.numPlayers
  {
    var h := g.actionHistory + [a];
    assert h[..|h| - 1] == g.actionHistory;
    if !a.Draw? {
      ModSucc(Turns(g.actionHistory), g.numPlayers);
    }
  }

  /** A positive multiple of `n` is at least `n`. */
  lemma {:induction false} MulAtLeast(d: int, n: int)
    requires d >= 1 && n > 0
    ensures d * n >= n
    decreases d
  {
    if d > 1 {
      MulAtLeast(d - 1, n);
      assert d * n == (d - 1) * n + n;
    }
  }

  /** The remainder is the unique `r` in `0..n-1` with `a == q * n + r`. */
  lemma ModUnique(a: int, n: int, q: int, r: int)
    requires n > 0 && 0 <= r < n && a == q * n + r
    ensures a % n == r
  {
    var q2 := a / n;
    var r2 := a % n;
    assert a == q2 * n + r2;
    assert (q - q2) * n == r2 - r by {
      assert q * n - q2 * n == (q - q2) * n;
    }
    if q > q2 {
      MulAtLeast(q - q2, n);
    } else if q < q2 {
      MulAtLeast(q2 - q, n);
    }
  }

  /** Counting one more turn moves the remainder on by one, cyclically. */
  lemma ModSucc(t: nat, n: int)
    requires n > 0
    ensures (t + 1) % n == (t % n + 1) % n
  {
    var q := t / n;
    var m := t % n;
    assert t == q * n + m;
    if m + 1 < n {
      ModUnique(t + 1, n, q, m + 1);
      ModUnique(m + 1, n, 0, m + 1);
    } else {
      assert t + 1 == (q + 1) * n + 0;
      ModUnique(t + 1, n, q + 1, 0);
      ModUnique(m + 1, n, 1, 0);
    }
  }


  // ---------------------------------------------------------------- remove_card_from_hand

  /** What `remove_card_from_hand` hands back: the card taken out (if found) and the new game. */
  datatype Taken = Taken(card: Option<Card>, game: Game)

  /** `remove_card_from_hand`: takes the card with `order` out of the player's hand. */
  function RemoveCardFromHand(g: Game, player: int, order: int): (r: Taken)
    requires 0 <= player < |g.playerHands|
    ensures r.card.None? <==> !HasOrder(g.playerHands[player], order)
    ensures r.card.None? ==> r.game == g
    ensures r.card.Some? ==> r.card.value.order == order && r.card.value in g.playerHands[player]
    ensures r.card.Some? ==> r.game == g.(playerHands := g.playerHands[player := RemoveCard(g.playerHands[player], order).rest])
    ensures r.card.Some? ==> |r.game.playerHands[player]| + 1 == |g.playerHands[player]|
  {
    var rm := RemoveCard(g.playerHands[player], order);
    match rm.card
    case None => Taken(None, g)
    case Some(c) => Taken(Some(c), g.(playerHands := g.playerHands[player := rm.rest]))
  }
}
