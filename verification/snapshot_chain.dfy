/** The game tracker's snapshot history (`snapshot_history` in src/game.py): the initial snapshot
    taken once the deal is complete, and one more snapshot for every action that is not a draw.
    `HandleTracked` is the history as the code keeps it; `HandleTrackedFixed` keeps every
    snapshot's hands in step with the game's. */
module SnapshotChain {
  import opened Wrappers
  import opened Constants
  import opened Cards
  import opened Actions
  import opened Hands
  import opened Tables
  import opened Snapshots
  import opened ClueEngine
  import opened Transitions
  import G = Games
  import E = GameEvents

  /** `MAX_CARDS_PER_PLAYER`: the cards dealt to each player, by table size: five for two or
      three players, four for four or five, three for six. Other table sizes have no entry. */
  function DealSize(numPlayers: int): (r: Option<int>)
    ensures r.Some? <==> 2 <= numPlayers <= 6
    ensures r.Some? ==> 3 <= r.value <= 5
  {
    if numPlayers < 2 || numPlayers > 6 then None
    else if numPlayers <= 3 then Some(5)
    else if numPlayers <= 5 then Some(4)
    else Some(3)
  }

  /** The test of src/game.py:313-318 after a draw: every player has drawn a full hand. A table
      size without an entry raises. */
  function DealComplete(g: G.Game): (r: Result<bool>)
    ensures r.Err? <==> DealSize(g.numPlayers).None?
    ensures r.Err? ==> r.error == IndexOutOfRange
    ensures r.Ok? ==> (r.value <==> |g.actionHistory| == g.numPlayers * DealSize(g.numPlayers).value)
  {
    match DealSize(g.numPlayers)
    case None => Err(IndexOutOfRange)
    case Some(k) => Ok(|g.actionHistory| == g.numPlayers * k)
  }

  /** The tracker together with its snapshot history. */
  datatype Tracked = Tracked(game: G.Game, history: seq<Snapshot>)

  function Last(history: seq<Snapshot>): Snapshot
    requires |history| > 0
  {
    history[|history| - 1]
  }

  /** A snapshot the history can continue from, for game `g`. */
  predicate Fits(s: Snapshot, g: G.Game) {
    Valid(s) && s.numPlayers == g.numPlayers && s.numSuits == StandardSuits
  }

  predicate TrackedValid(t: Tracked) {
    && G.Valid(t.game) && 0 < t.game.numPlayers
    && (|t.history| > 0 ==> Fits(Last(t.history), t.game))
  }

  /** What the history step needs of an action: the handler's own needs, and a seat for the
      acting player. */
  predicate Acceptable(t: Tracked, a: Action) {
    E.WellFormedAction(t.game, a) && 0 <= a.player < t.game.numPlayers
  }

  /** The action the handler recorded last: the very object `handle_action` then hands to
      `next_snapshot` (src/game.py:93), after the handler wrote into it. */
  function RecordedAction(g: G.Game): Action
    requires |g.actionHistory| > 0
  {
    g.actionHistory[|g.actionHistory| - 1]
  }

  /** `b` is `a` as a handler leaves it: a play or discard carries the held card in place of the
      card shown, with the shown identity; a clue carries its final classification; a draw is
      unchanged. */
  predicate SameStep(a: Action, b: Action) {
    match a
    case Play(p, c, boom) =>
      b.Play? && b.player == p && b.boom == boom
      && b.card.order == c.order && b.card.rank == c.rank && b.card.suit == c.suit
    case Discard(p, c) =>
      b.Discard? && b.player == p
      && b.card.order == c.order && b.card.rank == c.rank && b.card.suit == c.suit
    case GiveClue(p, clue) => b.GiveClue? && b.player == p && b.clue == clue.(classification := b.clue.classification)
    case Draw(_, _) => b == a
  }

  /** What the handler records for an action it takes: the same step, and for a play or discard
      the card held in the hand with the shown identity written in. */
  lemma RecordedStep(g: G.Game, a: Action)
    requires G.Valid(g) && E.WellFormedAction(g, a) && E.HandleAction(g, a).Ok?
    ensures |E.HandleAction(g, a).value.actionHistory| > 0
    ensures SameStep(a, RecordedAction(E.HandleAction(g, a).value))
    ensures (a.Play? || a.Discard?) ==>
      exists c :: c in g.playerHands[a.player] && c.order == a.card.order
                  && RecordedAction(E.HandleAction(g, a).value).card == E.Reveal(c, a.card)
  {
    var r := E.HandleAction(g, a).value;
    match a
    case Play(p, shown, boom) =>
      var move := if boom then E.Boomed else E.Played;
      var c :| c in g.playerHands[p] && c.order == shown.order
               && r.actionHistory == g.actionHistory + [E.Recorded(p, E.Reveal(c, shown), move)];
      assert RecordedAction(r) == E.Recorded(p, E.Reveal(c, shown), move);
    case Discard(p, shown) =>
      var c :| c in g.playerHands[p] && c.order == shown.order
               && r.actionHistory == g.actionHistory + [E.Recorded(p, E.Reveal(c, shown), E.Discarded)];
      assert RecordedAction(r) == E.Recorded(p, E.Reveal(c, shown), E.Discarded);
    case GiveClue(p, clue) =>
      var k :| r.actionHistory == g.actionHistory + [GiveClue(p, clue.(classification := k))];
      assert RecordedAction(r) == GiveClue(p, clue.(classification := k));
    case Draw(p, c) =>
      assert RecordedAction(r) == a;
  }

  /** `take_initial_snapshot`: a snapshot of the dealt hands with full tokens and empty piles. */
  function InitialSnapshot(g: G.Game): (s: Snapshot)
    requires G.Valid(g) && 0 < g.numPlayers
    ensures Fits(s, g) && s.hands == g.playerHands
    ensures s.clueTokens == MaxClueNum && s.boomTokens == MaxBoomNum
    ensures s.playPile == [] && s.discardPile == [] && s.actionHistory == []
  {
    Initialize(g.numPlayers, 0, g.playerHands)
  }

  /** The snapshot `snapshot_history[-1]` denotes when game.py:93 reads it, after the handler has
      updated the game to `hands`. `initialize` keeps the hand lists it is given
      (src/snapshot.py:61), so the initial snapshot shares them with the game and sees every
      later change to them; `next_snapshot` deep-copies the hands (src/snapshot.py:81), so every
      later snapshot keeps the hands it was built with. */
  function Latest(history: seq<Snapshot>, hands: seq<seq<Card>>): Snapshot
    requires |history| > 0
  {
    if |history| == 1 then history[0].(hands := hands) else Last(history)
  }

  lemma LatestFits(t: Tracked, g: G.Game)
    requires TrackedValid(t) && |t.history| > 0
    requires G.Valid(g) && g.numPlayers == t.game.numPlayers
    ensures Fits(Latest(t.history, g.playerHands), g)
  {
  }

  // ---------------------------------------------------------------- as the code keeps it

  /** `handle_action` with the history step of src/game.py:91-94: the handler runs first; a draw
      may complete the deal and take the initial snapshot; any other action, once a history
      exists, appends `next_snapshot` of the latest snapshot, whose failure is the action's. */
  function HandleTracked(t: Tracked, a: Action): (r: Result<Tracked>)
    requires TrackedValid(t) && Acceptable(t, a)
    ensures r.Ok? ==> TrackedValid(r.value)
    ensures E.HandleAction(t.game, a).Err? ==> r.Err?
    ensures r.Ok? ==> E.HandleAction(t.game, a) == Ok(r.value.game)
    ensures r.Ok? && a.Draw? ==>
      r.value.history == t.history || r.value.history == t.history + [InitialSnapshot(r.value.game)]
    ensures r.Ok? && !a.Draw? ==>
      |r.value.history| == |t.history| + (if |t.history| == 0 then 0 else 1)
      && r.value.history[..|t.history|] == t.history
    ensures r.Ok? && !a.Draw? ==> |r.value.game.actionHistory| > 0 && SameStep(a, RecordedAction(r.value.game))
    ensures r.Ok? && !a.Draw? && |t.history| > 0 ==>
      Last(r.value.history).actionHistory == Last(t.history).actionHistory + [RecordedAction(r.value.game)]
  {
    var g :- E.HandleAction(t.game, a);
    if a.Draw? then DrawStep(t.history, g)
    else
      RecordedStep(t.game, a);
      MoveStep(t, g, a, RecordedAction(g))
  }

  /** The history after a draw the handler took, leaving the game `g`. */
  function DrawStep(history: seq<Snapshot>, g: G.Game): (r: Result<Tracked>)
    requires G.Valid(g) && 0 < g.numPlayers
    requires |history| > 0 ==> Fits(Last(history), g)
    ensures r.Ok? ==> TrackedValid(r.value) && r.value.game == g
    ensures r.Ok? ==> r.value.history == history || r.value.history == history + [InitialSnapshot(g)]
  {
    var done :- DealComplete(g);
    if done then Ok(Tracked(g, history + [InitialSnapshot(g)])) else Ok(Tracked(g, history))
  }

  /** The history after a play, discard or clue the handler took and recorded as `b`, leaving the
      game `g`. */
  function MoveStep(t: Tracked, g: G.Game, a: Action, b: Action): (r: Result<Tracked>)
    requires TrackedValid(t) && Acceptable(t, a) && !a.Draw? && SameStep(a, b)
    requires G.Valid(g) && g.numPlayers == t.game.numPlayers
    ensures r.Ok? ==> TrackedValid(r.value) && r.value.game == g
    ensures r.Ok? ==>
      |r.value.history| == |t.history| + (if |t.history| == 0 then 0 else 1)
      && r.value.history[..|t.history|] == t.history
    ensures r.Ok? && |t.history| > 0 ==>
      Last(r.value.history).actionHistory == Last(t.history).actionHistory + [b]
  {
    if |t.history| == 0 then Ok(Tracked(g, t.history))
    else
      LatestFits(t, g);
      var next :- NextSnapshot(Latest(t.history, g.playerHands), b);
      assert (t.history + [next])[..|t.history|] == t.history;
      Ok(Tracked(g, t.history + [next]))
  }

  /** Draws never reach the history: short of completing the deal, a draw leaves it as it was. */
  lemma DrawSkipsHistory(t: Tracked, p: int, c: Card)
    requires TrackedValid(t) && 0 <= p < t.game.numPlayers && CardInRange(c, StandardSuits)
    requires DealSize(t.game.numPlayers).Some?
    requires |t.game.actionHistory| + 1 != t.game.numPlayers * DealSize(t.game.numPlayers).value
    ensures HandleTracked(t, Draw(p, c)).Ok?
    ensures HandleTracked(t, Draw(p, c)).value.history == t.history
    ensures HandleTracked(t, Draw(p, c)).value.game.playerHands[p] == t.game.playerHands[p] + [c]
  {
  }

  /** A discard fails once the latest snapshot's hand lacks the card. */
  lemma DiscardMissingFails(t: Tracked, p: int, shown: Card)
    requires TrackedValid(t) && |t.history| > 0 && 0 <= p < t.game.numPlayers && G.Revealed(shown)
    requires E.HandleAction(t.game, Discard(p, shown)).Ok?
    requires !HasOrder(Latest(t.history, E.HandleAction(t.game, Discard(p, shown)).value.playerHands).hands[p], shown.order)
    ensures HandleTracked(t, Discard(p, shown)) == Err(CardNotFound)
  {
    var g := E.HandleAction(t.game, Discard(p, shown)).value;
    LatestFits(t, g);
    var s := Latest(t.history, g.playerHands);
    var fork := s.(numRemainingCards := Unknown, postDrawTurns := 0, startPlayerIndex := Unknown);
    assert PerformDiscard(fork, p, shown.order) == Err(CardNotFound);
  }

  /** A card drawn after the latest snapshot was taken cannot be discarded: the game accepts the
      discard, and the history step then looks the card up in a snapshot that never saw it
      (`None.status` at src/snapshot.py:240-242). */
  lemma DiscardOfLaterDrawFails(t: Tracked, p: int, c: Card, shown: Card)
    requires TrackedValid(t) && |t.history| >= 2 && 0 <= p < t.game.numPlayers
    requires CardInRange(c, StandardSuits) && G.Revealed(shown) && shown.order == c.order
    requires !HasOrder(Last(t.history).hands[p], c.order)
    requires DealSize(t.game.numPlayers).Some?
    requires |t.game.actionHistory| + 1 != t.game.numPlayers * DealSize(t.game.numPlayers).value
    ensures HandleTracked(t, Draw(p, c)).Ok?
    ensures var t1 := HandleTracked(t, Draw(p, c)).value;
      && E.HandleAction(t1.game, Discard(p, shown)).Ok?
      && HandleTracked(t1, Discard(p, shown)) == Err(CardNotFound)
  {
    DrawSkipsHistory(t, p, c);
    var t1 := HandleTracked(t, Draw(p, c)).value;
    var hand := t1.game.playerHands[p];
    assert hand[|hand| - 1] == c;
    assert HasOrder(hand, shown.order);
    DiscardMissingFails(t1, p, shown);
  }

  /** Taking the card with a given order out of a hand whose orders are distinct leaves no card
      with that order. */
  lemma RemoveDistinctGone(hand: seq<Card>, order: int)
    requires forall i, j :: 0 <= i < j < |hand| ==> hand[i].order != hand[j].order
    ensures !HasOrder(RemoveCard(hand, order).rest, order)
  {
    var rest := RemoveCard(hand, order).rest;
    match FindSlot(hand, order)
    case None =>
    case Some(i) =>
      assert rest == hand[..i] + hand[i + 1..];
      forall j | 0 <= j < |rest| ensures rest[j].order != order {
        if j < i { assert rest[j] == hand[j]; } else { assert rest[j] == hand[j + 1]; }
      }
  }

  /** The first discard after the deal fails too: the initial snapshot shares the game's hands,
      from which the handler has already taken the card. */
  lemma FirstDiscardFails(t: Tracked, p: int, shown: Card)
    requires TrackedValid(t) && |t.history| == 1 && 0 <= p < t.game.numPlayers && G.Revealed(shown)
    requires HasOrder(t.game.playerHands[p], shown.order)
    requires var hand := t.game.playerHands[p];
      forall i, j :: 0 <= i < j < |hand| ==> hand[i].order != hand[j].order
    ensures E.HandleAction(t.game, Discard(p, shown)).Ok?
    ensures HandleTracked(t, Discard(p, shown)) == Err(CardNotFound)
  {
    var g := E.HandleAction(t.game, Discard(p, shown)).value;
    RemoveDistinctGone(t.game.playerHands[p], shown.order);
    assert g.playerHands[p] == RemoveCard(t.game.playerHands[p], shown.order).rest;
    DiscardMissingFails(t, p, shown);
  }

  // ---------------------------------------------------------------- hands kept in step

  /** Draws join the latest snapshot's hand, as the line left commented out at src/game.py:309
      would do. */
  function DrawIntoLast(history: seq<Snapshot>, p: int, c: Card): (r: seq<Snapshot>)
    requires |history| > 0 && 0 <= p < |Last(history).hands|
    ensures |r| == |history| && r[..|history| - 1] == history[..|history| - 1]
    ensures Last(r) == Last(history).(hands := Last(history).hands[p := Last(history).hands[p] + [c]])
  {
    var s := Last(history);
    history[..|history| - 1] + [s.(hands := s.hands[p := s.hands[p] + [c]])]
  }

  /** The history kept in step with the game: the initial snapshot is a copy of the dealt hands,
      draws join the latest snapshot, and every other action appends `next_snapshot` of the
      latest snapshot. */
  function HandleTrackedFixed(t: Tracked, a: Action): (r: Result<Tracked>)
    requires TrackedValid(t) && Acceptable(t, a)
    ensures r.Ok? ==> TrackedValid(r.value)
    ensures E.HandleAction(t.game, a).Err? ==> r.Err?
    ensures r.Ok? ==> E.HandleAction(t.game, a) == Ok(r.value.game)
    ensures r.Ok? && !a.Draw? ==>
      |r.value.history| == |t.history| + (if |t.history| == 0 then 0 else 1)
      && r.value.history[..|t.history|] == t.history
    ensures r.Ok? && !a.Draw? && |t.history| > 0 ==>
      |r.value.game.actionHistory| > 0
      && Last(r.value.history).actionHistory == Last(t.history).actionHistory + [RecordedAction(r.value.game)]
  {
    var g :- E.HandleAction(t.game, a);
    if a.Draw? then DrawStepFixed(t.history, g, a.player, a.card)
    else
      RecordedStep(t.game, a);
      MoveStepFixed(t, g, a, RecordedAction(g))
  }

  function DrawStepFixed(history: seq<Snapshot>, g: G.Game, p: int, c: Card): (r: Result<Tracked>)
    requires G.Valid(g) && 0 < g.numPlayers && 0 <= p < g.numPlayers && CardInRange(c, StandardSuits)
    requires |history| > 0 ==> Fits(Last(history), g)
    ensures r.Ok? ==> TrackedValid(r.value) && r.value.game == g
  {
    var done :- DealComplete(g);
    if done then Ok(Tracked(g, history + [InitialSnapshot(g)]))
    else if |history| == 0 then Ok(Tracked(g, history))
    else
      var h := DrawIntoLast(history, p, c);
      assert Fits(Last(h), g);
      Ok(Tracked(g, h))
  }

  function MoveStepFixed(t: Tracked, g: G.Game, a: Action, b: Action): (r: Result<Tracked>)
    requires TrackedValid(t) && Acceptable(t, a) && !a.Draw? && SameStep(a, b)
    requires G.Valid(g) && g.numPlayers == t.game.numPlayers
    ensures r.Ok? ==> TrackedValid(r.value) && r.value.game == g
    ensures r.Ok? ==>
      |r.value.history| == |t.history| + (if |t.history| == 0 then 0 else 1)
      && r.value.history[..|t.history|] == t.history
    ensures r.Ok? && |t.history| > 0 ==>
      Last(r.value.history).actionHistory == Last(t.history).actionHistory + [b]
  {
    if |t.history| == 0 then Ok(Tracked(g, t.history))
    else
      var next :- NextSnapshot(Last(t.history), b);
      assert (t.history + [next])[..|t.history|] == t.history;
      Ok(Tracked(g, t.history + [next]))
  }

  /** The latest snapshot holds, hand by hand, the orders the game holds. */
  predicate Synced(t: Tracked) {
    |t.history| > 0 ==>
      var s := Last(t.history);
      |s.hands| == |t.game.playerHands|
      && forall p :: 0 <= p < |s.hands| ==> SameOrders(s.hands[p], t.game.playerHands[p])
  }

  /** What a handled action does to the orders in the game's hands. */
  lemma GameStepOrders(g: G.Game, a: Action)
    requires G.Valid(g) && E.WellFormedAction(g, a) && E.HandleAction(g, a).Ok?
    ensures var r := E.HandleAction(g, a).value;
      && |r.playerHands| == |g.playerHands|
      && (a.Draw? ==> r.playerHands == g.playerHands[a.player := g.playerHands[a.player] + [a.card]])
      && ((a.Play? || a.Discard?) ==>
           r.playerHands == g.playerHands[a.player := RemoveCard(g.playerHands[a.player], a.card.order).rest])
      && (a.GiveClue? ==> forall p :: 0 <= p < |g.playerHands| ==> SameOrders(r.playerHands[p], g.playerHands[p]))
  {
    if a.GiveClue? {
      var r := E.HandleAction(g, a).value;
      var rc := a.clue.receiver;
      var o := E.ReceiveClue(g, g.playerHands[rc], a.clue).value;
      assert r.playerHands[rc] == o.hand;
    }
  }

  /** What `next_snapshot` does to the orders in the hands: a draw appends the card, a play or
      discard takes out the card's order, and a clue keeps every order. */
  lemma SnapshotStepOrders(s: Snapshot, a: Action)
    requires Valid(s) && WellFormed(s, a) && NextSnapshot(s, a).Ok?
    ensures var r := NextSnapshot(s, a).value;
      && |r.hands| == |s.hands|
      && (a.Draw? ==> r.hands == s.hands[a.player := s.hands[a.player] + [a.card]])
      && ((a.Play? || a.Discard?) ==>
           SameOrders(r.hands[a.player], RemoveCard(s.hands[a.player], a.card.order).rest)
           && forall p :: 0 <= p < |s.hands| && p != a.player ==> SameOrders(r.hands[p], s.hands[p]))
      && (a.GiveClue? ==> forall p :: 0 <= p < |s.hands| ==> SameOrders(r.hands[p], s.hands[p]))
  {
    var fork := s.(numRemainingCards := Unknown, postDrawTurns := 0, startPlayerIndex := Unknown);
    if !a.Draw? {
      var m := PerformMove(fork, a).value;
      assert NextSnapshot(s, a).value.hands == m.hands;
      if a.GiveClue? {
        forall p | 0 <= p < |s.hands| ensures SameOrders(m.hands[p], s.hands[p]) {
          if p == a.clue.receiver {
            assert NotesOnly(m.hands[p], s.hands[p]);
          }
        }
      }
    }
  }

  /** Holding the same orders is transitive. */
  lemma SameOrdersTrans(a: seq<Card>, b: seq<Card>, c: seq<Card>)
    requires SameOrders(a, b) && SameOrders(b, c)
    ensures SameOrders(a, c)
  {
  }

  /** Kept in step, the history stays in step: every handled action leaves the latest snapshot
      holding the orders the game holds. */
  lemma FixedKeepsSynced(t: Tracked, a: Action)
    requires TrackedValid(t) && Acceptable(t, a) && Synced(t)
    requires HandleTrackedFixed(t, a).Ok?
    ensures Synced(HandleTrackedFixed(t, a).value)
  {
    var r := HandleTrackedFixed(t, a).value;
    var g := r.game;
    GameStepOrders(t.game, a);
    if |r.history| > 0 {
      if a.Draw? {
        if Last(r.history) != InitialSnapshot(g) {
          DrawKeepsSynced(t, a, r);
        }
      } else {
        MoveKeepsSynced(t, a, r);
      }
    }
  }

  lemma DrawKeepsSynced(t: Tracked, a: Action, r: Tracked)
    requires TrackedValid(t) && Acceptable(t, a) && Synced(t) && a.Draw?
    requires HandleTrackedFixed(t, a) == Ok(r) && |r.history| > 0 && Last(r.history) != InitialSnapshot(r.game)
    ensures Synced(r)
  {
    GameStepOrders(t.game, a);
    var s := Last(t.history);
    assert Last(r.history).hands == s.hands[a.player := s.hands[a.player] + [a.card]];
    var p := a.player;
    assert SameOrders(s.hands[p] + [a.card], t.game.playerHands[p] + [a.card]);
  }

  lemma MoveKeepsSynced(t: Tracked, a: Action, r: Tracked)
    requires TrackedValid(t) && Acceptable(t, a) && Synced(t) && !a.Draw?
    requires HandleTrackedFixed(t, a) == Ok(r) && |r.history| > 0
    ensures Synced(r)
  {
    GameStepOrders(t.game, a);
    RecordedStep(t.game, a);
    var b := RecordedAction(r.game);
    var s := Last(t.history);
    SnapshotStepOrders(s, b);
    var n := Last(r.history);
    assert n == NextSnapshot(s, b).value;
    forall p | 0 <= p < |n.hands| ensures SameOrders(n.hands[p], r.game.playerHands[p]) {
      if (a.Play? || a.Discard?) && p == a.player {
        RemoveSameOrders(s.hands[p], t.game.playerHands[p], a.card.order);
        SameOrdersTrans(n.hands[p], RemoveCard(s.hands[p], a.card.order).rest, r.game.playerHands[p]);
      } else {
        SameOrdersTrans(n.hands[p], s.hands[p], r.game.playerHands[p]);
      }
    }
  }

  /** Kept in step, a play or discard of a card in the player's hand is accepted by the game;
      the play always reaches the next snapshot, and the discard fails only because the snapshot
      believes the card useful. */
  lemma FixedMoveFindsCard(t: Tracked, a: Action)
    requires TrackedValid(t) && Acceptable(t, a) && Synced(t) && |t.history| > 0
    requires (a.Play? || a.Discard?) && HasOrder(t.game.playerHands[a.player], a.card.order)
    ensures E.HandleAction(t.game, a).Ok?
    ensures HandleTrackedFixed(t, a).Ok? || (a.Discard? && HandleTrackedFixed(t, a).error == PossiblyUseful)
  {
    var s := Last(t.history);
    var p := a.player;
    RecordedStep(t.game, a);
    SameOrdersHasOrder(s.hands[p], t.game.playerHands[p], a.card.order);
    var fork := s.(numRemainingCards := Unknown, postDrawTurns := 0, startPlayerIndex := Unknown);
    assert HasOrder(fork.hands[p], a.card.order);
  }
}
