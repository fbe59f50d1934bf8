/** The convention check that filters moves, and the bounded look-ahead search that ranks them. */
module Conventions {
  import opened Wrappers
  import opened Constants
  import opened Clues
  import opened Cards
  import opened Actions
  import opened Hands
  import opened Seqs
  import opened Tables
  import opened Snapshots
  import opened ValidActions
  import opened ClueEngine
  import opened Transitions

  // ---------------------------------------------------------------- check_convention

  predicate Known(c: Card) {
    c.suit != Unknown && c.rank != Unknown
  }

  predicate KnownState(c: Card) {
    c.status in {PlayableKnownByPlayer, TrashKnownByPlayer}
  }

  /** Walks the touched cards in clue order with a running hints table: a clue fails on a known
      card whose identity is then counted twice or is already played, and on a card whose
      holder already knows it is playable or trash. */
  function CheckTouched(s: Snapshot, hand: seq<Card>, orders: seq<int>, table: Table): (r: Result<bool>)
    requires Valid(s) && AllInRange(hand, s.numSuits) && IsTable(table, s.numSuits)
    ensures r.Err? ==> r.error == CardNotFound
    decreases |orders|
  {
    if |orders| == 0 then Ok(true)
    else match FindSlot(hand, orders[0])
      case None => Err(CardNotFound)
      case Some(i) =>
        var c := hand[i];
        if Known(c) then
          var t := Bump(table, c.suit, c.rank);
          if t[c.suit][c.rank] > 1 then Ok(false)
          else if Played(s)[c.suit] >= c.rank then Ok(false)
          else if KnownState(c) then Ok(false)
          else CheckTouched(s, hand, orders[1..], t)
        else if KnownState(c) then Ok(false)
        else CheckTouched(s, hand, orders[1..], table)
  }

  /** `check_convention` on a snapshot whose trash notes are already recalculated: a play is
      sound when the card is known playable, a discard when it is known trash or untouched. */
  function CheckOn(t: Snapshot, a: Action): (r: Result<bool>)
    requires Valid(t)
  {
    match a
    case Play(p, c, _) =>
      if !(-|t.hands| <= p < |t.hands|) then Err(IndexOutOfRange)
      else (match CardByOrder(t.hands[PySlot(p, |t.hands|)], c.order)
        case None => Err(CardNotFound)
        case Some(card) => Ok(card.status == PlayableKnownByPlayer))
    case Discard(p, c) =>
      if !(-|t.hands| <= p < |t.hands|) then Err(IndexOutOfRange)
      else (match CardByOrder(t.hands[PySlot(p, |t.hands|)], c.order)
        case None => Err(CardNotFound)
        case Some(card) => Ok(card.status in {TrashKnownByPlayer, Unspecified}))
    case GiveClue(_, clue) =>
      if |clue.touchedOrders| == 0 then Ok(true)
      else if !(-|t.hands| <= clue.receiver < |t.hands|) then Err(IndexOutOfRange)
      else CheckTouched(t, t.hands[PySlot(clue.receiver, |t.hands|)], clue.touchedOrders, Hints(t))
    case Draw(_, _) => Err(NotAClue)
  }

  /** The verdict and the snapshot left behind: the check recalculates trash notes in place. */
  datatype Verdict = Verdict(sound: bool, after: Snapshot)

  /** `check_convention`. */
  function CheckConvention(s: Snapshot, a: Action): (r: Result<Verdict>)
    requires Valid(s)
    ensures r.Ok? ==> r.value.after == RecalculateTrashCards(s)
  {
    var t := RecalculateTrashCards(s);
    var ok :- CheckOn(t, a);
    Ok(Verdict(ok, t))
  }

  /** The verdict on a play or discard reads the card's note after trash recalculation: a
      known-playable card the snapshot shows to be useless is no longer a sound play, and such a
      card is always a sound discard. */
  lemma MoveVerdict(s: Snapshot, a: Action)
    requires Valid(s) && (a.Play? || a.Discard?) && 0 <= a.player < |s.hands|
    requires HasOrder(s.hands[a.player], a.card.order)
    ensures var c := CardByOrder(s.hands[a.player], a.card.order).value;
      CardInRange(c, s.numSuits)
      && CheckConvention(s, a) == Ok(Verdict(
        if a.Play? then c.status == PlayableKnownByPlayer && IsUseful(s, c)
        else c.status in {TrashKnownByPlayer, Unspecified} || !IsUseful(s, c),
        RecalculateTrashCards(s)))
  {
    var hand := s.hands[a.player];
    var t := RecalculateTrashCards(s);
    var i := FindSlot(hand, a.card.order).value;
    assert t.hands[a.player][i] == RecalcCard(s, hand[i]) by {
      assert t.hands[a.player] == RecalcHand(s, hand);
    }
    FindSlotOrdersOnly(t.hands[a.player], hand, a.card.order);
  }

  /** A clue touching no card passes whoever receives it: the receiver's hand is only looked up
      for touched cards. A clue touching some card of a seat outside the table fails. */
  lemma ClueVerdictReceiver(s: Snapshot, a: Action)
    requires Valid(s) && a.GiveClue?
    ensures |a.clue.touchedOrders| == 0 ==> CheckConvention(s, a) == Ok(Verdict(true, RecalculateTrashCards(s)))
    ensures |a.clue.touchedOrders| > 0 && !(-|s.hands| <= a.clue.receiver < |s.hands|) ==>
      CheckConvention(s, a) == Err(IndexOutOfRange)
  {
  }

  /** Number of touched cards before position `k` known to be `(suit, rank)`. */
  predicate TouchedTwice(hand: seq<Card>, orders: seq<int>, k: int)
    requires 0 <= k < |orders| && forall j :: 0 <= j < |orders| ==> HasOrder(hand, orders[j])
  {
    var c := CardByOrder(hand, orders[k]).value;
    exists j :: 0 <= j < k && CardByOrder(hand, orders[j]).value.suit == c.suit
      && CardByOrder(hand, orders[j]).value.rank == c.rank
  }

  /** What makes a clue sound, card by card: every touched card is in the hand, no touched card
      is already known playable or trash, and every touched card of known identity is unplayed,
      touched nowhere else and touched only once by this clue. */
  predicate SoundClue(s: Snapshot, hand: seq<Card>, orders: seq<int>)
    requires Valid(s) && AllInRange(hand, s.numSuits)
  {
    && (forall j :: 0 <= j < |orders| ==> HasOrder(hand, orders[j]))
    && forall k :: 0 <= k < |orders| ==>
      var c := CardByOrder(hand, orders[k]).value;
      && !KnownState(c)
      && (Known(c) ==> Played(s)[c.suit] < c.rank && Hints(s)[c.suit][c.rank] == 0 && !TouchedTwice(hand, orders, k))
  }

  predicate NonNegative(t: Table) {
    forall i, j :: 0 <= i < |t| && 0 <= j < |t[i]| ==> t[i][j] >= 0
  }

  /** `SoundClue` against an arbitrary running table in place of the hints table. */
  predicate SoundFrom(s: Snapshot, hand: seq<Card>, orders: seq<int>, table: Table)
    requires Valid(s) && AllInRange(hand, s.numSuits) && IsTable(table, s.numSuits)
  {
    && (forall j :: 0 <= j < |orders| ==> HasOrder(hand, orders[j]))
    && forall k :: 0 <= k < |orders| ==>
      var c := CardByOrder(hand, orders[k]).value;
      && !KnownState(c)
      && (Known(c) ==> Played(s)[c.suit] < c.rank && table[c.suit][c.rank] == 0 && !TouchedTwice(hand, orders, k))
  }

  lemma CardByOrderInRange(s: Snapshot, hand: seq<Card>, o: int)
    requires Valid(s) && AllInRange(hand, s.numSuits) && HasOrder(hand, o)
    ensures CardInRange(CardByOrder(hand, o).value, s.numSuits)
  {
    var i := FindSlot(hand, o).value;
    assert CardByOrder(hand, o).value == hand[i];
  }

  lemma {:induction false} CheckTouchedSound(s: Snapshot, hand: seq<Card>, orders: seq<int>, table: Table)
    requires Valid(s) && AllInRange(hand, s.numSuits) && IsTable(table, s.numSuits) && NonNegative(table)
    ensures CheckTouched(s, hand, orders, table) == Ok(true) <==> SoundFrom(s, hand, orders, table)
    decreases |orders|
  {
    if |orders| > 0 && HasOrder(hand, orders[0]) {
      var rest := orders[1..];
      var c := CardByOrder(hand, orders[0]).value;
      CardByOrderInRange(s, hand, orders[0]);
      assert c == hand[FindSlot(hand, orders[0]).value];
      var t := if Known(c) then Bump(table, c.suit, c.rank) else table;
      assert NonNegative(t);
      CheckTouchedSound(s, hand, rest, t);
      if !KnownState(c) && (Known(c) ==> Played(s)[c.suit] < c.rank && table[c.suit][c.rank] == 0) {
        assert CheckTouched(s, hand, orders, table) == CheckTouched(s, hand, rest, t);
        SoundFromStep(s, hand, orders, table, t);
      } else {
        assert !SoundFrom(s, hand, orders, table) by {
          assert CardByOrder(hand, orders[0]).value == c;
        }
      }
    } else if |orders| > 0 {
      assert !SoundFrom(s, hand, orders, table);
    }
  }

  /** One step of the walk: a sound head card moves the condition onto the tail with the head's
      identity counted. */
  lemma SoundFromStep(s: Snapshot, hand: seq<Card>, orders: seq<int>, table: Table, t: Table)
    requires Valid(s) && AllInRange(hand, s.numSuits) && IsTable(table, s.numSuits) && NonNegative(table)
    requires |orders| > 0 && HasOrder(hand, orders[0])
    requires var c := CardByOrder(hand, orders[0]).value;
      && CardInRange(c, s.numSuits)
      && !KnownState(c) && (Known(c) ==> Played(s)[c.suit] < c.rank && table[c.suit][c.rank] == 0)
      && t == if Known(c) then Bump(table, c.suit, c.rank) else table
    ensures SoundFrom(s, hand, orders, table) <==> SoundFrom(s, hand, orders[1..], t)
  {
    var rest := orders[1..];
    if (forall j :: 0 <= j < |orders| ==> HasOrder(hand, orders[j])) {
      SoundFromForward(s, hand, orders, table, t);
      SoundFromBackward(s, hand, orders, table, t);
    } else {
      var j :| 0 <= j < |orders| && !HasOrder(hand, orders[j]);
      assert j > 0 && rest[j - 1] == orders[j];
    }
  }

  /** Every touched order after the head is in the hand too. */
  lemma TailHasOrders(hand: seq<Card>, orders: seq<int>)
    requires |orders| > 0 && forall j :: 0 <= j < |orders| ==> HasOrder(hand, orders[j])
    ensures forall j :: 0 <= j < |orders| - 1 ==> HasOrder(hand, orders[1..][j])
  {
    forall j | 0 <= j < |orders| - 1 ensures HasOrder(hand, orders[1..][j]) { assert orders[1..][j] == orders[j + 1]; }
  }

  lemma SoundFromForward(s: Snapshot, hand: seq<Card>, orders: seq<int>, table: Table, t: Table)
    requires Valid(s) && AllInRange(hand, s.numSuits) && IsTable(table, s.numSuits) && NonNegative(table)
    requires |orders| > 0 && forall j :: 0 <= j < |orders| ==> HasOrder(hand, orders[j])
    requires var c := CardByOrder(hand, orders[0]).value;
      && CardInRange(c, s.numSuits)
      && !KnownState(c) && (Known(c) ==> Played(s)[c.suit] < c.rank && table[c.suit][c.rank] == 0)
      && t == if Known(c) then Bump(table, c.suit, c.rank) else table
    ensures SoundFrom(s, hand, orders, table) ==> SoundFrom(s, hand, orders[1..], t)
  {
    var rest := orders[1..];
    TailHasOrders(hand, orders);
    if SoundFrom(s, hand, orders, table) {
      forall k | 0 <= k < |rest| ensures var d := CardByOrder(hand, rest[k]).value;
        && !KnownState(d)
        && (Known(d) ==> Played(s)[d.suit] < d.rank && t[d.suit][d.rank] == 0 && !TouchedTwice(hand, rest, k))
      {
        assert rest[k] == orders[k + 1];
        if Known(CardByOrder(hand, rest[k]).value) {
          SoundFromShift(s, hand, orders, table, t, k);
        }
      }
    }
  }

  lemma SoundFromBackward(s: Snapshot, hand: seq<Card>, orders: seq<int>, table: Table, t: Table)
    requires Valid(s) && AllInRange(hand, s.numSuits) && IsTable(table, s.numSuits) && NonNegative(table)
    requires |orders| > 0 && forall j :: 0 <= j < |orders| ==> HasOrder(hand, orders[j])
    requires var c := CardByOrder(hand, orders[0]).value;
      && CardInRange(c, s.numSuits)
      && !KnownState(c) && (Known(c) ==> Played(s)[c.suit] < c.rank && table[c.suit][c.rank] == 0)
      && t == if Known(c) then Bump(table, c.suit, c.rank) else table
    ensures SoundFrom(s, hand, orders[1..], t) ==> SoundFrom(s, hand, orders, table)
  {
    var rest := orders[1..];
    TailHasOrders(hand, orders);
    if SoundFrom(s, hand, rest, t) {
      forall k | 0 <= k < |orders| ensures var d := CardByOrder(hand, orders[k]).value;
        && !KnownState(d)
        && (Known(d) ==> Played(s)[d.suit] < d.rank && table[d.suit][d.rank] == 0 && !TouchedTwice(hand, orders, k))
      {
        if k > 0 {
          assert orders[k] == rest[k - 1];
          if Known(CardByOrder(hand, orders[k]).value) {
            SoundFromShift(s, hand, orders, table, t, k - 1);
          }
        }
      }
    }
  }

  /** One touched card further down the walk: counting the head card in the table stands for
      looking back at the head when asking whether the card was touched twice. */
  lemma SoundFromShift(s: Snapshot, hand: seq<Card>, orders: seq<int>, table: Table, t: Table, k: int)
    requires Valid(s) && AllInRange(hand, s.numSuits) && IsTable(table, s.numSuits) && NonNegative(table)
    requires |orders| > 0 && forall j :: 0 <= j < |orders| ==> HasOrder(hand, orders[j])
    requires var c := CardByOrder(hand, orders[0]).value;
      && CardInRange(c, s.numSuits)
      && (Known(c) ==> table[c.suit][c.rank] == 0)
      && t == if Known(c) then Bump(table, c.suit, c.rank) else table
    requires 0 <= k < |orders| - 1 && Known(CardByOrder(hand, orders[k + 1]).value)
    requires forall j :: 0 <= j < |orders| - 1 ==> HasOrder(hand, orders[1..][j])
    ensures var d := CardByOrder(hand, orders[k + 1]).value;
      (table[d.suit][d.rank] == 0 && !TouchedTwice(hand, orders, k + 1)) <==>
      (t[d.suit][d.rank] == 0 && !TouchedTwice(hand, orders[1..], k))
  {
    var rest := orders[1..];
    var d := CardByOrder(hand, rest[k]).value;
    assert rest[k] == orders[k + 1];
    CardByOrderInRange(s, hand, rest[k]);
    assert forall j :: 0 <= j < k ==> rest[j] == orders[j + 1];
    if TouchedTwice(hand, rest, k) {
      var j :| 0 <= j < k && CardByOrder(hand, rest[j]).value.suit == d.suit
        && CardByOrder(hand, rest[j]).value.rank == d.rank;
      assert CardByOrder(hand, orders[j + 1]).value.suit == d.suit;
    }
    if TouchedTwice(hand, orders, k + 1) {
      var j :| 0 <= j < k + 1 && CardByOrder(hand, orders[j]).value.suit == d.suit
        && CardByOrder(hand, orders[j]).value.rank == d.rank;
      if j > 0 {
        assert orders[j] == rest[j - 1];
        assert TouchedTwice(hand, rest, k);
      }
    }
  }

  /** A clue passes the check exactly when it is sound card by card. */
  lemma CheckClueIsSound(s: Snapshot, hand: seq<Card>, orders: seq<int>)
    requires Valid(s) && AllInRange(hand, s.numSuits)
    ensures CheckTouched(s, hand, orders, Hints(s)) == Ok(true) <==> SoundClue(s, hand, orders)
  {
    var h := Hints(s);
    assert NonNegative(h) by {
      forall i, j | 0 <= i < |h| && 0 <= j < |h[i]| ensures h[i][j] >= 0 {
        HintsTableCounts(s.hands, Unknown, s.numSuits, i, j);
      }
    }
    CheckTouchedSound(s, hand, orders, h);
  }

  // ---------------------------------------------------------------- search

  /** What `next_snapshot` needs to succeed on `a`. */
  predicate Searchable(t: Snapshot, a: Action) {
    Valid(t) && WellFormed(t, a) && NextSnapshot(t, a).Ok?
  }

  function Fork(t: Snapshot): Snapshot {
    t.(numRemainingCards := Unknown, postDrawTurns := 0, startPlayerIndex := Unknown)
  }

  lemma NextSnapshotOk(t: Snapshot, a: Action)
    requires Valid(t) && WellFormed(t, a) && PerformAction(Fork(t), a).Ok?
    ensures Searchable(t, a)
  {
  }

  /** Every move the rules allow, once it passes the convention check on the recalculated
      snapshot, can be simulated: `next_snapshot` raises on none of them. */
  lemma SoundMoveSucceeds(s: Snapshot, viewer: int, player: int, a: Action)
    requires Valid(s) && 0 <= player < s.numPlayers && Allowed(s, viewer, player, a)
    requires CheckOn(RecalculateTrashCards(s), a) == Ok(true)
    ensures Searchable(RecalculateTrashCards(s), a)
  {
    var t := RecalculateTrashCards(s);
    assert WellFormed(t, a);
    if a.Play? {
      PlaySucceeds(s, t, player, a);
    } else if a.Discard? {
      DiscardSucceeds(s, t, player, a);
    } else {
      ClueSucceeds(s, t, viewer, player, a);
    }
    NextSnapshotOk(t, a);
  }

  lemma PlaySucceeds(s: Snapshot, t: Snapshot, player: int, a: Action)
    requires Valid(s) && t == RecalculateTrashCards(s) && 0 <= player < s.numPlayers && a.Play?
    requires exists i :: 0 <= i < |s.hands[player]| && a == PlayOf(player, s.hands[player][i])
    ensures WellFormed(t, a) && PerformAction(Fork(t), a).Ok?
  {
    var i :| 0 <= i < |s.hands[player]| && a == PlayOf(player, s.hands[player][i]);
    assert Fork(t).hands[player][i].order == a.card.order;
    assert MoveToPile(Fork(t), player, a.card.order, true).Ok?;
  }

  lemma DiscardSucceeds(s: Snapshot, t: Snapshot, player: int, a: Action)
    requires Valid(s) && t == RecalculateTrashCards(s) && 0 <= player < s.numPlayers && a.Discard?
    requires exists i :: 0 <= i < |s.hands[player]| && a == DiscardOf(player, s.hands[player][i])
    requires CheckOn(t, a) == Ok(true)
    ensures WellFormed(t, a) && PerformAction(Fork(t), a).Ok?
  {
    var i :| 0 <= i < |s.hands[player]| && a == DiscardOf(player, s.hands[player][i]);
    var hand := Fork(t).hands[player];
    assert hand == t.hands[PySlot(player, |t.hands|)];
    assert hand[i].order == a.card.order;
    var card := CardByOrder(hand, a.card.order).value;
    assert card.status in {TrashKnownByPlayer, Unspecified};
  }

  lemma ClueSucceeds(s: Snapshot, t: Snapshot, viewer: int, player: int, a: Action)
    requires Valid(s) && t == RecalculateTrashCards(s) && 0 <= player < s.numPlayers && a.GiveClue?
    requires a.player == player && 0 <= a.clue.receiver < s.numPlayers
    requires IsClueFor(s.hands[a.clue.receiver], player, a.clue.receiver, a)
    ensures WellFormed(t, a) && PerformAction(Fork(t), a).Ok?
  {
    var clue := a.clue;
    var q := clue.receiver;
    var hand := s.hands[q];
    var fork := Fork(t);
    assert clue.touchedOrders == TouchedOrders(hand, clue.hintType, clue.hintValue);
    assert forall o :: o in clue.touchedOrders ==> HasOrder(fork.hands[q], o) by {
      forall o | o in clue.touchedOrders ensures HasOrder(fork.hands[q], o) {
        var i :| 0 <= i < |hand| && hand[i].order == o && HintedValue(hand[i], clue.hintType) == clue.hintValue;
        assert fork.hands[q][i].order == o;
      }
    }
    if clue.hintType == Color {
      assert clue.hintValue in KnownValues(hand, Color);
      var i :| 0 <= i < |hand| && HintedValue(hand[i], Color) == clue.hintValue;
      assert CardInRange(hand[i], s.numSuits);
    }
    ClueNotesOk(fork, clue, fork.hands[q]);
    assert PerformClue(fork, clue).Ok?;
  }

  /** Keeps, in order, the moves that pass the convention check. */
  function KeepSound(t: Snapshot, actions: seq<Action>): (r: seq<Action>)
    requires Valid(t)
    ensures |r| <= |actions|
    ensures forall a :: a in r <==> a in actions && CheckOn(t, a) == Ok(true)
  {
    if |actions| == 0 then []
    else
      var n := |actions| - 1;
      var prev := KeepSound(t, actions[..n]);
      assert forall a :: a in actions <==> a in actions[..n] || a == actions[n] by {
        assert actions == actions[..n] + [actions[n]];
      }
      if CheckOn(t, actions[n]) == Ok(true) then prev + [actions[n]] else prev
  }

  /** The kept moves stay in the order they were listed in. */
  lemma {:induction false} KeepSoundInOrder(t: Snapshot, actions: seq<Action>)
    requires Valid(t)
    ensures exists idx :: Embedding(KeepSound(t, actions), actions, idx)
  {
    if |actions| == 0 {
      assert KeepSound(t, actions) == [];
      assert Embedding([], actions, []);
    } else {
      var n := |actions| - 1;
      var prev := KeepSound(t, actions[..n]);
      KeepSoundInOrder(t, actions[..n]);
      var idx :| Embedding(prev, actions[..n], idx);
      EmbeddingExtend(prev, actions, idx);
      if CheckOn(t, actions[n]) == Ok(true) {
        assert KeepSound(t, actions) == prev + [actions[n]];
      } else {
        assert KeepSound(t, actions) == prev;
      }
    }
  }

  predicate SortedByScore(xs: seq<Scored>) {
    forall i, j :: 0 <= i < j < |xs| ==> xs[i].score >= xs[j].score
  }

  /** Inserts `x` after every element scoring at least as much, which keeps equal scores in
      their original order. */
  function InsertByScore(x: Scored, xs: seq<Scored>): (r: seq<Scored>)
    requires SortedByScore(xs)
    ensures |r| == |xs| + 1
    ensures multiset(r) == multiset(xs) + multiset{x}
    ensures forall y :: y in r ==> y == x || y in xs
    ensures SortedByScore(r)
    ensures r[0] == if |xs| == 0 || xs[0].score < x.score then x else xs[0]
  {
    if |xs| == 0 then [x]
    else if xs[0].score < x.score then [x] + xs
    else
      var t := InsertByScore(x, xs[1..]);
      assert xs == [xs[0]] + xs[1..];
      [xs[0]] + t
  }

  /** `sorted(..., key=score, reverse=True)`. */
  function SortByScore(xs: seq<Scored>): (r: seq<Scored>)
    ensures SortedByScore(r) && |r| == |xs|
    ensures multiset(r) == multiset(xs)
  {
    if |xs| == 0 then []
    else
      var n := |xs| - 1;
      assert xs == xs[..n] + [xs[n]];
      InsertByScore(xs[n], SortByScore(xs[..n]))
  }

  function SumScores(xs: seq<Scored>): int {
    if |xs| == 0 then 0 else SumScores(xs[..|xs| - 1]) + xs[|xs| - 1].score
  }

  /** Some card of the next snapshot is newly noted `Useful` although the current snapshot
      already shows it cannot matter. */
  predicate MisjudgedUseful(t: Snapshot, next: Snapshot)
    requires Valid(t) && Valid(next) && next.numSuits == t.numSuits
  {
    exists p, i :: 0 <= p < |next.hands| && 0 <= i < |next.hands[p]|
      && next.hands[p][i].status == Useful && !IsUseful(t, next.hands[p][i])
  }

  /** `evaluate`: the moves that pass the convention check, each scored by a search `level`
      moves deep, best first. */
  function Evaluate(s: Snapshot, viewer: int, player: int, level: int): (r: seq<Scored>)
    requires Valid(s) && 0 <= player < s.numPlayers
    ensures SortedByScore(r)
    ensures |r| == |KeepSound(RecalculateTrashCards(s), GetValidActions(s, viewer, player))|
    ensures forall a :: a in KeepSound(RecalculateTrashCards(s), GetValidActions(s, viewer, player)) <==>
      exists x :: x in r && x.action == a
    ensures level <= 0 ==> forall x :: x in r ==> x.score == 0
    decreases level, 2, 0
  {
    var kept := SoundMoves(s, viewer, player);
    if |kept| == 0 then [] else RankMoves(RecalculateTrashCards(s), kept, viewer, level)
  }

  /** The allowed moves that pass the convention check, in generation order. */
  function SoundMoves(s: Snapshot, viewer: int, player: int): (kept: seq<Action>)
    requires Valid(s) && 0 <= player < s.numPlayers
    ensures kept == KeepSound(RecalculateTrashCards(s), GetValidActions(s, viewer, player))
    ensures forall i :: 0 <= i < |kept| ==> Searchable(RecalculateTrashCards(s), kept[i])
  {
    KeptSearchable(s, viewer, player);
    KeepSound(RecalculateTrashCards(s), GetValidActions(s, viewer, player))
  }

  /** Scores the moves and sorts them best first. */
  function RankMoves(t: Snapshot, kept: seq<Action>, viewer: int, level: int): (r: seq<Scored>)
    requires forall i :: 0 <= i < |kept| ==> Searchable(t, kept[i])
    ensures SortedByScore(r) && |r| == |kept|
    ensures forall a :: a in kept <==> exists x :: x in r && x.action == a
    ensures level <= 0 ==> forall x :: x in r ==> x.score == 0
    decreases level, 1, |kept| + 1
  {
    var scored := ScoreAll(t, kept, viewer, level);
    var r := SortByScore(scored);
    SortedMembers(scored, r, kept);
    r
  }

  lemma KeptSearchable(s: Snapshot, viewer: int, player: int)
    requires Valid(s) && 0 <= player < s.numPlayers
    ensures var kept := KeepSound(RecalculateTrashCards(s), GetValidActions(s, viewer, player));
      forall i :: 0 <= i < |kept| ==> Searchable(RecalculateTrashCards(s), kept[i])
  {
    var kept := KeepSound(RecalculateTrashCards(s), GetValidActions(s, viewer, player));
    forall i | 0 <= i < |kept|
      ensures Searchable(RecalculateTrashCards(s), kept[i])
    {
      var a := kept[i];
      assert a in kept;
      ValidActionsExact(s, viewer, player, a);
      SoundMoveSucceeds(s, viewer, player, a);
    }
  }

  lemma SortedMembers(scored: seq<Scored>, r: seq<Scored>, kept: seq<Action>)
    requires multiset(r) == multiset(scored)
    requires |scored| == |kept| && forall i :: 0 <= i < |scored| ==> scored[i].action == kept[i]
    ensures forall a :: a in kept <==> exists x :: x in r && x.action == a
    ensures forall x :: x in r <==> x in scored
  {
    assert forall x :: x in r <==> x in scored by {
      assert forall x :: x in r <==> x in multiset(r);
      assert forall x :: x in scored <==> x in multiset(scored);
    }
    forall a ensures a in kept <==> exists x :: x in r && x.action == a {
      if a in kept {
        var i :| 0 <= i < |kept| && kept[i] == a;
        assert scored[i] in r && scored[i].action == a;
      }
      if exists x :: x in r && x.action == a {
        var x :| x in r && x.action == a;
        var i :| 0 <= i < |scored| && scored[i] == x;
        assert kept[i] == a;
      }
    }
  }

  /** Scores one move. */
  function ScoreOne(t: Snapshot, a: Action, viewer: int, level: int): (x: Scored)
    requires Searchable(t, a)
    ensures x.action == a && (level <= 0 ==> x.score == 0)
    decreases level, 0, 1
  {
    Scored(a, EvaluateAction(t, a, viewer, level))
  }

  /** Scores every move in turn. */
  function ScoreAll(t: Snapshot, actions: seq<Action>, viewer: int, level: int): (r: seq<Scored>)
    requires forall i :: 0 <= i < |actions| ==> Searchable(t, actions[i])
    ensures |r| == |actions| && forall i :: 0 <= i < |r| ==> r[i].action == actions[i]
    ensures level <= 0 ==> forall i :: 0 <= i < |r| ==> r[i].score == 0
    decreases level, 1, |actions|
  {
    seq(|actions|, i requires 0 <= i < |actions| => ScoreOne(t, actions[i], viewer, level))
  }

  /** `evaluate_action`: 0 at the search horizon; -1 when the move leads to a wrong `Useful`
      note or leaves the next player no sound move; otherwise the summed scores of the next
      player's sound moves. */
  function EvaluateAction(t: Snapshot, a: Action, viewer: int, level: int): (score: int)
    requires Searchable(t, a)
    ensures level <= 0 ==> score == 0
    decreases level, 0, 0
  {
    if level <= 0 then 0
    else
      var next := NextSnapshot(t, a).value;
      if MisjudgedUseful(t, next) then -1
      else
        var sorted := Evaluate(next, viewer, (a.player + 1) % t.numPlayers, level - 1);
        if |sorted| == 0 then -1 else SumScores(sorted)
  }

  lemma {:induction false} SumOfZeros(xs: seq<Scored>)
    requires forall x :: x in xs ==> x.score == 0
    ensures SumScores(xs) == 0
  {
    if |xs| > 0 {
      var n := |xs| - 1;
      assert forall x :: x in xs[..n] ==> x in xs;
      assert xs[n] in xs;
      SumOfZeros(xs[..n]);
    }
  }

  /** A one-move look-ahead can only tell good moves (0) from bad ones (-1). */
  lemma OneLevelScores(t: Snapshot, a: Action, viewer: int)
    requires Searchable(t, a)
    ensures EvaluateAction(t, a, viewer, 1) in {0, -1}
  {
    var next := NextSnapshot(t, a).value;
    if !MisjudgedUseful(t, next) {
      var sorted := Evaluate(next, viewer, (a.player + 1) % t.numPlayers, 0);
      if |sorted| > 0 {
        SumOfZeros(sorted);
      }
    }
  }

  /** The in-place recalculation inside the check leaves nothing for later checks to change:
      checking a move on the original or on the recalculated snapshot gives the same verdict. */
  lemma CheckConventionStable(s: Snapshot, a: Action)
    requires Valid(s)
    ensures var t := RecalculateTrashCards(s);
      CheckConvention(t, a) == CheckConvention(s, a)
  {
    RecalculateIdempotent(s);
  }
}
