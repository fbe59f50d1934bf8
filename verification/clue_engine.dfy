/** How a clue changes the notes on the receiver's cards (`_perform_clue`). */
module ClueEngine {
  import opened Wrappers
  import opened Constants
  import opened Clues
  import opened Cards
  import opened Hands
  import opened Seqs
  import opened Tables
  import opened Snapshots

  // ---------------------------------------------------------------- notes on touched cards

  /** A note for the card with `order`: its new status and finesses to append. */
  datatype Mark = Mark(order: int, status: Status, finesses: seq<Finesse>)

  function Note(c: Card, m: Mark): Card {
    c.(status := m.status, finesses := c.finesses + m.finesses)
  }

  function OrdersOf(ms: seq<Mark>): (r: seq<int>)
    ensures |r| == |ms| && forall j :: 0 <= j < |ms| ==> r[j] == ms[j].order
  {
    seq(|ms|, j requires 0 <= j < |ms| => ms[j].order)
  }

  predicate SameOrders(a: seq<Card>, b: seq<Card>) {
    |a| == |b| && forall i :: 0 <= i < |a| ==> a[i].order == b[i].order
  }

  /** Notes keep identity and clue history; only status and finesses move. */
  predicate NotesOnly(a: seq<Card>, b: seq<Card>) {
    && |a| == |b|
    && (forall i :: 0 <= i < |a| ==>
          SameIdentity(a[i], b[i]) && a[i].clues == b[i].clues
          && a[i].negativeColors == b[i].negativeColors && a[i].negativeRanks == b[i].negativeRanks)
  }

  lemma {:induction false} FindSlotOrdersOnly(a: seq<Card>, b: seq<Card>, order: int)
    requires SameOrders(a, b)
    ensures FindSlot(a, order) == FindSlot(b, order)
  {
    if |a| > 0 && a[0].order != order {
      FindSlotOrdersOnly(a[1..], b[1..], order);
    }
  }

  /** Writes one note on the first card with the mark's order; a missing card is an error. */
  function ApplyMark(hand: seq<Card>, m: Mark): (r: Result<seq<Card>>)
    ensures r.Err? <==> !HasOrder(hand, m.order)
    ensures r.Err? ==> r.error == CardNotFound
    ensures r.Ok? ==> NotesOnly(r.value, hand)
    ensures r.Ok? ==> forall i :: 0 <= i < |hand| && hand[i].order != m.order ==> r.value[i] == hand[i]
  {
    match FindSlot(hand, m.order)
    case None => Err(CardNotFound)
    case Some(i) => Ok(SetAt(hand, i, Note(hand[i], m)))
  }

  /** Writes the notes in turn. */
  function ApplyMarks(hand: seq<Card>, ms: seq<Mark>): (r: Result<seq<Card>>)
    ensures r.Ok? <==> forall j :: 0 <= j < |ms| ==> HasOrder(hand, ms[j].order)
    ensures r.Err? ==> r.error == CardNotFound
    ensures r.Ok? ==> NotesOnly(r.value, hand)
    ensures r.Ok? ==> forall i :: 0 <= i < |hand| && hand[i].order !in OrdersOf(ms) ==> r.value[i] == hand[i]
    decreases |ms|
  {
    if |ms| == 0 then Ok(hand)
    else
      var n := |ms| - 1;
      MarksPrefix(ms);
      match ApplyMarks(hand, ms[..n])
      case Err(e) => Err(e)
      case Ok(h) =>
        NotesOnlyKeepsOrders(h, hand, ms[n].order);
        var r := ApplyMark(h, ms[n]);
        if r.Ok? then NotesOnlyTrans(r.value, h, hand); r else r
  }

  lemma MarksPrefix(ms: seq<Mark>)
    requires |ms| > 0
    ensures forall j :: 0 <= j < |ms| - 1 ==> ms[..|ms| - 1][j] == ms[j]
    ensures forall o :: o in OrdersOf(ms[..|ms| - 1]) ==> o in OrdersOf(ms)
    ensures forall o :: o in OrdersOf(ms) ==> o in OrdersOf(ms[..|ms| - 1]) || o == ms[|ms| - 1].order
  {
    var n := |ms| - 1;
    assert OrdersOf(ms) == OrdersOf(ms[..n]) + [ms[n].order];
  }

  lemma NotesOnlyKeepsOrders(a: seq<Card>, b: seq<Card>, order: int)
    requires NotesOnly(a, b)
    ensures HasOrder(a, order) <==> HasOrder(b, order)
  {
    if HasOrder(a, order) {
      var i :| 0 <= i < |a| && a[i].order == order;
      assert b[i].order == order;
    }
    if HasOrder(b, order) {
      var i :| 0 <= i < |b| && b[i].order == order;
      assert a[i].order == order;
    }
  }

  lemma NotesOnlyTrans(a: seq<Card>, b: seq<Card>, c: seq<Card>)
    requires NotesOnly(a, b) && NotesOnly(b, c)
    ensures NotesOnly(a, c)
  {
  }

  /** The last note is written on the hand the earlier notes produced. */
  lemma ApplyMarksLast(hand: seq<Card>, ms: seq<Mark>)
    requires |ms| > 0 && ApplyMarks(hand, ms).Ok?
    ensures ApplyMarks(hand, ms[..|ms| - 1]).Ok?
    ensures ApplyMarks(hand, ms) == ApplyMark(ApplyMarks(hand, ms[..|ms| - 1]).value, ms[|ms| - 1])
  {
  }

  /** Distinct orders stay distinct in a prefix, and the last one is not among them. */
  lemma DistinctOrdersPrefix(ms: seq<Mark>)
    requires |ms| > 0 && NoDuplicates(OrdersOf(ms))
    ensures NoDuplicates(OrdersOf(ms[..|ms| - 1]))
    ensures ms[|ms| - 1].order !in OrdersOf(ms[..|ms| - 1])
  {
    var n := |ms| - 1;
    assert OrdersOf(ms[..n]) == OrdersOf(ms)[..n];
    forall k | 0 <= k < n ensures OrdersOf(ms[..n])[k] != ms[n].order {
      assert OrdersOf(ms)[k] != OrdersOf(ms)[n];
    }
  }

  /** With distinct orders, each note lands on the first card carrying its order. */
  lemma {:induction false} ApplyMarksHits(hand: seq<Card>, ms: seq<Mark>, j: int, i: nat)
    requires NoDuplicates(OrdersOf(ms)) && ApplyMarks(hand, ms).Ok?
    requires 0 <= j < |ms| && FindSlot(hand, ms[j].order) == Some(i)
    ensures ApplyMarks(hand, ms).value[i] == Note(hand[i], ms[j])
    decreases |ms|
  {
    var n := |ms| - 1;
    if j < n {
      ApplyMarksLast(hand, ms);
      DistinctOrdersPrefix(ms);
      assert ms[..n][j] == ms[j];
      ApplyMarksHits(hand, ms[..n], j, i);
      EarlierMarkKept(hand, ms, j, i);
    } else {
      LastMarkLands(hand, ms, i);
    }
  }

  /** A card noted by an earlier mark keeps that note through the last mark. */
  lemma EarlierMarkKept(hand: seq<Card>, ms: seq<Mark>, j: int, i: nat)
    requires NoDuplicates(OrdersOf(ms)) && 0 <= j < |ms| - 1 && ApplyMarks(hand, ms).Ok?
    requires FindSlot(hand, ms[j].order) == Some(i)
    requires ApplyMarks(hand, ms[..|ms| - 1]).Ok?
    requires ApplyMarks(hand, ms[..|ms| - 1]).value[i] == Note(hand[i], ms[j])
    ensures ApplyMarks(hand, ms).value[i] == Note(hand[i], ms[j])
  {
    var n := |ms| - 1;
    ApplyMarksLast(hand, ms);
    assert OrdersOf(ms)[j] == ms[j].order && OrdersOf(ms)[n] == ms[n].order;
    var h := ApplyMarks(hand, ms[..n]).value;
    LastMarkMisses(h, ms[n], i, ms[j].order);
  }

  /** The last mark lands on the slot its order has in the original hand. */
  lemma LastMarkLands(hand: seq<Card>, ms: seq<Mark>, i: nat)
    requires NoDuplicates(OrdersOf(ms)) && |ms| > 0 && ApplyMarks(hand, ms).Ok?
    requires FindSlot(hand, ms[|ms| - 1].order) == Some(i)
    ensures ApplyMarks(hand, ms).value[i] == Note(hand[i], ms[|ms| - 1])
  {
    var n := |ms| - 1;
    ApplyMarksLast(hand, ms);
    DistinctOrdersPrefix(ms);
    var h := ApplyMarks(hand, ms[..n]).value;
    assert h[i] == hand[i];
    LastMarkHits(hand, h, ms[n], i);
  }

  /** The last mark leaves a card of another order as it is. */
  lemma LastMarkMisses(h: seq<Card>, m: Mark, i: nat, o: int)
    requires i < |h| && h[i].order == o && o != m.order && ApplyMark(h, m).Ok?
    ensures ApplyMark(h, m).value[i] == h[i]
  {
  }

  /** Notes on other cards do not move the slot the mark lands on. */
  lemma LastMarkHits(hand: seq<Card>, h: seq<Card>, m: Mark, i: nat)
    requires NotesOnly(h, hand) && FindSlot(hand, m.order) == Some(i) && h[i] == hand[i]
    ensures ApplyMark(h, m).Ok? && ApplyMark(h, m).value[i] == Note(hand[i], m)
  {
    FindSlotOrdersOnly(h, hand, m.order);
  }

  /** The same status, no finesse, for every order. */
  function Statuses(orders: seq<int>, st: Status): (r: seq<Mark>)
    ensures OrdersOf(r) == orders
    ensures forall j :: 0 <= j < |r| ==> r[j].status == st && r[j].finesses == []
  {
    seq(|orders|, j requires 0 <= j < |orders| => Mark(orders[j], st, []))
  }

  /** The focus (first order) is finessed with `fs`; every later card is good-touch saved. */
  function FocusMarks(orders: seq<int>, fs: seq<Finesse>): (r: seq<Mark>)
    ensures OrdersOf(r) == orders
    ensures |r| > 0 ==> r[0].status == DirectFinessed && r[0].finesses == fs
    ensures forall j :: 1 <= j < |r| ==> r[j].status == GoodTouchSaved && r[j].finesses == []
  {
    if |orders| == 0 then [] else [Mark(orders[0], DirectFinessed, fs)] + Statuses(orders[1..], GoodTouchSaved)
  }

  // ---------------------------------------------------------------- rank 1

  /** Suits below `n` satisfying `p`. */
  function CountBelow(n: nat, p: int -> bool): (c: nat)
    ensures c <= n
  {
    if n == 0 then 0 else CountBelow(n - 1, p) + (if p(n - 1) then 1 else 0)
  }

  lemma {:induction false} CountBelowIsCard(n: nat, p: int -> bool)
    ensures CountBelow(n, p) == |set x | 0 <= x < n && p(x)|
  {
    if n > 0 {
      CountBelowIsCard(n - 1, p);
      var below := set x | 0 <= x < n - 1 && p(x);
      var last: set<int> := if p(n - 1) then {n - 1} else {};
      assert (set x | 0 <= x < n && p(x)) == below + last;
      assert below !! last;
    }
  }

  /** Suits with no 1 on the stack and no touched 1 anywhere; may go negative, as in the
      source, when both conditions hold for the same suit. */
  function NumLeftOnes(s: Snapshot): int
    requires Valid(s)
  {
    var played := Played(s);
    var hinted := Hints(s);
    s.numSuits
      - CountBelow(s.numSuits, x => 0 <= x < |played| && played[x] >= 1)
      - CountBelow(s.numSuits, x => 0 <= x < |hinted| && |hinted[x]| > 1 && hinted[x][1] > 0)
  }

  /** The count of 1s still to clue, stated over sets of suits. */
  lemma NumLeftOnesBySets(s: Snapshot)
    requires Valid(s)
    ensures NumLeftOnes(s) == s.numSuits
      - |set x | 0 <= x < s.numSuits && Played(s)[x] >= 1|
      - |set x | 0 <= x < s.numSuits && Hints(s)[x][1] > 0|
  {
    var played := Played(s);
    var hinted := Hints(s);
    var p1 := x => 0 <= x < |played| && played[x] >= 1;
    var p2 := x => 0 <= x < |hinted| && |hinted[x]| > 1 && hinted[x][1] > 0;
    CountBelowIsCard(s.numSuits, p1);
    CountBelowIsCard(s.numSuits, p2);
    assert (set x | 0 <= x < s.numSuits && p1(x)) == (set x | 0 <= x < s.numSuits && played[x] >= 1);
    assert (set x | 0 <= x < s.numSuits && p2(x)) == (set x | 0 <= x < s.numSuits && hinted[x][1] > 0);
  }

  /** Rank 1 clue: with no 1 left to play every touched card is trash; otherwise the `left`
      newest touched cards are playable and the next one is trash. */
  function Rank1Marks(sorted: seq<int>, left: int): (r: seq<Mark>)
    ensures |r| <= |sorted| && OrdersOf(r) == sorted[..|r|]
    ensures forall j :: 0 <= j < |r| ==> r[j].finesses == []
    ensures forall j :: 0 <= j < |r| ==> r[j].status in {PlayableKnownByPlayer, TrashKnownByPlayer}
    ensures forall j :: 0 <= j < |r| && r[j].status == PlayableKnownByPlayer ==> j < left
    ensures forall j :: 0 <= j < |sorted| && j < left ==> j < |r| && r[j].status == PlayableKnownByPlayer
    ensures left < 1 ==> |r| == |sorted|
    ensures left >= 1 && left < |sorted| ==> |r| == left + 1 && r[left].status == TrashKnownByPlayer
    ensures left >= |sorted| ==> |r| == |sorted|
  {
    if left < 1 then Statuses(sorted, TrashKnownByPlayer)
    else
      var t := if left < |sorted| then left else |sorted|;
      Statuses(sorted[..t], PlayableKnownByPlayer)
        + (if t < |sorted| then [Mark(sorted[t], TrashKnownByPlayer, [])] else [])
  }

  // ---------------------------------------------------------------- colour

  /** A rank the colour clue could still be pointing at: above the stack and not yet touched. */
  predicate Missing(playedRank: int, row: seq<int>, r: int)
    requires |row| == MaxRank + 1 && 1 <= r <= MaxRank
  {
    r > playedRank && row[r] == 0
  }

  /** The lowest missing rank among 1 to 4 (rank 5 is never searched), or 6 when none is. */
  function NextMissingRank(playedRank: int, row: seq<int>, from: int): (r: int)
    requires |row| == MaxRank + 1 && 1 <= from <= MaxRank
    ensures r == MaxRank + 1 || from <= r < MaxRank
    ensures r < MaxRank ==> Missing(playedRank, row, r)
    ensures forall k :: from <= k < MaxRank && k < r ==> !Missing(playedRank, row, k)
    decreases MaxRank - from
  {
    if from >= MaxRank then MaxRank + 1
    else if Missing(playedRank, row, from) then from
    else NextMissingRank(playedRank, row, from + 1)
  }

  /** Colour clue: the newest touched card is finessed as the suit's next missing rank and the
      others are good-touch saved; with no missing rank every touched card is trash. */
  function ColourMarks(sorted: seq<int>, next: int, suit: int): (r: seq<Mark>)
    ensures OrdersOf(r) == sorted
  {
    if next > MaxRank then Statuses(sorted, TrashKnownByPlayer)
    else FocusMarks(sorted, [Finesse(next, suit)])
  }

  // ---------------------------------------------------------------- ranks 2 to 5

  /** One finesse per suit the rank could still belong to: stack below it, none touched. */
  function PlayFinesses(s: Snapshot, rank: int, n: int): (fs: seq<Finesse>)
    requires Valid(s) && 2 <= rank <= MaxRank && 0 <= n <= s.numSuits
    ensures forall f :: f in fs ==> f.rank == rank
    ensures forall x :: Finesse(rank, x) in fs <==>
      0 <= x < n && Played(s)[x] < rank && Hints(s)[x][rank] == 0
  {
    if n == 0 then []
    else
      var x := n - 1;
      PlayFinesses(s, rank, x) + (if Played(s)[x] < rank && Hints(s)[x][rank] == 0 then [Finesse(rank, x)] else [])
  }

  /** Whether a rank 2 to 5 clue is a save: it touches the pending discard slot while some
      suit has its last copy of that rank. */
  predicate IsSaveClue(s: Snapshot, clue: Clue, hand: seq<Card>)
    requires Valid(s) && 2 <= clue.hintValue <= MaxRank
  {
    var slot := PendingDiscardSlot(hand);
    && slot.Some?
    && hand[slot.value].order in clue.touchedOrders
    && |UniqueSuitsInRank(s, clue.hintValue)| > 0
  }

  // ---------------------------------------------------------------- the clue

  /** The receiver's hand after the notes of `clue` are written. */
  function ClueNotes(s: Snapshot, clue: Clue, hand: seq<Card>): (r: Result<seq<Card>>)
    requires Valid(s)
    ensures r.Err? ==> r.error in {CardNotFound, IndexOutOfRange}
    ensures r.Ok? ==> NotesOnly(r.value, hand)
    ensures r.Ok? ==> forall i :: 0 <= i < |hand| && hand[i].order !in clue.touchedOrders ==> r.value[i] == hand[i]
  {
    var sorted := SortDesc(clue.touchedOrders);
    SortDescMembers(clue.touchedOrders);
    var v := clue.hintValue;
    if clue.hintType == Rank && v == 1 then
      var ms := Rank1Marks(sorted, NumLeftOnes(s));
      PrefixMembers(sorted, |ms|);
      ApplyMarks(hand, ms)
    else if clue.hintType == Color && v != BlackColor then
      if !(-s.numSuits <= v < s.numSuits) then Err(IndexOutOfRange)
      else
        var x := PySlot(v, s.numSuits);
        ApplyMarks(hand, ColourMarks(sorted, NextMissingRank(Played(s)[x], Hints(s)[x], 1), v))
    else if clue.hintType == Rank && 2 <= v <= MaxRank then
      if IsSaveClue(s, clue, hand) then
        var i := PendingDiscardSlot(hand).value;
        Ok(SetAt(hand, i, hand[i].(status := CluedSaved)))
      else ApplyMarks(hand, FocusMarks(sorted, PlayFinesses(s, v, s.numSuits)))
    else Ok(hand)
  }

  /** `_perform_clue`: spends a clue token and rewrites the receiver's notes. Nothing else on the
      table changes; untouched cards keep their notes. */
  function PerformClue(s: Snapshot, clue: Clue): (r: Result<Snapshot>)
    requires Valid(s) && 0 <= clue.receiver < s.numPlayers
    ensures r.Err? ==> r.error in {CardNotFound, IndexOutOfRange}
    ensures r.Ok? <==> ClueNotes(s, clue, s.hands[clue.receiver]).Ok?
    ensures r.Ok? ==> Valid(r.value)
    ensures r.Ok? ==> r.value.clueTokens == s.clueTokens - 1
    ensures r.Ok? ==> r.value.(clueTokens := s.clueTokens, hands := s.hands) == s
    ensures r.Ok? ==> |r.value.hands| == |s.hands|
    ensures r.Ok? ==> forall p :: 0 <= p < |s.hands| && p != clue.receiver ==> r.value.hands[p] == s.hands[p]
    ensures r.Ok? ==> NotesOnly(r.value.hands[clue.receiver], s.hands[clue.receiver])
    ensures r.Ok? ==> forall i ::
      (0 <= i < |s.hands[clue.receiver]| && s.hands[clue.receiver][i].order !in clue.touchedOrders) ==>
        r.value.hands[clue.receiver][i] == s.hands[clue.receiver][i]
  {
    var hand := s.hands[clue.receiver];
    var noted :- ClueNotes(s, clue, hand);
    var t := s.(clueTokens := s.clueTokens - 1, hands := s.hands[clue.receiver := noted]);
    assert forall i :: 0 <= i < |noted| ==> CardInRange(noted[i], s.numSuits) by {
      forall i | 0 <= i < |noted| ensures CardInRange(noted[i], s.numSuits) {
        assert SameIdentity(noted[i], hand[i]);
      }
    }
    Ok(t)
  }

  /** A black colour clue only spends the token: no note changes anywhere. */
  lemma BlackClueOnlySpends(s: Snapshot, clue: Clue)
    requires Valid(s) && 0 <= clue.receiver < s.numPlayers
    requires clue.hintType == Color && clue.hintValue == BlackColor
    ensures PerformClue(s, clue) == Ok(s.(clueTokens := s.clueTokens - 1))
  {
    assert s.hands[clue.receiver := s.hands[clue.receiver]] == s.hands;
  }

  // ---------------------------------------------------------------- outcomes per touched card

  /** A colour clue on a suit: the newest touched card is finessed as the lowest missing rank
      of the suit and the rest are good-touch saved, or, with no rank 1 to 4 missing, every
      touched card is marked trash. */
  lemma ColourClueOutcome(s: Snapshot, clue: Clue, j: int, i: nat)
    requires Valid(s) && 0 <= clue.receiver < s.numPlayers
    requires clue.hintType == Color && 0 <= clue.hintValue < s.numSuits && clue.hintValue != BlackColor
    requires NoDuplicates(clue.touchedOrders) && PerformClue(s, clue).Ok?
    requires 0 <= j < |clue.touchedOrders|
    requires FindSlot(s.hands[clue.receiver], SortDesc(clue.touchedOrders)[j]) == Some(i)
    ensures var hand := s.hands[clue.receiver];
      var v := clue.hintValue;
      var next := NextMissingRank(Played(s)[v], Hints(s)[v], 1);
      var c := PerformClue(s, clue).value.hands[clue.receiver][i];
      && (next > MaxRank ==> c.status == TrashKnownByPlayer && c.finesses == hand[i].finesses)
      && (next <= MaxRank && j == 0 ==> c.status == DirectFinessed && c.finesses == hand[i].finesses + [Finesse(next, v)])
      && (next <= MaxRank && j > 0 ==> c.status == GoodTouchSaved && c.finesses == hand[i].finesses)
  {
    var sorted := SortDesc(clue.touchedOrders);
    SortDescNoDuplicates(clue.touchedOrders);
    var v := clue.hintValue;
    var next := NextMissingRank(Played(s)[v], Hints(s)[v], 1);
    PerformClueNotes(s, clue);
    assert ClueNotes(s, clue, s.hands[clue.receiver]) == ApplyMarks(s.hands[clue.receiver], ColourMarks(sorted, next, v));
    ColourMarkHit(s.hands[clue.receiver], sorted, next, v, j, i);
  }

  lemma ColourMarkHit(hand: seq<Card>, sorted: seq<int>, next: int, v: int, j: int, i: nat)
    requires NoDuplicates(sorted) && ApplyMarks(hand, ColourMarks(sorted, next, v)).Ok?
    requires 0 <= j < |sorted| && FindSlot(hand, sorted[j]) == Some(i)
    ensures var c := ApplyMarks(hand, ColourMarks(sorted, next, v)).value[i];
      && (next > MaxRank ==> c.status == TrashKnownByPlayer && c.finesses == hand[i].finesses)
      && (next <= MaxRank && j == 0 ==> c.status == DirectFinessed && c.finesses == hand[i].finesses + [Finesse(next, v)])
      && (next <= MaxRank && j > 0 ==> c.status == GoodTouchSaved && c.finesses == hand[i].finesses)
  {
    if next > MaxRank {
      var ms := ColourMarks(sorted, next, v);
      assert ms[j].order == OrdersOf(ms)[j];
      ApplyMarksHits(hand, ms, j, i);
      NoteFields(hand[i], ms[j]);
    } else {
      FocusMarkHit(hand, sorted, [Finesse(next, v)], j, i);
    }
  }

  /** A rank 1 clue, newest touched card first: as many cards as there are 1s left to clue
      become known playable, the next one known trash, older ones keep their notes; with no
      1 left every touched card is known trash. */
  lemma Rank1ClueOutcome(s: Snapshot, clue: Clue, j: int, i: nat)
    requires Valid(s) && 0 <= clue.receiver < s.numPlayers
    requires clue.hintType == Rank && clue.hintValue == 1
    requires NoDuplicates(clue.touchedOrders) && PerformClue(s, clue).Ok?
    requires 0 <= j < |clue.touchedOrders|
    requires FindSlot(s.hands[clue.receiver], SortDesc(clue.touchedOrders)[j]) == Some(i)
    ensures var hand := s.hands[clue.receiver];
      var left := NumLeftOnes(s);
      var c := PerformClue(s, clue).value.hands[clue.receiver][i];
      && ((left < 1 || j == left) ==> c.status == TrashKnownByPlayer && c.finesses == hand[i].finesses)
      && (j < left ==> c.status == PlayableKnownByPlayer && c.finesses == hand[i].finesses)
      && (1 <= left < j ==> c == hand[i])
  {
    var hand := s.hands[clue.receiver];
    var sorted := SortDesc(clue.touchedOrders);
    SortDescNoDuplicates(clue.touchedOrders);
    PerformClueNotes(s, clue);
    assert ClueNotes(s, clue, hand) == ApplyMarks(hand, Rank1Marks(sorted, NumLeftOnes(s)));
    Rank1MarksOutcome(hand, sorted, NumLeftOnes(s), j, i);
  }

  lemma Rank1MarksOutcome(hand: seq<Card>, sorted: seq<int>, left: int, j: int, i: nat)
    requires NoDuplicates(sorted) && ApplyMarks(hand, Rank1Marks(sorted, left)).Ok?
    requires 0 <= j < |sorted| && FindSlot(hand, sorted[j]) == Some(i)
    ensures var c := ApplyMarks(hand, Rank1Marks(sorted, left)).value[i];
      && ((left < 1 || j == left) ==> c.status == TrashKnownByPlayer && c.finesses == hand[i].finesses)
      && (j < left ==> c.status == PlayableKnownByPlayer && c.finesses == hand[i].finesses)
      && (1 <= left < j ==> c == hand[i])
  {
    var ms := Rank1Marks(sorted, left);
    assert NoDuplicates(OrdersOf(ms)) by {
      assert OrdersOf(ms) == sorted[..|ms|];
    }
    if j < |ms| {
      assert ms[j].order == OrdersOf(ms)[j];
      ApplyMarksHits(hand, ms, j, i);
      NoteFields(hand[i], ms[j]);
    } else {
      assert hand[i].order !in OrdersOf(ms) by {
        forall k | 0 <= k < |ms| ensures OrdersOf(ms)[k] != hand[i].order {
          assert OrdersOf(ms)[k] == sorted[k] && sorted[k] != sorted[j];
        }
      }
    }
  }

  /** A rank save clue (2 to 5 on the pending discard slot) notes the slot card as saved and
      nothing else. */
  lemma RankSaveOutcome(s: Snapshot, clue: Clue)
    requires Valid(s) && 0 <= clue.receiver < s.numPlayers
    requires clue.hintType == Rank && 2 <= clue.hintValue <= MaxRank
    requires PerformClue(s, clue).Ok? && IsSaveClue(s, clue, s.hands[clue.receiver])
    ensures var hand := s.hands[clue.receiver];
      var after := PerformClue(s, clue).value.hands[clue.receiver];
      var slot := PendingDiscardSlot(hand).value;
      && after[slot] == hand[slot].(status := CluedSaved)
      && forall k :: 0 <= k < |hand| && k != slot ==> after[k] == hand[k]
  {
  }

  /** A rank play clue (2 to 5, not a save) finesses its focus, the newest touched card, with
      every suit that can take that rank, and good-touch saves the other touched cards. */
  lemma RankPlayOutcome(s: Snapshot, clue: Clue, j: int, i: nat)
    requires Valid(s) && 0 <= clue.receiver < s.numPlayers
    requires clue.hintType == Rank && 2 <= clue.hintValue <= MaxRank
    requires NoDuplicates(clue.touchedOrders) && PerformClue(s, clue).Ok?
    requires !IsSaveClue(s, clue, s.hands[clue.receiver])
    requires 0 <= j < |clue.touchedOrders|
    requires FindSlot(s.hands[clue.receiver], SortDesc(clue.touchedOrders)[j]) == Some(i)
    ensures var hand := s.hands[clue.receiver];
      var c := PerformClue(s, clue).value.hands[clue.receiver][i];
      && (j == 0 ==> c.status == DirectFinessed && c.finesses == hand[i].finesses + PlayFinesses(s, clue.hintValue, s.numSuits))
      && (j > 0 ==> c.status == GoodTouchSaved && c.finesses == hand[i].finesses)
  {
    var hand := s.hands[clue.receiver];
    SortDescNoDuplicates(clue.touchedOrders);
    PerformClueNotes(s, clue);
    RankPlayNotes(s, clue, hand);
    FocusMarkHit(hand, SortDesc(clue.touchedOrders), PlayFinesses(s, clue.hintValue, s.numSuits), j, i);
  }

  /** Focus marks over distinct orders: the card of the `j`-th order gets the focus note when
      `j` is 0 and the good-touch note otherwise. */
  lemma FocusMarkHit(hand: seq<Card>, sorted: seq<int>, fs: seq<Finesse>, j: int, i: nat)
    requires NoDuplicates(sorted) && ApplyMarks(hand, FocusMarks(sorted, fs)).Ok?
    requires 0 <= j < |sorted| && FindSlot(hand, sorted[j]) == Some(i)
    ensures var c := ApplyMarks(hand, FocusMarks(sorted, fs)).value[i];
      && (j == 0 ==> c.status == DirectFinessed && c.finesses == hand[i].finesses + fs)
      && (j > 0 ==> c.status == GoodTouchSaved && c.finesses == hand[i].finesses)
  {
    var ms := FocusMarks(sorted, fs);
    FocusMarksAt(sorted, fs, j);
    ApplyMarksHits(hand, ms, j, i);
    NoteFields(hand[i], ms[j]);
  }

  lemma NoteFields(c: Card, m: Mark)
    ensures Note(c, m).status == m.status && Note(c, m).finesses == c.finesses + m.finesses
    ensures m.finesses == [] ==> Note(c, m).finesses == c.finesses
  {
    if m.finesses == [] {
      assert c.finesses + m.finesses == c.finesses;
    }
  }

  lemma FocusMarksAt(sorted: seq<int>, fs: seq<Finesse>, j: int)
    requires 0 <= j < |sorted|
    ensures FocusMarks(sorted, fs)[j] == if j == 0 then Mark(sorted[0], DirectFinessed, fs) else Mark(sorted[j], GoodTouchSaved, [])
    ensures OrdersOf(FocusMarks(sorted, fs)) == sorted
  {
    if j > 0 {
      assert FocusMarks(sorted, fs)[j] == Statuses(sorted[1..], GoodTouchSaved)[j - 1];
    }
  }

  /** The receiver's new hand is the one the notes produce. */
  lemma PerformClueNotes(s: Snapshot, clue: Clue)
    requires Valid(s) && 0 <= clue.receiver < s.numPlayers && PerformClue(s, clue).Ok?
    ensures ClueNotes(s, clue, s.hands[clue.receiver]).Ok?
    ensures PerformClue(s, clue).value.hands[clue.receiver] == ClueNotes(s, clue, s.hands[clue.receiver]).value
  {
  }

  lemma RankPlayNotes(s: Snapshot, clue: Clue, hand: seq<Card>)
    requires Valid(s) && clue.hintType == Rank && 2 <= clue.hintValue <= MaxRank && !IsSaveClue(s, clue, hand)
    ensures ClueNotes(s, clue, hand) == ApplyMarks(hand, FocusMarks(SortDesc(clue.touchedOrders), PlayFinesses(s, clue.hintValue, s.numSuits)))
  {
  }

  /** A clue whose touched cards are all in the hand, and whose colour (other than black) names a
      suit of the table, is always noted without error. */
  lemma ClueNotesOk(s: Snapshot, clue: Clue, hand: seq<Card>)
    requires Valid(s)
    requires forall o :: o in clue.touchedOrders ==> HasOrder(hand, o)
    requires clue.hintType == Color && clue.hintValue != BlackColor ==> 0 <= clue.hintValue < s.numSuits
    ensures ClueNotes(s, clue, hand).Ok?
  {
    var sorted := SortDesc(clue.touchedOrders);
    SortDescMembers(clue.touchedOrders);
    var v := clue.hintValue;
    if clue.hintType == Rank && v == 1 {
      Rank1NotesOk(s, clue, hand);
    } else if clue.hintType == Color && v != BlackColor {
      ColourNotesOk(s, clue, hand);
    } else if clue.hintType == Rank && 2 <= v <= MaxRank && !IsSaveClue(s, clue, hand) {
      RankPlayNotes(s, clue, hand);
      MarksWithin(hand, FocusMarks(sorted, PlayFinesses(s, v, s.numSuits)), sorted);
    }
  }

  lemma Rank1NotesOk(s: Snapshot, clue: Clue, hand: seq<Card>)
    requires Valid(s) && clue.hintType == Rank && clue.hintValue == 1
    requires forall o :: o in SortDesc(clue.touchedOrders) ==> HasOrder(hand, o)
    ensures ClueNotes(s, clue, hand).Ok?
  {
    var sorted := SortDesc(clue.touchedOrders);
    var ms := Rank1Marks(sorted, NumLeftOnes(s));
    assert ClueNotes(s, clue, hand) == ApplyMarks(hand, ms);
    MarksWithin(hand, ms, sorted);
  }

  lemma ColourNotesOk(s: Snapshot, clue: Clue, hand: seq<Card>)
    requires Valid(s) && clue.hintType == Color && clue.hintValue != BlackColor
    requires 0 <= clue.hintValue < s.numSuits
    requires forall o :: o in SortDesc(clue.touchedOrders) ==> HasOrder(hand, o)
    ensures ClueNotes(s, clue, hand).Ok?
  {
    var sorted := SortDesc(clue.touchedOrders);
    var v := clue.hintValue;
    var ms := ColourMarks(sorted, NextMissingRank(Played(s)[v], Hints(s)[v], 1), v);
    assert ClueNotes(s, clue, hand) == ApplyMarks(hand, ms);
    MarksWithin(hand, ms, sorted);
  }

  lemma PrefixMembers(xs: seq<int>, k: nat)
    requires k <= |xs|
    ensures forall o :: o in xs[..k] ==> o in xs
  {
    assert xs == xs[..k] + xs[k..];
  }

  lemma MarksWithin(hand: seq<Card>, ms: seq<Mark>, sorted: seq<int>)
    requires forall o :: o in sorted ==> HasOrder(hand, o)
    requires |ms| <= |sorted| && OrdersOf(ms) == sorted[..|ms|]
    ensures ApplyMarks(hand, ms).Ok?
  {
    forall j | 0 <= j < |ms| ensures HasOrder(hand, ms[j].order) {
      assert ms[j].order == sorted[j];
    }
  }
}
