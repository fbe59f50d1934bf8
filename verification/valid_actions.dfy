/** The moves the rules allow a player in a snapshot (`get_valid_actions`). */
module ValidActions {
  import opened Constants
  import opened Clues
  import opened Cards
  import opened Actions
  import opened Seqs
  import opened Hands
  import opened Snapshots

  /** The field a hint of this type names. */
  function HintedValue(c: Card, hint: HintType): int {
    if hint == Rank then c.rank else c.suit
  }

  /** The known values of one hint type in a hand, in hand order, repeats kept. */
  function KnownValues(hand: seq<Card>, hint: HintType): (r: seq<int>)
    ensures forall v :: v in r <==>
      v != Unknown && exists i :: 0 <= i < |hand| && HintedValue(hand[i], hint) == v
  {
    if |hand| == 0 then []
    else
      var n := |hand| - 1;
      var prev := KnownValues(hand[..n], hint);
      var v := HintedValue(hand[n], hint);
      assert forall i :: 0 <= i < n ==> hand[..n][i] == hand[i];
      if v == Unknown then prev else prev + [v]
  }

  /** Orders of the cards a hint would touch, in hand order. */
  function TouchedOrders(hand: seq<Card>, hint: HintType, value: int): (r: seq<int>)
    ensures |r| <= |hand|
    ensures forall o :: o in r <==>
      exists i :: 0 <= i < |hand| && hand[i].order == o && HintedValue(hand[i], hint) == value
  {
    if |hand| == 0 then []
    else
      var n := |hand| - 1;
      var prev := TouchedOrders(hand[..n], hint, value);
      assert forall i :: 0 <= i < n ==> hand[..n][i] == hand[i];
      if HintedValue(hand[n], hint) == value then prev + [hand[n].order] else prev
  }

  /** The clue action `giver` could give `receiver`, touching every matching card. */
  function ClueAction(hand: seq<Card>, giver: int, receiver: int, hint: HintType, value: int): Action {
    GiveClue(giver, Clue(hint, value, giver, receiver, Unknown, Unset, TouchedOrders(hand, hint, value)))
  }

  /** Play and discard actions name only the order of the card. */
  function PlayOf(player: int, c: Card): Action {
    Play(player, NewCard(c.order, Unknown, Unknown), false)
  }

  function DiscardOf(player: int, c: Card): Action {
    Discard(player, NewCard(c.order, Unknown, Unknown))
  }

  function PlayMoves(hand: seq<Card>, player: int): (r: seq<Action>)
    ensures |r| == |hand| && forall i :: 0 <= i < |hand| ==> r[i] == PlayOf(player, hand[i])
  {
    seq(|hand|, i requires 0 <= i < |hand| => PlayOf(player, hand[i]))
  }

  function DiscardMoves(hand: seq<Card>, player: int): (r: seq<Action>)
    ensures |r| == |hand| && forall i :: 0 <= i < |hand| ==> r[i] == DiscardOf(player, hand[i])
  {
    seq(|hand|, i requires 0 <= i < |hand| => DiscardOf(player, hand[i]))
  }

  /** `a` is the clue `giver` can give `receiver` holding `hand`: its value is known in the hand
      and it touches exactly the matching cards. */
  predicate IsClueFor(hand: seq<Card>, giver: int, receiver: int, a: Action) {
    && a.GiveClue?
    && a.clue.hintValue in KnownValues(hand, a.clue.hintType)
    && a == ClueAction(hand, giver, receiver, a.clue.hintType, a.clue.hintValue)
  }

  /** Every distinct rank clue, then every distinct colour clue, for one receiver. */
  function CluesFor(hand: seq<Card>, giver: int, receiver: int): (r: seq<Action>)
    ensures forall a :: a in r <==> IsClueFor(hand, giver, receiver, a)
  {
    var ranks := Dedup(KnownValues(hand, Rank));
    var suits := Dedup(KnownValues(hand, Color));
    var rs := seq(|ranks|, i requires 0 <= i < |ranks| => ClueAction(hand, giver, receiver, Rank, ranks[i]));
    var cs := seq(|suits|, i requires 0 <= i < |suits| => ClueAction(hand, giver, receiver, Color, suits[i]));
    forall a ensures a in rs + cs <==> IsClueFor(hand, giver, receiver, a) {
      if IsClueFor(hand, giver, receiver, a) {
        if a.clue.hintType == Rank {
          var i :| 0 <= i < |ranks| && ranks[i] == a.clue.hintValue;
          assert rs[i] == a;
        } else {
          var i :| 0 <= i < |suits| && suits[i] == a.clue.hintValue;
          assert cs[i] == a;
        }
      }
    }
    rs + cs
  }

  /** Clue actions towards players `0 .. n - 1`, skipping the giver and the viewer. */
  function ClueActions(hands: seq<seq<Card>>, viewer: int, player: int, n: int): (r: seq<Action>)
    requires 0 <= n <= |hands|
    ensures forall a :: a in r <==>
      a.GiveClue? && 0 <= a.clue.receiver < n && a.clue.receiver != player && a.clue.receiver != viewer
      && IsClueFor(hands[a.clue.receiver], player, a.clue.receiver, a)
  {
    if n == 0 then []
    else
      var q := n - 1;
      var prev := ClueActions(hands, viewer, player, q);
      var here := if q == player || q == viewer then [] else CluesFor(hands[q], player, q);
      ClueActionsJoin(hands, viewer, player, q, prev, here);
      prev + here
  }

  /** The clues to receivers below `q`, followed by those to `q`, are the clues to receivers
      below `q + 1`. */
  lemma ClueActionsJoin(hands: seq<seq<Card>>, viewer: int, player: int, q: int, prev: seq<Action>, here: seq<Action>)
    requires 0 <= q < |hands|
    requires forall a :: a in prev <==>
      a.GiveClue? && 0 <= a.clue.receiver < q && a.clue.receiver != player && a.clue.receiver != viewer
      && IsClueFor(hands[a.clue.receiver], player, a.clue.receiver, a)
    requires here == if q == player || q == viewer then [] else CluesFor(hands[q], player, q)
    ensures forall a :: a in prev + here <==>
      a.GiveClue? && 0 <= a.clue.receiver < q + 1 && a.clue.receiver != player && a.clue.receiver != viewer
      && IsClueFor(hands[a.clue.receiver], player, a.clue.receiver, a)
  {
    forall a | a in here ensures a.clue.receiver == q {
      assert IsClueFor(hands[q], player, q, a);
    }
  }

  /** `get_valid_actions`: nothing once the game has ended; otherwise playing any card, discarding
      any card unless the clue tokens are full, and, with a clue token, every clue the player can
      give to someone other than themselves and the viewer. */
  function GetValidActions(s: Snapshot, viewer: int, player: int): (r: seq<Action>)
    requires Valid(s) && 0 <= player < s.numPlayers
    ensures IsEndStatus(s) ==> r == []
    ensures !IsEndStatus(s) ==> |r| >= |s.hands[player]|
    ensures !IsEndStatus(s) ==> forall i :: 0 <= i < |s.hands[player]| ==> r[i] == PlayOf(player, s.hands[player][i])
    ensures forall a :: a in r ==> a.player == player
  {
    if IsEndStatus(s) then []
    else
      var hand := s.hands[player];
      PlayMoves(hand, player)
        + (if s.clueTokens < MaxClueNum then DiscardMoves(hand, player) else [])
        + (if s.clueTokens <= 0 then [] else ClueActions(s.hands, viewer, player, s.numPlayers))
  }

  /** What the rules allow, stated one action at a time. */
  predicate Allowed(s: Snapshot, viewer: int, player: int, a: Action)
    requires Valid(s) && 0 <= player < s.numPlayers
  {
    var hand := s.hands[player];
    && !IsEndStatus(s)
    && (|| (exists i :: 0 <= i < |hand| && a == PlayOf(player, hand[i]))
        || (s.clueTokens < MaxClueNum && exists i :: 0 <= i < |hand| && a == DiscardOf(player, hand[i]))
        || (&& s.clueTokens > 0 && a.GiveClue?
            && 0 <= a.clue.receiver < s.numPlayers && a.clue.receiver != player && a.clue.receiver != viewer
            && IsClueFor(s.hands[a.clue.receiver], player, a.clue.receiver, a)))
  }

  /** The generated list holds exactly the actions the rules allow. */
  lemma ValidActionsExact(s: Snapshot, viewer: int, player: int, a: Action)
    requires Valid(s) && 0 <= player < s.numPlayers
    ensures a in GetValidActions(s, viewer, player) <==> Allowed(s, viewer, player, a)
  {
    var hand := s.hands[player];
    if !IsEndStatus(s) {
      var ps := PlayMoves(hand, player);
      var ds := if s.clueTokens < MaxClueNum then DiscardMoves(hand, player) else [];
      var cs := if s.clueTokens <= 0 then [] else ClueActions(s.hands, viewer, player, s.numPlayers);
      assert GetValidActions(s, viewer, player) == ps + ds + cs;
      InPlayMoves(hand, player, a);
      InDiscardMoves(hand, player, a);
    }
  }

  lemma InPlayMoves(hand: seq<Card>, player: int, a: Action)
    ensures a in PlayMoves(hand, player) <==> exists i :: 0 <= i < |hand| && a == PlayOf(player, hand[i])
  {
    var ps := PlayMoves(hand, player);
    if a in ps {
      var i :| 0 <= i < |ps| && ps[i] == a;
    }
  }

  lemma InDiscardMoves(hand: seq<Card>, player: int, a: Action)
    ensures a in DiscardMoves(hand, player) <==> exists i :: 0 <= i < |hand| && a == DiscardOf(player, hand[i])
  {
    var ds := DiscardMoves(hand, player);
    if a in ds {
      var i :| 0 <= i < |ds| && ds[i] == a;
    }
  }

  predicate Distinct(xs: seq<Action>) {
    forall i, j :: 0 <= i < j < |xs| ==> xs[i] != xs[j]
  }

  /** A hand with distinct orders yields no repeated action. */
  lemma ValidActionsDistinct(s: Snapshot, viewer: int, player: int)
    requires Valid(s) && 0 <= player < s.numPlayers
    requires DistinctOrders(s.hands[player])
    ensures Distinct(GetValidActions(s, viewer, player))
  {
    if !IsEndStatus(s) {
      var hand := s.hands[player];
      var ps := PlayMoves(hand, player);
      var ds := if s.clueTokens < MaxClueNum then DiscardMoves(hand, player) else [];
      var cs := if s.clueTokens <= 0 then [] else ClueActions(s.hands, viewer, player, s.numPlayers);
      assert GetValidActions(s, viewer, player) == ps + ds + cs;
      ClueActionsDistinct(s.hands, viewer, player, s.numPlayers);
      assert Distinct(ps) by {
        forall i, j | 0 <= i < j < |ps| ensures ps[i] != ps[j] {
          assert ps[i].card.order == hand[i].order && ps[j].card.order == hand[j].order;
        }
      }
      assert Distinct(ds) by {
        forall i, j | 0 <= i < j < |ds| ensures ds[i] != ds[j] {
          assert ds[i].card.order == hand[i].order && ds[j].card.order == hand[j].order;
        }
      }
      KindsDistinct(ps, ds, cs);
    }
  }

  /** Plays, then discards, then clues: distinct blocks of distinct kinds stay distinct. */
  lemma KindsDistinct(ps: seq<Action>, ds: seq<Action>, cs: seq<Action>)
    requires Distinct(ps) && Distinct(ds) && Distinct(cs)
    requires forall a :: a in ps ==> a.Play?
    requires forall a :: a in ds ==> a.Discard?
    requires forall a :: a in cs ==> a.GiveClue?
    ensures Distinct(ps + ds + cs)
  {
    var r := ps + ds + cs;
    var k := |ps| + |ds|;
    forall i, j | 0 <= i < j < |r| ensures r[i] != r[j] {
      if j < |ps| {
        assert r[i] == ps[i] && r[j] == ps[j];
      } else if j < k {
        assert r[j] == ds[j - |ps|] && r[j] in ds;
        if i >= |ps| { assert r[i] == ds[i - |ps|]; } else { assert r[i] in ps; }
      } else {
        assert r[j] == cs[j - k] && r[j] in cs;
        if i >= k { assert r[i] == cs[i - k]; } else if i >= |ps| { assert r[i] in ds; } else { assert r[i] in ps; }
      }
    }
  }

  lemma {:induction false} ClueActionsDistinct(hands: seq<seq<Card>>, viewer: int, player: int, n: int)
    requires 0 <= n <= |hands|
    ensures Distinct(ClueActions(hands, viewer, player, n))
  {
    if n > 0 {
      var q := n - 1;
      ClueActionsDistinct(hands, viewer, player, q);
      var prev := ClueActions(hands, viewer, player, q);
      var block := if q == player || q == viewer then [] else CluesFor(hands[q], player, q);
      if block != [] {
        CluesForDistinct(hands[q], player, q);
      }
      forall a | a in prev ensures a.GiveClue? && a.clue.receiver < q {
        ClueActionsReceivers(hands, viewer, player, q, a);
      }
      ReceiverBlocksDistinct(prev, block, q);
      assert ClueActions(hands, viewer, player, n) == prev + block;
    }
  }

  lemma ClueActionsReceivers(hands: seq<seq<Card>>, viewer: int, player: int, n: int, a: Action)
    requires 0 <= n <= |hands| && a in ClueActions(hands, viewer, player, n)
    ensures a.GiveClue? && a.clue.receiver < n
  {
  }

  /** Clues to earlier receivers, then clues to receiver `q`. */
  lemma ReceiverBlocksDistinct(prev: seq<Action>, block: seq<Action>, q: int)
    requires Distinct(prev) && Distinct(block)
    requires forall a :: a in prev ==> a.GiveClue? && a.clue.receiver < q
    requires forall a :: a in block ==> a.GiveClue? && a.clue.receiver == q
    ensures Distinct(prev + block)
  {
    var r := prev + block;
    forall i, j | 0 <= i < j < |r| ensures r[i] != r[j] {
      if j < |prev| {
        assert r[i] == prev[i] && r[j] == prev[j];
      } else if i < |prev| {
        assert r[i] in prev && r[j] == block[j - |prev|] && r[j] in block;
      } else {
        assert r[i] == block[i - |prev|] && r[j] == block[j - |prev|];
      }
    }
  }

  lemma CluesForDistinct(hand: seq<Card>, giver: int, receiver: int)
    ensures Distinct(CluesFor(hand, giver, receiver))
  {
    var ranks := Dedup(KnownValues(hand, Rank));
    var suits := Dedup(KnownValues(hand, Color));
    var r := CluesFor(hand, giver, receiver);
    forall i, j | 0 <= i < j < |r| ensures r[i] != r[j] {
      if j < |ranks| {
        assert r[i].clue.hintValue == ranks[i] && r[j].clue.hintValue == ranks[j];
      } else if i >= |ranks| {
        assert r[i].clue.hintValue == suits[i - |ranks|] && r[j].clue.hintValue == suits[j - |ranks|];
      } else {
        assert r[i].clue.hintType == Rank && r[j].clue.hintType == Color;
      }
    }
  }
}
