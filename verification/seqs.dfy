/** Sequence helpers: first-occurrence de-duplication and descending sorts. */
module Seqs {

  /** True when no value occurs twice. */
  predicate NoDuplicates(xs: seq<int>) {
    forall i, j :: 0 <= i < j < |xs| ==> xs[i] != xs[j]
  }

  /** Keeps the first occurrence of every value, in order (a list built with
      `if x not in acc: acc.append(x)`). */
  function Dedup(xs: seq<int>): (r: seq<int>)
    ensures NoDuplicates(r)
    ensures forall x :: x in r <==> x in xs
    decreases |xs|
  {
    if |xs| == 0 then []
    else
      var d := Dedup(xs[..|xs| - 1]);
      var x := xs[|xs| - 1];
      assert forall y :: y in xs <==> y in xs[..|xs| - 1] || y == x by {
        assert xs == xs[..|xs| - 1] + [x];
      }
      if x in d then d else d + [x]
  }

  /** `idx` picks the elements of `sub` out of `xs`, at increasing positions: `sub` is `xs`
      with some elements left out and the rest in their order. */
  ghost predicate Embedding<T>(sub: seq<T>, xs: seq<T>, idx: seq<int>) {
    && |idx| == |sub|
    && (forall k :: 0 <= k < |idx| ==> 0 <= idx[k] < |xs| && sub[k] == xs[idx[k]])
    && (forall k :: 0 < k < |idx| ==> idx[k - 1] < idx[k])
  }

  /** An embedding into all but the last element of `xs` is one into `xs`, and extends by
      that last element. */
  lemma EmbeddingExtend<T>(sub: seq<T>, xs: seq<T>, idx: seq<int>)
    requires |xs| > 0 && Embedding(sub, xs[..|xs| - 1], idx)
    ensures Embedding(sub, xs, idx)
    ensures Embedding(sub + [xs[|xs| - 1]], xs, idx + [|xs| - 1])
  {
  }

  /** Every position in `idx` holds the first occurrence of its value in `xs`. */
  ghost predicate FirstPositions(xs: seq<int>, idx: seq<int>) {
    forall k :: 0 <= k < |idx| && 0 <= idx[k] < |xs| ==> xs[idx[k]] !in xs[..idx[k]]
  }

  /** `Dedup` keeps, in their order, the first occurrences of the values of `xs`. */
  lemma {:induction false} DedupKeepsFirst(xs: seq<int>)
    ensures exists idx :: Embedding(Dedup(xs), xs, idx) && FirstPositions(xs, idx)
    decreases |xs|
  {
    if |xs| == 0 {
      assert Embedding(Dedup(xs), xs, []) && FirstPositions(xs, []);
    } else {
      var n := |xs| - 1;
      var d := Dedup(xs[..n]);
      DedupKeepsFirst(xs[..n]);
      var idx :| Embedding(d, xs[..n], idx) && FirstPositions(xs[..n], idx);
      EmbeddingExtend(d, xs, idx);
      forall k | 0 <= k < |idx| ensures xs[idx[k]] !in xs[..idx[k]] {
        assert xs[..n][..idx[k]] == xs[..idx[k]];
      }
      if xs[n] in d {
        assert Dedup(xs) == d;
      } else {
        assert Dedup(xs) == d + [xs[n]];
        assert xs[n] !in xs[..n];
      }
    }
  }

  /** Non-increasing order. */
  predicate SortedDesc(xs: seq<int>) {
    forall i, j :: 0 <= i < j < |xs| ==> xs[i] >= xs[j]
  }

  /** Inserts `x` into a non-increasing sequence. */
  function InsertDesc(x: int, xs: seq<int>): (r: seq<int>)
    requires SortedDesc(xs)
    ensures SortedDesc(r)
    ensures multiset(r) == multiset(xs) + multiset{x}
    ensures |r| == |xs| + 1
    ensures r[0] == if |xs| == 0 || x >= xs[0] then x else xs[0]
  {
    if |xs| == 0 then [x]
    else if x >= xs[0] then [x] + xs
    else
      var t := InsertDesc(x, xs[1..]);
      assert xs == [xs[0]] + xs[1..];
      [xs[0]] + t
  }

  /** Python's `sorted(xs, reverse=True)` on integers. */
  function SortDesc(xs: seq<int>): (r: seq<int>)
    ensures SortedDesc(r)
    ensures multiset(r) == multiset(xs)
    ensures |r| == |xs|
  {
    if |xs| == 0 then []
    else
      assert xs == [xs[0]] + xs[1..];
      InsertDesc(xs[0], SortDesc(xs[1..]))
  }

  /** Sorting neither adds nor drops values. */
  lemma SortDescMembers(xs: seq<int>)
    ensures forall o :: o in SortDesc(xs) <==> o in xs
  {
    assert forall o :: o in SortDesc(xs) <==> o in multiset(SortDesc(xs));
    assert forall o :: o in xs <==> o in multiset(xs);
  }

  lemma {:induction false} NoDuplicatesMultiplicity(xs: seq<int>, x: int)
    requires NoDuplicates(xs)
    ensures multiset(xs)[x] <= 1
  {
    if |xs| > 0 {
      var n := |xs| - 1;
      assert xs == xs[..n] + [xs[n]];
      assert NoDuplicates(xs[..n]);
      NoDuplicatesMultiplicity(xs[..n], x);
      if xs[n] == x {
        assert x !in xs[..n];
      }
    }
  }

  /** A value at two positions occurs at least twice. */
  lemma TwoOccurrences(r: seq<int>, i: int, j: int)
    requires 0 <= i < j < |r| && r[i] == r[j]
    ensures multiset(r)[r[i]] >= 2
  {
    var x := r[i];
    assert r == r[..j] + r[j..];
    assert r[..j][i] == x && r[j..][0] == x;
    assert multiset(r) == multiset(r[..j]) + multiset(r[j..]);
  }

  /** Sorting keeps values distinct. */
  lemma SortDescNoDuplicates(xs: seq<int>)
    requires NoDuplicates(xs)
    ensures NoDuplicates(SortDesc(xs))
  {
    var r := SortDesc(xs);
    forall i, j | 0 <= i < j < |r| ensures r[i] != r[j] {
      if r[i] == r[j] {
        TwoOccurrences(r, i, j);
        NoDuplicatesMultiplicity(xs, r[i]);
        assert false;
      }
    }
  }
}
