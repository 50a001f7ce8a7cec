/**
 Sequence folds shared by both programs: the concatenation of batches a
 coordinator performs, the element-wise map a worker performs, and the
 "keep the non-None results" filter of `scrape_html`.
 */
module Seqs {
  import opened Wrappers

  /** Total number of elements over all batches. */
  function SumLengths<T>(bs: seq<seq<T>>): nat
  {
    if |bs| == 0 then 0 else SumLengths(bs[..|bs| - 1]) + |bs[|bs| - 1]|
  }

  /** The batches joined in order, as `out = []; for b in bs: out += b` leaves `out`. */
  function Concat<T>(bs: seq<seq<T>>): (r: seq<T>)
    ensures |r| == SumLengths(bs)
  {
    if |bs| == 0 then [] else Concat(bs[..|bs| - 1]) + bs[|bs| - 1]
  }

  /** `[f(x) for x in xs]`. */
  function MapSeq<A, B>(f: A -> B, xs: seq<A>): seq<B>
  {
    seq(|xs|, i requires 0 <= i < |xs| => f(xs[i]))
  }

  /** `[y for x in xs for y in f(x)]`. */
  function FlatMap<A, B>(f: A -> seq<B>, xs: seq<A>): seq<B>
  {
    Concat(MapSeq(f, xs))
  }

  /** `[MapSeq(f, d) for d in ds]`: one mapped list per group. */
  function MapEach<A, B>(f: A -> B, ds: seq<seq<A>>): seq<seq<B>>
  {
    seq(|ds|, i requires 0 <= i < |ds| => MapSeq(f, ds[i]))
  }

  /** `[FlatMap(f, d) for d in ds]`: one flattened batch per group. */
  function FlatMapEach<A, B>(f: A -> seq<B>, ds: seq<seq<A>>): seq<seq<B>>
  {
    seq(|ds|, i requires 0 <= i < |ds| => FlatMap(f, ds[i]))
  }

  /** The values of the `Some` entries, in order: `[x for x in xs if x is not None]`. */
  function Somes<T>(xs: seq<Option<T>>): (r: seq<T>)
    ensures |r| <= |xs|
    ensures |r| == |xs| <==> forall i :: 0 <= i < |xs| ==> xs[i].Some?
    ensures forall i :: 0 <= i < |xs| && xs[i].Some? ==> xs[i].value in r
    ensures forall j :: 0 <= j < |r| ==> Some(r[j]) in xs
  {
    if |xs| == 0 then []
    else
      var init := Somes(xs[..|xs| - 1]);
      assert xs == xs[..|xs| - 1] + [xs[|xs| - 1]];
      match xs[|xs| - 1]
      case None => init
      case Some(x) => init + [x]
  }

  /** When every entry is present, filtering drops nothing. */
  lemma {:induction false} SomesAllPresent<T>(xs: seq<Option<T>>, ys: seq<T>)
    requires |xs| == |ys|
    requires forall i :: 0 <= i < |xs| ==> xs[i] == Some(ys[i])
    ensures Somes(xs) == ys
  {
    if |xs| > 0 {
      var n := |xs| - 1;
      SomesAllPresent(xs[..n], ys[..n]);
      assert ys == ys[..n] + [ys[n]];
    }
  }

  lemma {:induction false} ConcatAppend<T>(a: seq<seq<T>>, b: seq<seq<T>>)
    ensures Concat(a + b) == Concat(a) + Concat(b)
    decreases |b|
  {
    if |b| == 0 {
      assert a + b == a;
      assert Concat(b) == [];
    } else {
      var n := |b| - 1;
      var ab := a + b;
      assert ab[..|ab| - 1] == a + b[..n];
      assert ab[|ab| - 1] == b[n];
      assert Concat(ab) == Concat(a + b[..n]) + b[n];
      ConcatAppend(a, b[..n]);
      assert Concat(b) == Concat(b[..n]) + b[n];
    }
  }

  lemma ConcatSingleton<T>(x: seq<T>)
    ensures Concat([x]) == x
  {
    assert [x][..0] == [];
  }

  lemma MapSeqAppend<A, B>(f: A -> B, a: seq<A>, b: seq<A>)
    ensures MapSeq(f, a + b) == MapSeq(f, a) + MapSeq(f, b)
  {
  }

  lemma FlatMapAppend<A, B>(f: A -> seq<B>, a: seq<A>, b: seq<A>)
    ensures FlatMap(f, a + b) == FlatMap(f, a) + FlatMap(f, b)
  {
    MapSeqAppend(f, a, b);
    ConcatAppend(MapSeq(f, a), MapSeq(f, b));
  }

  /** Somes distributes over concatenation: filtering keeps the relative order of the kept values. */
  lemma {:induction false} SomesAppend<T>(a: seq<Option<T>>, b: seq<Option<T>>)
    ensures Somes(a + b) == Somes(a) + Somes(b)
    decreases |b|
  {
    if |b| == 0 {
      assert a + b == a;
    } else {
      var n := |b| - 1;
      assert (a + b)[..|a + b| - 1] == a + b[..n];
      SomesAppend(a, b[..n]);
    }
  }

  /** Every batch is contained, with multiplicity, in the concatenation. */
  lemma {:induction false} ConcatContains<T>(bs: seq<seq<T>>, w: nat)
    requires w < |bs|
    ensures multiset(bs[w]) <= multiset(Concat(bs))
    decreases |bs|
  {
    var n := |bs| - 1;
    if w < n {
      ConcatContains(bs[..n], w);
    }
  }

  /** Concatenating only empty batches gives nothing. */
  lemma {:induction false} ConcatOfEmpties<T>(d: seq<seq<T>>)
    requires forall i :: 0 <= i < |d| ==> d[i] == []
    ensures Concat(d) == []
  {
    if |d| > 0 {
      ConcatOfEmpties(d[..|d| - 1]);
    }
  }

  /**
   A property every item has is kept by every part of a partition of the
   items: each part's items are among the items.
   */
  lemma PartsKeep<T>(d: seq<seq<T>>, xs: seq<T>, p: T -> bool)
    requires multiset(Concat(d)) == multiset(xs)
    requires forall i :: 0 <= i < |xs| ==> p(xs[i])
    ensures forall w, k :: 0 <= w < |d| && 0 <= k < |d[w]| ==> p(d[w][k])
  {
    forall w, k | 0 <= w < |d| && 0 <= k < |d[w]|
      ensures p(d[w][k])
    {
      ConcatContains(d, w);
      assert d[w][k] in multiset(d[w]);
      assert d[w][k] in xs;
    }
  }

  /** The concatenation around one batch: those before it, the batch, those after it. */
  lemma {:induction false} ConcatSplitAt<T>(bs: seq<seq<T>>, j: nat)
    requires j < |bs|
    ensures Concat(bs) == Concat(bs[..j]) + bs[j] + Concat(bs[j + 1..])
    decreases |bs|
  {
    var n := |bs| - 1;
    if j == n {
      assert bs[j + 1..] == [];
    } else {
      ConcatSplitAt(bs[..n], j);
      assert bs[..n][..j] == bs[..j];
      var post := bs[j + 1..];
      assert bs[..n][j + 1..] == post[..|post| - 1];
      assert post[|post| - 1] == bs[n];
    }
  }


  /** Removing one batch from the sequence removes exactly its elements from the concatenation. */
  lemma ConcatDropAt<T>(bs: seq<seq<T>>, j: nat)
    requires j < |bs|
    ensures multiset(Concat(bs)) == multiset(Concat(bs[..j] + bs[j + 1..])) + multiset(bs[j])
  {
    ConcatSplitAt(bs, j);
    ConcatAppend(bs[..j], bs[j + 1..]);
  }

  /**
   In a permutation of `xs`, an occurrence of the last element of `xs`, and
   the rest of the permutation is a permutation of the rest of `xs`.
   */
  lemma MatchLast<T>(xs: seq<T>, ys: seq<T>) returns (j: nat)
    requires |xs| > 0 && multiset(xs) == multiset(ys)
    ensures j < |ys| && ys[j] == xs[|xs| - 1]
    ensures multiset(xs[..|xs| - 1]) == multiset(ys[..j] + ys[j + 1..])
  {
    var n := |xs| - 1;
    var x := xs[n];
    assert xs == xs[..n] + [x];
    assert x in multiset(ys);
    j :| 0 <= j < |ys| && ys[j] == x;
    assert ys == ys[..j] + [x] + ys[j + 1..];
    assert multiset(ys[..j] + ys[j + 1..]) == multiset(ys) - multiset{x};
  }

  /**
   Merge order does not matter for the multiset of elements: reordering the
   batches (any permutation) leaves the multiset of the concatenation unchanged.
   */
  lemma {:induction false} ConcatPermutation<T>(xs: seq<seq<T>>, ys: seq<seq<T>>)
    requires multiset(xs) == multiset(ys)
    ensures multiset(Concat(xs)) == multiset(Concat(ys))
    decreases |xs|
  {
    if |xs| == 0 {
      assert |ys| == |multiset(ys)| == 0;
    } else {
      var n := |xs| - 1;
      var j := MatchLast(xs, ys);
      ConcatPermutation(xs[..n], ys[..j] + ys[j + 1..]);
      ConcatDropAt(ys, j);
    }
  }

  /** Mapping a permutation gives a permutation of the images. */
  lemma {:induction false} MapSeqPermutation<A, B>(f: A -> B, xs: seq<A>, ys: seq<A>)
    requires multiset(xs) == multiset(ys)
    ensures multiset(MapSeq(f, xs)) == multiset(MapSeq(f, ys))
    decreases |xs|
  {
    if |xs| == 0 {
      assert |ys| == |multiset(ys)| == 0;
    } else {
      var n := |xs| - 1;
      var j := MatchLast(xs, ys);
      var x := xs[n];
      MapSeqPermutation(f, xs[..n], ys[..j] + ys[j + 1..]);
      assert xs == xs[..n] + [x];
      assert ys == ys[..j] + [x] + ys[j + 1..];
      MapSeqAppend(f, xs[..n], [x]);
      MapSeqAppend(f, ys[..j] + [x], ys[j + 1..]);
      MapSeqAppend(f, ys[..j], [x]);
      MapSeqAppend(f, ys[..j], ys[j + 1..]);
    }
  }

  /** The multiset of a flat map depends only on the multiset of its input. */
  lemma FlatMapPermutation<A, B>(f: A -> seq<B>, xs: seq<A>, ys: seq<A>)
    requires multiset(xs) == multiset(ys)
    ensures multiset(FlatMap(f, xs)) == multiset(FlatMap(f, ys))
  {
    MapSeqPermutation(f, xs, ys);
    ConcatPermutation(MapSeq(f, xs), MapSeq(f, ys));
  }

  /** Flat-mapping the groups one by one and joining the results is flat-mapping the joined groups. */
  lemma {:induction false} FlatMapOfConcat<A, B>(f: A -> seq<B>, ds: seq<seq<A>>)
    ensures FlatMap(f, Concat(ds)) == Concat(FlatMapEach(f, ds))
    decreases |ds|
  {
    if |ds| > 0 {
      var n := |ds| - 1;
      FlatMapOfConcat(f, ds[..n]);
      FlatMapAppend(f, Concat(ds[..n]), ds[n]);
      assert FlatMapEach(f, ds)[..n] == FlatMapEach(f, ds[..n]);
    }
  }

  /** Mapping the groups one by one and joining the results is mapping the joined groups. */
  lemma {:induction false} MapSeqOfConcat<A, B>(f: A -> B, ds: seq<seq<A>>)
    ensures MapSeq(f, Concat(ds)) == Concat(MapEach(f, ds))
    decreases |ds|
  {
    if |ds| > 0 {
      var n := |ds| - 1;
      MapSeqOfConcat(f, ds[..n]);
      MapSeqAppend(f, Concat(ds[..n]), ds[n]);
      assert MapEach(f, ds)[..n] == MapEach(f, ds[..n]);
    }
  }

  /** A lower bound used for the pigeonhole argument: non-empty batches each add at least one element. */
  lemma {:induction false} SumLengthsAtLeastCount<T>(bs: seq<seq<T>>)
    requires forall i :: 0 <= i < |bs| ==> |bs[i]| >= 1
    ensures SumLengths(bs) >= |bs|
    decreases |bs|
  {
    if |bs| > 0 {
      SumLengthsAtLeastCount(bs[..|bs| - 1]);
    }
  }
}
