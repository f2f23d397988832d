/** fcyc.c: the K-best measurement scheme. Samples are reals. */
module Fcyc {

  ghost predicate Sorted(v: seq<real>) {
    forall i, j :: 0 <= i < j < |v| ==> v[i] <= v[j]
  }

  /** x put before the elements of v that are larger, as far from the front as possible. */
  function Insert(v: seq<real>, x: real): seq<real> {
    if v == [] then [x]
    else if v[|v| - 1] > x then Insert(v[..|v| - 1], x) + [v[|v| - 1]]
    else v + [x]
  }

  function Sort(s: seq<real>): seq<real> {
    if s == [] then [] else Insert(Sort(s[..|s| - 1]), s[|s| - 1])
  }

  function Take(v: seq<real>, k: nat): seq<real> {
    if |v| <= k then v else v[..k]
  }

  /** The k smallest samples, in order. */
  function Best(s: seq<real>, k: nat): seq<real> {
    Take(Sort(s), k)
  }

  lemma {:induction false} InsertMembers(v: seq<real>, x: real)
    ensures |Insert(v, x)| == |v| + 1 && multiset(Insert(v, x)) == multiset(v) + multiset{x}
  {
    if v == [] || v[|v| - 1] <= x {
    } else {
      InsertMembers(v[..|v| - 1], x);
      assert v == v[..|v| - 1] + [v[|v| - 1]];
    }
  }

  lemma {:induction false} InsertSorts(v: seq<real>, x: real)
    requires Sorted(v)
    ensures Sorted(Insert(v, x))
  {
    if v == [] || v[|v| - 1] <= x {
    } else {
      var u, l := v[..|v| - 1], v[|v| - 1];
      InsertSorts(u, x);
      InsertMembers(u, x);
      forall i | 0 <= i < |Insert(u, x)| ensures Insert(u, x)[i] <= l {
        assert Insert(u, x)[i] in multiset(Insert(u, x));
        assert forall y :: y in u ==> y <= l;
      }
    }
  }

  lemma {:induction false} SortSorts(s: seq<real>)
    ensures Sorted(Sort(s)) && |Sort(s)| == |s| && multiset(Sort(s)) == multiset(s)
  {
    if s == [] {
    } else {
      SortSorts(s[..|s| - 1]);
      InsertSorts(Sort(s[..|s| - 1]), s[|s| - 1]);
      InsertMembers(Sort(s[..|s| - 1]), s[|s| - 1]);
      assert s == s[..|s| - 1] + [s[|s| - 1]];
    }
  }

  lemma InsertLate(v: seq<real>, x: real)
    requires v == [] || v[|v| - 1] <= x
    ensures Insert(v, x) == v + [x]
  {
  }

  /** The last of more than k values has no say in the first k. */
  lemma TakeInsertLast(v: seq<real>, x: real, k: nat)
    requires Sorted(v) && |v| > k
    ensures Take(Insert(v, x), k) == Take(Insert(v[..|v| - 1], x), k)
  {
    var u, l := v[..|v| - 1], v[|v| - 1];
    InsertMembers(u, x);
    if l > x {
      assert Insert(v, x) == Insert(u, x) + [l];
    } else {
      InsertLate(u, x);
    }
  }

  /** Keeping only the k best so far loses nothing: inserting into them and cutting to k
      gives the k best of all. */
  lemma {:induction false} TakeInsert(v: seq<real>, x: real, k: nat)
    requires Sorted(v)
    ensures Take(Insert(Take(v, k), x), k) == Take(Insert(v, x), k)
  {
    if |v| <= k {
    } else {
      hide Insert;
      var u := v[..|v| - 1];
      assert Take(u, k) == Take(v, k);
      TakeInsert(u, x, k);
      TakeInsertLast(v, x, k);
    }
  }

  lemma BestNext(s: seq<real>, x: real, k: nat)
    ensures Best(s + [x], k) == Take(Insert(Best(s, k), x), k)
    ensures |Best(s, k)| == (if |s| < k then |s| else k) && Sorted(Best(s, k))
  {
    SortSorts(s);
    assert (s + [x])[..|s|] == s;
    TakeInsert(Sort(s), x, k);
  }

  lemma TakePrefix(v: seq<real>, k: nat)
    requires Sorted(v)
    ensures var b := Take(v, k); |b| <= |v| && b + v[|b|..] == v && Sorted(b)
  {
  }

  lemma BestSplits(s: seq<real>, k: nat)
    ensures var b := Best(s, k);
      && |b| <= |Sort(s)| && b + Sort(s)[|b|..] == Sort(s) && Sorted(b)
  {
    hide Sort;
    SortSorts(s);
    TakePrefix(Sort(s), k);
  }

  lemma SplitMultiset(b: seq<real>, rest: seq<real>)
    ensures multiset(b + rest) - multiset(b) == multiset(rest) && multiset(b) <= multiset(b + rest)
  {
  }

  lemma SplitSorted(b: seq<real>, rest: seq<real>, x: real, y: real)
    requires Sorted(b + rest) && x in b && y in rest
    ensures x <= y
  {
    var i :| 0 <= i < |b| && b[i] == x;
    var j :| 0 <= j < |rest| && rest[j] == y;
    assert (b + rest)[i] == x && (b + rest)[|b| + j] == y;
  }

  /** The k best samples are k of the samples, in order, and no other sample is smaller
      than any of them. */
  lemma BestIsSmallest(s: seq<real>, k: nat)
    ensures var b := Best(s, k);
      && Sorted(b) && |b| == (if |s| < k then |s| else k) && multiset(b) <= multiset(s)
      && forall x, y :: x in b && y in multiset(s) - multiset(b) ==> x <= y
  {
    hide Sort, Sorted;
    SortSorts(s);
    var b := Best(s, k);
    var rest := Sort(s)[|b|..];
    BestSplits(s, k);
    SplitMultiset(b, rest);
    forall x, y | x in b && y in multiset(s) - multiset(b) ensures x <= y {
      assert y in multiset(rest);
      assert y in rest;
      SplitSorted(b, rest, x, y);
    }
  }

  /** (1 + epsilon) * a >= b */
  predicate Within(a: real, b: real, epsilon: real) {
    (1.0 + epsilon) * a >= b
  }

  /** has_converged, over the samples themselves. */
  ghost predicate Converged(s: seq<real>, k: nat, epsilon: real)
    requires 1 <= k
  {
    SortSorts(s);
    |s| >= k && Within(Best(s, k)[0], Best(s, k)[k - 1], epsilon)
  }

  /** A converged run has k samples within a factor 1 + epsilon of the smallest of all. */
  lemma ConvergedMeans(s: seq<real>, k: nat, epsilon: real)
    requires 1 <= k && Converged(s, k, epsilon)
    ensures var b := Best(s, k);
      && |b| == k && multiset(b) <= multiset(s)
      && (forall y :: y in s ==> b[0] <= y)
      && forall y :: y in b ==> b[0] <= y <= (1.0 + epsilon) * b[0]
  {
    hide Sort, Insert;
    SortSorts(s);
    BestIsSmallest(s, k);
    var b := Best(s, k);
    forall y | y in s ensures b[0] <= y {
      assert y in multiset(Sort(s));
    }
    forall y | y in b ensures b[0] <= y <= b[k - 1] {
    }
  }

  /** b is k of the samples s, all within a factor 1 + epsilon of the least sample m. */
  ghost predicate CloseSamples(s: seq<real>, k: nat, epsilon: real, b: seq<real>, m: real) {
    && |b| == k && multiset(b) <= multiset(s)
    && m in s && (forall y :: y in s ==> m <= y)
    && forall y :: y in b ==> y <= (1.0 + epsilon) * m
  }

  lemma BestWithin(s: seq<real>, b: seq<real>, k: nat, epsilon: real)
    requires 1 <= k && |b| == k && multiset(b) <= multiset(s) && forall y :: y in s ==> b[0] <= y
    requires forall y :: y in b ==> b[0] <= y <= (1.0 + epsilon) * b[0]
    ensures CloseSamples(s, k, epsilon, b, b[0])
  {
    assert b[0] in multiset(b);
  }

  lemma SubsetSize(b: seq<real>, s: seq<real>)
    requires multiset(b) <= multiset(s)
    ensures |b| <= |s|
  {
    assert |multiset(s) - multiset(b)| == |multiset(s)| - |multiset(b)|;
  }

  /** Fewer than k values lie up to a bound that the k-th exceeds. */
  lemma FewBelow(v: seq<real>, b: seq<real>, k: nat, bound: real)
    requires Sorted(v) && 1 <= k <= |v| && v[k - 1] > bound
    requires multiset(b) <= multiset(v) && forall y :: y in b ==> y <= bound
    ensures |b| < k
  {
    var head, tail := v[..k - 1], v[k - 1..];
    assert v == head + tail;
    forall y | y in multiset(b) ensures multiset(b)[y] <= multiset(head)[y] {
      assert y in b;
      assert y !in tail;
      assert multiset(tail)[y] == 0;
    }
    assert multiset(b) <= multiset(head);
    SubsetSize(b, head);
  }

  lemma SmallestFirst(s: seq<real>, k: nat)
    requires 1 <= k && 1 <= |s|
    ensures |Best(s, k)| >= 1 && Best(s, k)[0] in s && forall y :: y in s ==> Best(s, k)[0] <= y
  {
    SortSorts(s);
    assert Best(s, k)[0] == Sort(s)[0] && Sort(s)[0] in multiset(Sort(s));
    forall y | y in s ensures Best(s, k)[0] <= y {
      assert y in multiset(Sort(s));
    }
  }

  lemma CloseConverges(s: seq<real>, k: nat, epsilon: real, b: seq<real>, m: real)
    requires 1 <= k && CloseSamples(s, k, epsilon, b, m)
    ensures Converged(s, k, epsilon)
  {
    hide Sort, Sorted;
    SortSorts(s);
    SubsetSize(b, s);
    SmallestFirst(s, k);
    BestIsSmallest(s, k);
    var v, bound := Sort(s), (1.0 + epsilon) * m;
    assert Best(s, k)[0] == m;
    assert Best(s, k)[k - 1] == v[k - 1];
    if v[k - 1] > bound {
      FewBelow(v, b, k, bound);
    }
  }

  /** A run has converged exactly when some k of its samples are that close to the least. */
  lemma ConvergedExact(s: seq<real>, k: nat, epsilon: real)
    requires 1 <= k
    ensures Converged(s, k, epsilon) <==> exists b, m :: CloseSamples(s, k, epsilon, b, m)
  {
    hide Best, Sort, Sorted, Converged, Within;
    if Converged(s, k, epsilon) {
      ConvergedMeans(s, k, epsilon);
      BestWithin(s, Best(s, k), k, epsilon);
    }
    if b, m :| CloseSamples(s, k, epsilon, b, m) {
      CloseConverges(s, k, epsilon, b, m);
    }
  }

  /** One swap of the insertion-sort loop. */
  lemma SiftStep(u: seq<real>, x: real, pos: nat)
    requires 0 < pos <= |u| && u[pos - 1] > x
    ensures Insert(u[..pos], x) + u[pos..] == Insert(u[..pos - 1], x) + u[pos - 1..]
  {
    assert u[..pos][..pos - 1] == u[..pos - 1];
  }

  lemma InsertOne(x: real)
    ensures Insert([], x) == [x]
  {
  }

  /** add_sample's three cases: the array fills up, its last value makes way, or the sample
      is not among the k best. */
  lemma SampleCases(v: seq<real>, x: real, k: nat)
    requires 1 <= k && |v| <= k
    ensures |v| < k ==> Take(Insert(v, x), k) == Insert(v[..|v|], x) && |Insert(v[..|v|], x)| == |v| + 1
    ensures |v| == k && x < v[k - 1] ==> Take(Insert(v, x), k) == Insert(v[..k - 1], x) && |Insert(v[..k - 1], x)| == k
    ensures |v| == k && x >= v[k - 1] ==> Take(Insert(v, x), k) == v
  {
    InsertMembers(v, x);
    assert v[..|v|] == v;
    if |v| == k {
      InsertMembers(v[..k - 1], x);
    }
  }

  /** The samples are the first measurements, in order. */
  ghost predicate Measured(s: seq<real>, measure: nat -> real) {
    forall i :: 0 <= i < |s| ==> s[i] == measure(i)
  }

  class Sampler {
    const kbest: int
    const maxsamples: int
    const epsilon: real
    const values: array<real>
    var samplecount: int
    /** Every sample so far. */
    ghost var samples: seq<real>

    ghost predicate Valid()
      reads this, values
    {
      && 1 <= kbest == values.Length && samplecount == |samples|
      && values[..if samplecount < kbest then samplecount else kbest] == Best(samples, kbest)
    }

    /** init_sampler */
    constructor (kbest: int, maxsamples: int, epsilon: real)
      requires 1 <= kbest
      ensures Valid() && samples == [] && fresh(values)
      ensures this.kbest == kbest && this.maxsamples == maxsamples && this.epsilon == epsilon
    {
      this.kbest, this.maxsamples, this.epsilon := kbest, maxsamples, epsilon;
      values := new real[kbest](_ => 0.0);
      samplecount := 0;
      samples := [];
    }

    /** The insertion-sort loop of add_sample: the value at start moves to its place. */
    method SiftIn(start: int, ghost u: seq<real>)
      requires 0 <= start < values.Length && values[..start] == u
      modifies values
      ensures values[..start + 1] == Insert(u, old(values[start]))
      ensures values[start + 1..] == old(values[start + 1..])
    {
      hide Insert;
      ghost var val := values[start];
      var pos := start;
      assert u[..start] == u && u[start..] == [];
      while pos > 0 && values[pos - 1] > values[pos]
        invariant 0 <= pos <= start
        invariant values[..start + 1] == u[..pos] + [val] + u[pos..]
        invariant Insert(u, val) == Insert(u[..pos], val) + u[pos..]
        invariant values[start + 1..] == old(values[start + 1..])
      {
        assert values[pos - 1] == values[..start + 1][pos - 1] && values[pos] == values[..start + 1][pos];
        SiftStep(u, val, pos);
        values[pos - 1], values[pos] := values[pos], values[pos - 1];
        pos := pos - 1;
      }
      assert pos > 0 ==> values[pos - 1] == values[..start + 1][pos - 1] && values[pos] == values[..start + 1][pos];
      InsertLate(u[..pos], val);
    }

    /** add_sample: insertion sort of one value, in place. */
    method AddSample(val: real)
      requires Valid()
      modifies this`samplecount, this`samples, values
      ensures Valid() && samples == old(samples) + [val] && samplecount == old(samplecount) + 1
    {
      hide Best, Insert, Take, Sorted;
      ghost var v := Best(samples, kbest);
      BestNext(samples, val, kbest);
      var pos := 0;
      if samplecount < kbest {
        pos := samplecount;
        values[pos] := val;
      } else if val < values[kbest - 1] {
        pos := kbest - 1;
        values[pos] := val;
      }
      samplecount := samplecount + 1;
      samples := samples + [val];
      ghost var u, w := v[..pos], values[..];
      SiftIn(pos, u);
      SampleCases(v, val, kbest);
      if |v| == kbest && v[kbest - 1] <= val {
        InsertOne(w[0]);
        assert values[..] == values[..1] + values[1..] == w;
      }
    }

    /** has_converged */
    predicate HasConverged()
      requires Valid()
      reads this, values
      ensures HasConverged() == Converged(samples, kbest, epsilon)
    {
      assert samplecount >= kbest ==>
        values[0] == values[..kbest][0] && values[kbest - 1] == values[..kbest][kbest - 1];
      hide Within, Best;
      samplecount >= kbest && Within(values[0], values[kbest - 1], epsilon)
    }

    /** The sampling loop of fcyc over the measurements it will see: the smallest sample
        taken; at most max(1, maxsamples) are taken, and fewer only on convergence. */
    method Sample(measure: nat -> real) returns (result: real)
      requires Valid() && samples == []
      modifies this`samplecount, this`samples, values
      ensures Valid() && Measured(samples, measure)
      ensures 1 <= |samples| && (|samples| == 1 || |samples| <= maxsamples)
      ensures Converged(samples, kbest, epsilon) || |samples| >= maxsamples
      ensures forall j :: 1 <= j < |samples| ==> !Converged(samples[..j], kbest, epsilon)
      ensures result in samples && forall y :: y in samples ==> result <= y
    {
      hide Within, Best, Converged;
      AddSample(measure(0));
      while !HasConverged() && samplecount < maxsamples
        invariant Valid() && Measured(samples, measure) && 1 <= |samples|
        invariant |samples| == 1 || |samples| <= maxsamples
        invariant forall j :: 1 <= j < |samples| ==> !Converged(samples[..j], kbest, epsilon)
        decreases maxsamples - samplecount
      {
        ghost var s := samples;
        AddSample(measure(samplecount));
        assert samples[..|s|] == s;
        assert forall j :: 1 <= j < |s| ==> samples[..j] == s[..j];
      }
      result := values[0];
      SmallestFirst(samples, kbest);
    }
  }
}
