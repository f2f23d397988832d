/** The size classes of the 32 buckets and the sequence operations on their lists. */
module Buckets {
  import opened Words

  function Pow2(k: nat): (r: nat)
    ensures r >= 1
  {
    if k == 0 then 1 else 2 * Pow2(k - 1)
  }

  lemma {:induction false} Pow2Monotone(j: nat, k: nat)
    requires j <= k
    ensures Pow2(j) <= Pow2(k)
  {
    if j == k {
    } else {
      Pow2Monotone(j, k - 1);
    }
  }

  lemma Pow2Of31()
    ensures Pow2(31) == TWO31
  {
    assert Pow2(8) == 0x100;
    assert Pow2(16) == 0x1_0000;
    assert Pow2(24) == 0x100_0000;
  }

  /** Bucket k holds the sizes in (2^(k-1), 2^k]; bucket 0 those up to 1. */
  ghost predicate InBucket(size: int, k: nat) {
    size <= Pow2(k) && (k > 0 ==> Pow2(k - 1) < size)
  }

  /** The bucket of a size. */
  function BucketOf(size: int): (k: nat)
    ensures InBucket(size, k)
    ensures size <= TWO31 ==> k < 32
  {
    var k := if size <= 1 then 0 else 1 + BucketOf((size + 1) / 2);
    assert size <= TWO31 ==> k < 32 by {
      if k >= 32 {
        Pow2Monotone(31, k - 1);
        Pow2Of31();
      }
    }
    k
  }

  lemma BucketUnique(size: int, j: nat, k: nat)
    requires InBucket(size, j) && InBucket(size, k)
    ensures j == k
  {
    if j < k {
      Pow2Monotone(j, k - 1);
    } else if k < j {
      Pow2Monotone(k, j - 1);
    }
  }

  lemma BucketMonotone(a: int, b: int)
    requires a <= b
    ensures BucketOf(a) <= BucketOf(b)
  {
  }

  ghost predicate Distinct<T(!new)>(s: seq<T>) {
    forall i, j :: 0 <= i < j < |s| ==> s[i] != s[j]
  }

  /** s without the first occurrence of x. */
  function Without(s: seq<int>, x: int): seq<int> {
    if s == [] then [] else if s[0] == x then s[1..] else [s[0]] + Without(s[1..], x)
  }

  /** s without its elements in [lo, hi), order kept. */
  function KeepOutside(s: seq<int>, lo: int, hi: int): seq<int> {
    if s == [] then []
    else if lo <= s[0] < hi then KeepOutside(s[1..], lo, hi)
    else [s[0]] + KeepOutside(s[1..], lo, hi)
  }

  lemma {:induction false} WithoutAt(s: seq<int>, i: nat)
    requires i < |s| && Distinct(s)
    ensures Without(s, s[i]) == s[..i] + s[i + 1..]
  {
    if i == 0 {
    } else {
      WithoutAt(s[1..], i - 1);
      assert s[1..][i - 1] == s[i];
      assert s[0] != s[i];
      assert Without(s, s[i]) == [s[0]] + Without(s[1..], s[i]);
    }
  }

  lemma CutMembers(s: seq<int>, i: nat)
    requires i < |s| && Distinct(s)
    ensures Distinct(s[..i] + s[i + 1..])
    ensures forall y :: y in s[..i] + s[i + 1..] <==> y in s && y != s[i]
  {
  }

  lemma {:induction false} WithoutAbsent(s: seq<int>, x: int)
    requires x !in s
    ensures Without(s, x) == s
  {
    if s == [] {
    } else {
      WithoutAbsent(s[1..], x);
    }
  }

  lemma {:induction false} WithoutMembers(s: seq<int>, x: int)
    requires Distinct(s)
    ensures Distinct(Without(s, x))
    ensures forall y :: y in Without(s, x) <==> y in s && y != x
  {
    hide Without;
    if x in s {
      var i :| 0 <= i < |s| && s[i] == x;
      WithoutAt(s, i);
      CutMembers(s, i);
    } else {
      WithoutAbsent(s, x);
    }
  }

  lemma {:induction false} KeepMembers(s: seq<int>, lo: int, hi: int)
    requires Distinct(s)
    ensures Distinct(KeepOutside(s, lo, hi))
    ensures forall y :: y in KeepOutside(s, lo, hi) <==> y in s && !(lo <= y < hi)
  {
    if s == [] {
    } else {
      var r := KeepOutside(s[1..], lo, hi);
      KeepMembers(s[1..], lo, hi);
      assert s[0] !in s[1..];
      assert forall y :: y in s <==> y == s[0] || y in s[1..];
    }
  }

  lemma {:induction false} KeepAll(s: seq<int>, lo: int, hi: int)
    requires forall x :: x in s ==> !(lo <= x < hi)
    ensures KeepOutside(s, lo, hi) == s
  {
    if s == [] {
    } else {
      assert forall x :: x in s[1..] ==> x in s;
      KeepAll(s[1..], lo, hi);
      assert s[0] in s && s == [s[0]] + s[1..];
    }
  }

  /** Deleting an element of the region first changes nothing. */
  lemma {:induction false} KeepWithout(s: seq<int>, x: int, lo: int, hi: int)
    requires lo <= x < hi
    ensures KeepOutside(Without(s, x), lo, hi) == KeepOutside(s, lo, hi)
  {
    if s == [] || s[0] == x {
    } else {
      KeepWithout(s[1..], x, lo, hi);
      assert Without(s, x)[1..] == Without(s[1..], x);
    }
  }

  /** Every list without its elements in [lo, hi). */
  function Swept(lists: seq<seq<int>>, lo: int, hi: int): seq<seq<int>> {
    seq(|lists|, k requires 0 <= k < |lists| => KeepOutside(lists[k], lo, hi))
  }

  lemma SweptWithout(lists: seq<seq<int>>, k: nat, x: int, lo: int, hi: int)
    requires k < |lists| && lo <= x < hi
    ensures Swept(lists[k := Without(lists[k], x)], lo, hi) == Swept(lists, lo, hi)
  {
    KeepWithout(lists[k], x, lo, hi);
  }

  lemma SweptClear(lists: seq<seq<int>>, lo: int, hi: int)
    requires forall k, x :: 0 <= k < |lists| && x in lists[k] ==> !(lo <= x < hi)
    ensures Swept(lists, lo, hi) == lists
  {
    forall k | 0 <= k < |lists| ensures KeepOutside(lists[k], lo, hi) == lists[k] {
      KeepAll(lists[k], lo, hi);
    }
  }
}
