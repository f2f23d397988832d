/** Sums over finite maps, and intervals packed into a range. */
module Sums {

  /** Some element of a non-empty set. */
  ghost function Some<T>(s: set<T>): (x: T)
    requires s != {}
    ensures x in s
  {
    var x :| x in s;
    x
  }

  ghost function SumOver(m: map<int, int>, s: set<int>): int
    requires s <= m.Keys
  {
    if s == {} then 0
    else
      var k := Some(s);
      m[k] + SumOver(m, s - {k})
  }

  ghost function Sum(m: map<int, int>): int {
    SumOver(m, m.Keys)
  }

  /** Any key may be taken out first. */
  lemma {:induction false} SumOverWithout(m: map<int, int>, s: set<int>, k: int)
    requires k in s && s <= m.Keys
    ensures SumOver(m, s) == m[k] + SumOver(m, s - {k})
    decreases s
  {
    var j := Some(s);
    if j == k {
    } else {
      SumOverWithout(m, s - {j}, k);
      SumOverWithout(m, s - {k}, j);
      assert s - {j} - {k} == s - {k} - {j};
    }
  }

  lemma {:induction false} SumOverAgrees(m: map<int, int>, n: map<int, int>, s: set<int>)
    requires s <= m.Keys && s <= n.Keys && forall k :: k in s ==> m[k] == n[k]
    ensures SumOver(m, s) == SumOver(n, s)
    decreases s
  {
    if s == {} {
    } else {
      var k := Some(s);
      SumOverWithout(m, s, k);
      SumOverWithout(n, s, k);
      SumOverAgrees(m, n, s - {k});
    }
  }

  lemma {:induction false} SumSplit(m: map<int, int>, s: set<int>, t: set<int>)
    requires s + t <= m.Keys && s !! t
    ensures SumOver(m, s + t) == SumOver(m, s) + SumOver(m, t)
    decreases t
  {
    if t == {} {
      assert s + t == s;
    } else {
      var k := Some(t);
      SumOverWithout(m, t, k);
      SumOverWithout(m, s + t, k);
      assert s + t - {k} == s + (t - {k});
      SumSplit(m, s, t - {k});
    }
  }

  lemma {:induction false} SumNotNegative(m: map<int, int>, s: set<int>)
    requires s <= m.Keys && forall k :: k in s ==> m[k] >= 0
    ensures SumOver(m, s) >= 0
    decreases s
  {
    if s == {} {
    } else {
      var k := Some(s);
      SumOverWithout(m, s, k);
      SumNotNegative(m, s - {k});
    }
  }

  lemma SumWith(m: map<int, int>, k: int, v: int)
    requires k !in m
    ensures Sum(m[k := v]) == Sum(m) + v
  {
    var n := m[k := v];
    SumOverWithout(n, n.Keys, k);
    assert n.Keys - {k} == m.Keys;
    SumOverAgrees(m, n, m.Keys);
  }

  lemma SumWithout(m: map<int, int>, k: int)
    requires k in m
    ensures Sum(m) == Sum(m - {k}) + m[k]
  {
    SumWith(m - {k}, k, m[k]);
    assert (m - {k})[k := m[k]] == m;
  }

  lemma {:induction false} Last(s: set<int>) returns (k: int)
    requires s != {}
    ensures k in s && forall j :: j in s ==> j <= k
    decreases s
  {
    k := Some(s);
    assert forall i :: i in s ==> i == k || i in s - {k};
    if s - {k} != {} {
      var j := Last(s - {k});
      k := if j > k then j else k;
    }
  }

  /** Intervals [k, k + m[k]) that do not overlap and lie in [lo, hi). */
  ghost predicate Packed(m: map<int, int>, lo: int, hi: int) {
    && (forall k :: k in m ==> lo <= k && m[k] >= 0 && k + m[k] <= hi)
    && (forall j, k :: j in m && k in m && j < k ==> j + m[j] <= k)
  }

  lemma {:induction false} PackedSum(m: map<int, int>, lo: int, hi: int)
    requires Packed(m, lo, hi) && lo <= hi
    ensures Sum(m) <= hi - lo
    decreases m.Keys
  {
    if m.Keys == {} {
    } else {
      var k := Last(m.Keys);
      SumWithout(m, k);
      assert (m - {k}).Keys < m.Keys;
      PackedSum(m - {k}, lo, k);
    }
  }
}
