/** The order of elements in sequences without repetition. */
module Orders {
  import opened Buckets

  /** x comes before y in s. */
  ghost predicate Before(s: seq<int>, x: int, y: int) {
    exists i, j :: 0 <= i < j < |s| && s[i] == x && s[j] == y
  }

  lemma BeforeCons(c: int, r: seq<int>, x: int, y: int)
    ensures Before([c] + r, x, y) <==> (x == c && y in r) || Before(r, x, y)
  {
    var s := [c] + r;
    if x == c && y in r {
      var j :| 0 <= j < |r| && r[j] == y;
      assert s[0] == x && s[j + 1] == y;
    } else if Before(r, x, y) {
      var i, j :| 0 <= i < j < |r| && r[i] == x && r[j] == y;
      assert s[i + 1] == x && s[j + 1] == y;
    }
    if Before(s, x, y) {
      var i, j :| 0 <= i < j < |s| && s[i] == x && s[j] == y;
      assert s[j] == r[j - 1];
      assert i > 0 ==> s[i] == r[i - 1];
    }
  }

  /** Deleting elements keeps the order of the others. */
  lemma {:induction false} KeepOrder(s: seq<int>, lo: int, hi: int, x: int, y: int)
    requires !(lo <= x < hi) && !(lo <= y < hi)
    ensures Before(KeepOutside(s, lo, hi), x, y) <==> Before(s, x, y)
    ensures y in KeepOutside(s, lo, hi) <==> y in s
  {
    if s == [] {
    } else {
      var c, r := s[0], s[1..];
      KeepOrder(r, lo, hi, x, y);
      assert s == [c] + r;
      BeforeCons(c, r, x, y);
      BeforeCons(c, KeepOutside(r, lo, hi), x, y);
    }
  }

  lemma {:induction false} WithoutIsKeep(s: seq<int>, x: int)
    requires Distinct(s)
    ensures Without(s, x) == KeepOutside(s, x, x + 1)
  {
    if s == [] {
    } else if s[0] == x {
      assert forall y :: y in s[1..] ==> y != x;
      KeepAll(s[1..], x, x + 1);
    } else {
      WithoutIsKeep(s[1..], x);
    }
  }

  lemma Inhabited(s: seq<int>)
    requires s != []
    ensures exists x :: x in s
  {
    var c: int := s[0];
    assert c in s;
  }

  lemma SameHead(s: seq<int>, t: seq<int>)
    requires s != [] && t != [] && Distinct(t) && t[0] in s && s[0] in t
    requires forall x, y :: x in s && y in s ==> (Before(s, x, y) <==> Before(t, x, y))
    ensures s[0] == t[0]
  {
    if s[0] != t[0] {
      var j :| 0 <= j < |s| && s[j] == t[0];
      assert Before(s, s[0], t[0]);
      var i, k :| 0 <= i < k < |t| && t[i] == s[0] && t[k] == t[0];
    }
  }

  /** Without repetition, members and order determine the sequence. */
  lemma {:induction false} OrderDetermines(s: seq<int>, t: seq<int>)
    requires Distinct(s) && Distinct(t)
    requires forall x :: x in s <==> x in t
    requires forall x, y :: x in s && y in s ==> (Before(s, x, y) <==> Before(t, x, y))
    ensures s == t
  {
    if s == [] {
      if t != [] {
        Inhabited(t);
      }
    } else {
      var c: int := s[0];
      assert c in s;
      assert c in t;
      var d: int := t[0];
      assert d in t;
      assert d in s;
      SameHead(s, t);
      var u, v := s[1..], t[1..];
      assert s == [s[0]] + u && t == [s[0]] + v;
      assert forall x :: x in s <==> x == s[0] || x in u;
      assert forall x :: x in t <==> x == s[0] || x in v;
      forall x, y | x in u && y in u ensures Before(u, x, y) <==> Before(v, x, y) {
        BeforeCons(s[0], u, x, y);
        BeforeCons(s[0], v, x, y);
      }
      OrderDetermines(u, v);
    }
  }
}
