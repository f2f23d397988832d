/** What the two bucket operations do to one doubly linked list. */
module Links {
  import opened Words
  import opened Buckets
  import opened MemLib
  import opened Layout

  /** Both link words of a node lie in the buffer, behind the bucket words. */
  ghost predicate LinkWords(m: seq<Word>, x: int) {
    136 < x && x % 4 == 0 && (x + 4) % 4 == 0 && x + 8 <= 4 * |m|
  }

  /** What the link words of element i hold, and where it and its neighbours lie. */
  lemma ChainAt(m: seq<Word>, q: int, s: seq<int>, i: nat)
    requires Chain(m, q, s) && Nodes(m, s) && i < |s| && 0 <= q < 128
    ensures Load(m, s[i]) == if i + 1 < |s| then s[i + 1] else 0
    ensures Load(m, s[i] + 4) == if i > 0 then s[i - 1] else 0
    ensures Load(m, q) == s[0]
    ensures i > 0 ==> s[0] != s[i]
    ensures forall j :: 0 <= j < |s| ==> LinkWords(m, s[j])
    ensures 0 < i < |s| - 1 ==> s[i - 1] != s[i + 1] + 4
  {
    hide Load, NodeAt;
    NodesApart(m, s, s);
    forall j | 0 <= j < |s| ensures LinkWords(m, s[j]) {
      assert s[j] in s;
    }
    if 0 < i < |s| - 1 {
      assert s[i - 1] in s && s[i + 1] in s;
    }
  }

  /** The words that prepending x writes: its links, the old head's back link and the
      bucket word. */
  ghost predicate Prepends(m: seq<Word>, n: seq<Word>, q: int, x: int, s: seq<int>) {
    && |n| == |m|
    && Load(n, q) == x && Load(n, x + 4) == 0
    && Load(n, x) == (if s == [] then 0 else s[0])
    && (s != [] ==> Load(n, s[0] + 4) == x)
    && forall a {:trigger Load(n, a)} :: a != q && a != x && a != x + 4 && (s != [] ==> a != s[0] + 4) ==>
         Load(n, a) == Load(m, a)
  }

  lemma PrependEnds(m: seq<Word>, n: seq<Word>, q: int, x: int, s: seq<int>)
    requires 0 <= q < 128 && Chain(m, q, s) && Nodes(m, [x] + s) && Prepends(m, n, q, x, s)
    ensures Load(n, q) == x && Load(n, x + 4) == 0 && Load(n, ([x] + s)[|s|]) == 0
    ensures Relinks(m, n, q, [x] + s)
  {
    hide Load, NodeAt;
    var t := [x] + s;
    NodesApart(m, t, t);
    assert x in t;
    if s != [] {
      assert t[|s|] == s[|s| - 1] && t[|s|] in t && t[1] == s[0] && t[1] in t && t[0] == x;
    }
  }

  lemma PrependStep(m: seq<Word>, n: seq<Word>, q: int, x: int, s: seq<int>, i: nat)
    requires 0 <= q < 128 && Chain(m, q, s) && Nodes(m, [x] + s) && Prepends(m, n, q, x, s) && i < |s|
    ensures Load(n, ([x] + s)[i]) == s[i] && Load(n, s[i] + 4) == ([x] + s)[i]
  {
    hide Load, NodeAt;
    var t := [x] + s;
    if i > 0 {
      NodesApart(m, t, t);
      assert t[0] == x && t[1] == s[0] && t[i] == s[i - 1] && t[i + 1] == s[i];
      assert t[0] in t && t[1] in t && t[i] in t && t[i + 1] in t;
      assert Load(m, s[i - 1]) == s[i] && Load(m, s[i] + 4) == s[i - 1];
    }
  }

  lemma PrependChain(m: seq<Word>, n: seq<Word>, q: int, x: int, s: seq<int>)
    requires 0 <= q < 128 && Chain(m, q, s) && Nodes(m, [x] + s) && Prepends(m, n, q, x, s)
    ensures Chain(n, q, [x] + s) && Relinks(m, n, q, [x] + s)
  {
    hide Load, Nodes, Prepends, Relinks;
    var t := [x] + s;
    PrependEnds(m, n, q, x, s);
    forall i, j | 0 <= i < |t| && 0 <= j < |t| && j == i + 1
      ensures Load(n, t[i]) == t[j] && Load(n, t[j] + 4) == t[i]
    {
      PrependStep(m, n, q, x, s, i);
      assert t[j] == s[i];
    }
    assert t[0] == x;
  }

  /** The words that unlinking element i writes: the predecessor's next (or the bucket
      word) and the successor's previous, if there is one. */
  ghost predicate Unlinks(m: seq<Word>, n: seq<Word>, q: int, s: seq<int>, i: nat)
    requires i < |s|
  {
    var prev := if i == 0 then q else s[i - 1];
    && |n| == |m|
    && Load(n, prev) == (if i + 1 < |s| then s[i + 1] else 0)
    && (i + 1 < |s| ==> Load(n, s[i + 1] + 4) == (if i == 0 then 0 else s[i - 1]))
    && forall a {:trigger Load(n, a)} :: a != prev && (i + 1 < |s| ==> a != s[i + 1] + 4) ==> Load(n, a) == Load(m, a)
  }

  lemma UnlinkSame(m: seq<Word>, n: seq<Word>, q: int, s: seq<int>, i: nat, j: nat)
    requires 0 <= q < 128 && Nodes(m, s) && i < |s| && j < |s| && Unlinks(m, n, q, s, i)
    ensures j + 1 != i ==> Load(n, s[j]) == Load(m, s[j])
    ensures j != i + 1 ==> Load(n, s[j] + 4) == Load(m, s[j] + 4)
  {
    hide Load, NodeAt;
    NodesApart(m, s, s);
    assert s[j] in s && (i > 0 ==> s[i - 1] in s) && (i + 1 < |s| ==> s[i + 1] in s);
  }

  lemma UnlinkEnds(m: seq<Word>, n: seq<Word>, q: int, s: seq<int>, i: nat)
    requires 0 <= q < 128 && Chain(m, q, s) && Nodes(m, s) && i < |s| && Unlinks(m, n, q, s, i)
    ensures 0 < i < |s| - 1 ==> Load(n, s[i - 1]) == s[i + 1] && Load(n, s[i + 1] + 4) == s[i - 1]
    ensures Load(n, q) == if i > 0 then s[0] else if |s| > 1 then s[1] else 0
    ensures i > 0 ==> Load(n, s[0] + 4) == 0
    ensures i == 0 && |s| > 1 ==> Load(n, s[1] + 4) == 0
    ensures i < |s| - 1 ==> Load(n, s[|s| - 1]) == 0
    ensures i == |s| - 1 && i > 0 ==> Load(n, s[i - 1]) == 0
    ensures Relinks(m, n, q, s)
  {
    hide Load, NodeAt;
    UnlinkSame(m, n, q, s, i, 0);
    UnlinkSame(m, n, q, s, i, |s| - 1);
    ChainAt(m, q, s, i);
    assert (i > 0 ==> s[i - 1] in s) && (i + 1 < |s| ==> s[i + 1] in s);
  }

  lemma UnlinkPieces(m: seq<Word>, n: seq<Word>, q: int, s: seq<int>, i: nat)
    requires 0 <= q < 128 && Chain(m, q, s) && Nodes(m, s) && i < |s| && Unlinks(m, n, q, s, i)
    ensures Chain(n, q, s[..i] + s[i + 1..]) && Relinks(m, n, q, s)
  {
    hide Load, Nodes, Unlinks, Relinks;
    var t := s[..i] + s[i + 1..];
    UnlinkEnds(m, n, q, s, i);
    forall a, b | 0 <= a < |t| && 0 <= b < |t| && b == a + 1
      ensures Load(n, t[a]) == t[b] && Load(n, t[b] + 4) == t[a]
    {
      if b != i {
        var a', b' := if a < i then a else a + 1, if b < i then b else b + 1;
        assert t[a] == s[a'] && t[b] == s[b'] && b' == a' + 1;
        UnlinkSame(m, n, q, s, i, a');
        UnlinkSame(m, n, q, s, i, b');
      }
    }
  }

  /** Unlinking element i leaves the list without it, in order. */
  lemma UnlinkChain(m: seq<Word>, n: seq<Word>, q: int, s: seq<int>, i: nat)
    requires 0 <= q < 128 && Chain(m, q, s) && Nodes(m, s) && i < |s| && Unlinks(m, n, q, s, i)
    ensures Chain(n, q, Without(s, s[i])) && Relinks(m, n, q, s)
  {
    hide Load, Chain, Unlinks, Relinks, Without, NodeAt;
    UnlinkPieces(m, n, q, s, i);
    WithoutAt(s, i);
  }
}
