/** mdriver.c's range list: a singly linked list with the extent of every live payload. */
module Ranges {

  datatype Range = Range(lo: int, hi: int)

  class RangeNode {
    var lo: int
    var hi: int
    var next: RangeNode?

    constructor (lo: int, hi: int, next: RangeNode?)
      ensures this.lo == lo && this.hi == hi && this.next == next
    {
      this.lo, this.hi, this.next := lo, hi, next;
    }
  }

  /** The test add_range makes against one earlier range: an endpoint of the new one in it. */
  predicate EndpointIn(r: Range, lo: int, hi: int) {
    r.lo <= lo <= r.hi || r.lo <= hi <= r.hi
  }

  /** What add_range asks of a new range. */
  ghost predicate Acceptable(rs: seq<Range>, lo: int, hi: int, brk: int) {
    && lo % 8 == 0
    && 0 <= lo <= brk - 1 && 0 <= hi <= brk - 1
    && forall r :: r in rs ==> !EndpointIn(r, lo, hi)
  }

  predicate Overlaps(r: Range, lo: int, hi: int) {
    lo <= r.hi && r.lo <= hi
  }

  /** The test is not a disjointness test: it lets through exactly the overlaps in which the
      new range reaches past the old one on both sides. */
  lemma MissedOverlap(r: Range, lo: int, hi: int)
    requires r.lo <= r.hi && lo <= hi
    ensures Overlaps(r, lo, hi) && !EndpointIn(r, lo, hi) <==> lo < r.lo && r.hi < hi
    ensures EndpointIn(r, lo, hi) ==> Overlaps(r, lo, hi)
  {
  }

  lemma MissedOverlapExample()
    ensures Acceptable([Range(160, 167)], 152, 175, 4240) && Overlaps(Range(160, 167), 152, 175)
  {
  }

  /** The list without its first range that starts at lo. */
  function Drop(rs: seq<Range>, lo: int): seq<Range> {
    if rs == [] then []
    else if rs[0].lo == lo then rs[1..]
    else [rs[0]] + Drop(rs[1..], lo)
  }

  lemma {:induction false} DropAbsent(rs: seq<Range>, lo: int)
    requires forall i :: 0 <= i < |rs| ==> rs[i].lo != lo
    ensures Drop(rs, lo) == rs
  {
    if rs == [] {
    } else {
      DropAbsent(rs[1..], lo);
    }
  }

  lemma {:induction false} DropAt(rs: seq<Range>, lo: int, k: nat)
    requires k < |rs| && rs[k].lo == lo && forall i :: 0 <= i < k ==> rs[i].lo != lo
    ensures Drop(rs, lo) == rs[..k] + rs[k + 1..]
  {
    if k == 0 {
    } else {
      DropAt(rs[1..], lo, k - 1);
    }
  }

  class RangeList {
    var head: RangeNode?
    /** The nodes in list order, and what they hold. */
    ghost var spine: seq<RangeNode>
    ghost var contents: seq<Range>

    ghost predicate Valid()
      reads this, spine
    {
      && |contents| == |spine|
      && (forall i :: 0 <= i < |spine| ==> contents[i] == Range(spine[i].lo, spine[i].hi))
      && (spine == [] ==> head == null)
      && (spine != [] ==> head == spine[0] && spine[|spine| - 1].next == null)
      && (forall i, j :: 0 <= i < |spine| && 0 <= j < |spine| && j == i + 1 ==> spine[i].next == spine[j])
      && (forall i, j :: 0 <= i < j < |spine| ==> spine[i] != spine[j])
    }

    constructor ()
      ensures Valid() && contents == [] && spine == []
    {
      head := null;
      spine := [];
      contents := [];
    }

    /** add_range: accepts and prepends the range, or changes nothing. */
    method AddRange(lo: int, size: int, brk: int) returns (ok: bool)
      requires Valid() && size > 0
      modifies this
      ensures Valid() && ok == Acceptable(old(contents), lo, lo + size - 1, brk)
      ensures ok <==> lo % 8 == 0 && 0 <= lo && lo + size <= brk
                      && forall r :: r in old(contents) ==> !EndpointIn(r, lo, lo + size - 1)
      ensures contents == if ok then [Range(lo, lo + size - 1)] + old(contents) else old(contents)
      ensures forall x :: x in spine ==> x in old(spine) || fresh(x)
    {
      var hi := lo + size - 1;
      if lo % 8 != 0 {
        return false;
      }
      if lo < 0 || lo > brk - 1 || hi < 0 || hi > brk - 1 {
        return false;
      }
      var p := head;
      ghost var i := 0;
      while p != null
        invariant 0 <= i <= |spine| && p == if i < |spine| then spine[i] else null
        invariant forall j :: 0 <= j < i ==> !EndpointIn(contents[j], lo, hi)
        decreases |spine| - i
      {
        if (lo >= p.lo && lo <= p.hi) || (hi >= p.lo && hi <= p.hi) {
          assert contents[i] in contents && EndpointIn(contents[i], lo, hi);
          return false;
        }
        p := p.next;
        i := i + 1;
      }
      var node := new RangeNode(lo, hi, head);
      spine := [node] + spine;
      contents := [Range(lo, hi)] + contents;
      head := node;
      return true;
    }

    /** The assignment through prevpp: node i leaves the list. */
    method Unlink(prev: RangeNode?, p: RangeNode, ghost i: nat)
      requires Valid() && i < |spine| && p == spine[i] && prev == if i > 0 then spine[i - 1] else null
      modifies this, spine
      ensures Valid() && spine == old(spine[..i] + spine[i + 1..]) && contents == old(contents[..i] + contents[i + 1..])
    {
      ghost var s := spine;
      if prev == null {
        head := p.next;
      } else {
        prev.next := p.next;
      }
      spine := s[..i] + s[i + 1..];
      contents := contents[..i] + contents[i + 1..];
      forall a, b | 0 <= a < |spine| && 0 <= b < |spine| && b == a + 1 ensures spine[a].next == spine[b] {
        if a + 1 != i {
          var a', b' := if a < i then a else a + 1, if b < i then b else b + 1;
          assert spine[a] == s[a'] && spine[b] == s[b'] && b' == a' + 1;
        }
      }
    }

    /** remove_range: unlinks the first node that starts at lo, if there is one. */
    method RemoveRange(lo: int)
      requires Valid()
      modifies this, spine
      ensures Valid() && contents == Drop(old(contents), lo)
      ensures forall x :: x in spine ==> x in old(spine)
    {
      var p := head;
      var prev: RangeNode? := null;
      ghost var i := 0;
      while p != null
        invariant Valid() && spine == old(spine) && contents == old(contents)
        invariant 0 <= i <= |spine| && p == if i < |spine| then spine[i] else null
        invariant prev == if i > 0 then spine[i - 1] else null
        invariant forall j :: 0 <= j < i ==> contents[j].lo != lo
        decreases |spine| - i
      {
        if p.lo == lo {
          DropAt(contents, lo, i);
          Unlink(prev, p, i);
          return;
        }
        prev := p;
        p := p.next;
        i := i + 1;
      }
      DropAbsent(contents, lo);
    }

    /** clear_ranges */
    method ClearRanges()
      requires Valid()
      modifies this
      ensures Valid() && contents == [] && spine == []
    {
      var p := head;
      ghost var i := 0;
      while p != null
        invariant Valid() && spine == old(spine) && 0 <= i <= |spine|
        invariant p == if i < |spine| then spine[i] else null
        decreases |spine| - i
      {
        p := p.next;
        i := i + 1;
      }
      head := null;
      spine := [];
      contents := [];
    }
  }
}
