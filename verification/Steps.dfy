/** Which heap each operation of mm.c leaves, down to the order inside the lists: laws that
    leave one heap only, over every heap that satisfies the invariant. */
module Steps {
  import opened Words
  import opened Buckets
  import opened Orders
  import opened Heaps
  import opened Laws

  // ---------- lists ----------

  /** In every list of g that holds x, x is the head; all its other elements were in that list
      of h, in the same order. */
  ghost predicate Pushed(h: Heap, g: Heap, x: int) {
    && |h.lists| == 32 && |g.lists| == 32
    && (forall k :: 0 <= k < 32 && x in g.lists[k] ==> g.lists[k][0] == x)
    && forall k, a, b {:trigger a in g.lists[k], b in g.lists[k]} ::
         0 <= k < 32 && a in g.lists[k] && b in g.lists[k] && a != x && b != x ==>
           a in h.lists[k] && b in h.lists[k] && (Before(g.lists[k], a, b) <==> Before(h.lists[k], a, b))
  }

  lemma HeadFirst(s: seq<int>, x: int, y: int)
    requires Distinct(s) && s != [] && s[0] == x && y in s
    ensures Before(s, x, y) <==> x != y
  {
    if x != y {
      var j :| 0 <= j < |s| && s[j] == y;
      assert s[0] == x;
    }
  }

  lemma NothingFirst(s: seq<int>, x: int, y: int)
    requires Distinct(s) && s != [] && s[0] == x
    ensures !Before(s, y, x)
  {
  }

  lemma PushedList(h: Heap, f: Heap, g: Heap, x: int, k: int)
    requires Inv(f) && Inv(g) && Pushed(h, f, x) && Pushed(h, g, x) && 0 <= k < 32
    requires forall a :: a in f.lists[k] <==> a in g.lists[k]
    ensures f.lists[k] == g.lists[k]
  {
    hide Tiled, Coalesced;
    var s, t := f.lists[k], g.lists[k];
    forall a, b | a in s && b in s ensures Before(s, a, b) <==> Before(t, a, b) {
      if a == x {
        HeadFirst(s, x, b);
        HeadFirst(t, x, b);
      } else if b == x {
        NothingFirst(s, x, a);
        NothingFirst(t, x, a);
      }
    }
    OrderDetermines(s, t);
  }

  /** Two heaps with the same live blocks and break whose lists come from h in this way are
      one heap. */
  lemma PushedDetermines(h: Heap, f: Heap, g: Heap, x: int)
    requires Inv(f) && Inv(g) && f.brk == g.brk && f.max == g.max && Live(f) == Live(g)
    requires Pushed(h, f, x) && Pushed(h, g, x)
    ensures f == g
  {
    Canonical(f, g);
    forall k | 0 <= k < 32 ensures f.lists[k] == g.lists[k] {
      PushedList(h, f, g, x, k);
    }
    assert f.lists == g.lists;
  }

  // ---------- mm_free ----------

  /** t is s without some elements, order kept. */
  ghost predicate Thinned(s: seq<int>, t: seq<int>) {
    forall x, y {:trigger x in t, y in t} ::
      x in t && y in t ==> x in s && y in s && (Before(t, x, y) <==> Before(s, x, y))
  }

  lemma SweptList(s: seq<int>, lo: int, hi: int)
    requires Distinct(s) && lo < hi
    ensures Thinned(s, KeepOutside(s, lo, hi)) && lo !in KeepOutside(s, lo, hi)
  {
    var t := KeepOutside(s, lo, hi);
    KeepMembers(s, lo, hi);
    forall x, y | x in t && y in t ensures x in s && y in s && (Before(t, x, y) <==> Before(s, x, y)) {
      KeepOrder(s, lo, hi, x, y);
    }
  }

  lemma PrependedList(s: seq<int>, t: seq<int>, c: int)
    requires Thinned(s, t)
    ensures var u := [c] + t;
      forall x, y :: x in u && y in u && x != c && y != c ==>
        x in s && y in s && (Before(u, x, y) <==> Before(s, x, y))
  {
    hide Before;
    var u := [c] + t;
    forall x, y | x in u && y in u && x != c && y != c
      ensures x in s && y in s && (Before(u, x, y) <==> Before(s, x, y))
    {
      BeforeCons(c, t, x, y);
    }
  }

  /** Merging pushes the merged block. */
  lemma MergePushes(h: Heap, b: int)
    requires Tiled(h) && IsFree(h, b) && Listed(h, {b})
    ensures Pushed(h, Merge(h, b), RunStart(h, b))
  {
    hide Tiled, RunStart, RunEnd, BucketOf, KeepOutside, Before;
    ListCount(h, {b});
    var g, lo, hi := Merge(h, b), RunStart(h, b), RunEnd(h, b);
    RunIsFree(h, b);
    BlockEnds(h, lo);
    BlockEnds(h, b);
    BrkAligned(h);
    forall k | 0 <= k < 32
      ensures lo in g.lists[k] ==> g.lists[k][0] == lo
      ensures forall x, y :: x in g.lists[k] && y in g.lists[k] && x != lo && y != lo ==>
        x in h.lists[k] && y in h.lists[k] && (Before(g.lists[k], x, y) <==> Before(h.lists[k], x, y))
    {
      SweptList(h.lists[k], lo, hi);
      PrependedList(h.lists[k], KeepOutside(h.lists[k], lo, hi), lo);
    }
  }

  lemma PushedSame(h: Heap, f: Heap, g: Heap, x: int)
    requires Pushed(f, g, x) && h.lists == f.lists
    ensures Pushed(h, g, x)
  {
  }

  /** What mm_free of b does: the block's free run is pushed. */
  ghost predicate FreeEffect(h: Heap, g: Heap, b: int, lo: int) {
    && Inv(g) && g.max == h.max && g.brk == h.brk && Live(g) == Live(h) - {b}
    && IsFree(g, lo) && lo <= b < lo + g.blocks[lo].size && Pushed(h, g, lo)
  }

  lemma FreeStepFrees(h: Heap, b: int) returns (lo: int)
    requires Inv(h) && IsLive(h, b)
    ensures FreeEffect(h, FreeStep(h, b), b, lo)
  {
    hide Tiled, Listed, Coalesced, Merge, RunStart, RunEnd, Pushed;
    FreedReady(h, b);
    FreeKeeps(h, b);
    var f := Freed(h, b);
    lo := RunStart(f, b);
    BlockEnds(f, b);
    MergeKeeps(f, b);
    MergePushes(f, b);
    PushedSame(h, f, FreeStep(h, b), lo);
  }

  ghost predicate FreeLeaves(h: Heap, g: Heap, b: int) {
    exists lo :: FreeEffect(h, g, b, lo)
  }

  lemma SameRunStart(f: Heap, g: Heap, b: int, x: int, y: int)
    requires Inv(f) && Inv(g) && f.brk == g.brk && Live(f) == Live(g)
    requires x in f.blocks && x <= b < x + f.blocks[x].size && y in g.blocks && y <= b < y + g.blocks[y].size
    ensures x == y
  {
    hide Tiled, Listed, Coalesced;
    Canonical(f, g);
    if x < y {
      Disjoint(f, x, y);
    } else if y < x {
      Disjoint(f, y, x);
    }
  }

  /** mm_free leaves the one heap that these laws allow. */
  lemma FreeExact(h: Heap, b: int, g: Heap)
    requires Inv(h) && IsLive(h, b)
    ensures g == FreeStep(h, b) <==> FreeLeaves(h, g, b)
  {
    hide Inv, FreeStep, Pushed;
    var lo := FreeStepFrees(h, b);
    if FreeLeaves(h, g, b) {
      var x :| FreeEffect(h, g, b, x);
      assert Live(g) == Live(FreeStep(h, b));
      SameRunStart(g, FreeStep(h, b), b, x, lo);
      PushedDetermines(h, g, FreeStep(h, b), lo);
    }
  }

  // ---------- find_fit ----------

  /** b is element i of list k, it fits, and nothing that find_fit looks at before it does. */
  ghost predicate AtFirst(h: Heap, size: int, b: int, k: int, i: int) {
    && 0 <= k < |h.lists| && 0 <= i < |h.lists[k]| && b == h.lists[k][i]
    && Fits(h, b, size) && BucketOf(size) <= k
    && (forall j :: 0 <= j < i ==> !Fits(h, h.lists[k][j], size))
    && forall m, x :: BucketOf(size) <= m < k && x in h.lists[m] ==> !Fits(h, x, size)
  }

  ghost predicate FirstThatFits(h: Heap, size: int, b: int) {
    exists k, i :: AtFirst(h, size, b, k, i)
  }

  lemma {:induction false} FirstFitAt(h: Heap, s: seq<int>, size: int) returns (i: nat)
    requires 0 !in h.blocks && (forall x :: x in s ==> IsFree(h, x)) && FirstFit(h, s, size) != 0
    ensures i < |s| && s[i] == FirstFit(h, s, size) && Fits(h, s[i], size)
    ensures forall j :: 0 <= j < i ==> !Fits(h, s[j], size)
  {
    var b: int := s[0];
    assert b in s;
    if size <= h.blocks[b].size {
      i := 0;
    } else {
      assert forall x :: x in s[1..] ==> x in s;
      var j := FirstFitAt(h, s[1..], size);
      i := j + 1;
    }
  }

  lemma NoNullBlock(h: Heap)
    requires Tiled(h)
    ensures 0 !in h.blocks
  {
    hide Tiled;
    if 0 in h.blocks {
      BlockEnds(h, 0);
    }
  }

  lemma {:induction false} FitFromAt(h: Heap, from: nat, size: int) returns (k: nat, i: nat)
    requires Inv(h) && FitFrom(h, from, size) != 0
    ensures from <= k < 32 && i < |h.lists[k]| && h.lists[k][i] == FitFrom(h, from, size)
    ensures Fits(h, h.lists[k][i], size) && forall j :: 0 <= j < i ==> !Fits(h, h.lists[k][j], size)
    ensures forall m, x :: from <= m < k && x in h.lists[m] ==> !Fits(h, x, size)
    decreases 32 - from
  {
    hide Tiled, Coalesced;
    NoNullBlock(h);
    if FirstFit(h, h.lists[from], size) != 0 {
      k := from;
      i := FirstFitAt(h, h.lists[k], size);
    } else {
      FirstFitFits(h, h.lists[from], size);
      k, i := FitFromAt(h, from + 1, size);
    }
  }

  lemma AtFirstOnce(h: Heap, size: int, b: int, k: int, i: int, c: int, l: int, j: int)
    requires AtFirst(h, size, b, k, i) && AtFirst(h, size, c, l, j)
    ensures b == c
  {
    assert b in h.lists[k] && c in h.lists[l];
  }

  lemma FoundAtFirst(h: Heap, size: int, k: nat, i: nat)
    requires Inv(h) && BucketOf(size) <= k < 32 && i < |h.lists[k]| && Fits(h, h.lists[k][i], size)
    requires forall j :: 0 <= j < i ==> !Fits(h, h.lists[k][j], size)
    requires forall m, x :: BucketOf(size) <= m < k && x in h.lists[m] ==> !Fits(h, x, size)
    ensures AtFirst(h, size, h.lists[k][i], k, i)
  {
    hide Tiled, Coalesced, Fits;
  }

  /** find_fit returns the first block that fits, in list order, from the size's own bucket on:
      it returns no other, and null exactly when no free block of the heap fits. */
  lemma FindFitFirst(h: Heap, size: int, b: int)
    requires Inv(h) && 0 < size
    ensures b == FindFit(h, size) <==>
      if exists x :: Fits(h, x, size) then FirstThatFits(h, size, b) else b == 0
  {
    hide Tiled, Listed, Coalesced, AtFirst, Fits;
    ListCount(h, {});
    FindFitExact(h, size);
    if FindFit(h, size) != 0 {
      var k, i := FitFromAt(h, BucketOf(size), size);
      FoundAtFirst(h, size, k, i);
      if FirstThatFits(h, size, b) {
        var l, j :| AtFirst(h, size, b, l, j);
        AtFirstOnce(h, size, b, l, j, FindFit(h, size), k, i);
      }
    }
  }

  // ---------- mm_malloc ----------

  /** What is cut from a space of c bytes for a block of size bytes. */
  function Taken(c: int, size: int): int {
    if c - size >= 32 then size else c
  }

  lemma UnlistThins(h: Heap, b: int)
    requires CanList(h, b) && forall k :: 0 <= k < 32 ==> Distinct(h.lists[k])
    ensures forall k :: 0 <= k < 32 ==> Thinned(h.lists[k], Unlist(h, b).lists[k])
  {
    hide BucketOf, Without, KeepOutside, Before;
    forall k | 0 <= k < 32 ensures Thinned(h.lists[k], Unlist(h, b).lists[k]) {
      if k == BucketOf(h.blocks[b].size) {
        WithoutIsKeep(h.lists[k], b);
        SweptList(h.lists[k], b, b + 1);
      }
    }
  }

  lemma EnlistPushes(h: Heap, g: Heap, x: int)
    requires CanList(g, x) && |h.lists| == 32 && forall k :: 0 <= k < 32 ==> Thinned(h.lists[k], g.lists[k])
    requires forall k :: 0 <= k < 32 ==> x !in g.lists[k]
    ensures Pushed(h, Enlist(g, x), x)
  {
    hide BucketOf, Before;
    var f := Enlist(g, x);
    PrependedList(h.lists[BucketOf(g.blocks[x].size)], g.lists[BucketOf(g.blocks[x].size)], x);
  }

  lemma ListsDistinct(h: Heap, skip: set<int>)
    requires Listed(h, skip)
    ensures forall k :: 0 <= k < 32 ==> Distinct(h.lists[k])
  {
  }

  lemma SkipUnlisted(h: Heap, skip: set<int>, x: int)
    requires Listed(h, skip) && x in skip
    ensures forall k :: 0 <= k < 32 ==> x !in h.lists[k]
  {
  }

  lemma EndUnlisted(h: Heap, g: Heap, b: int)
    requires Listed(g, {}) && IsFree(h, b) && Coalesced(h, {})
    requires g.blocks == h.blocks[b := Block(h.blocks[b].size, true)]
    ensures forall k :: 0 <= k < 32 ==> b + h.blocks[b].size !in g.lists[k]
  {
    assert !IsFree(g, b + h.blocks[b].size);
  }

  lemma ThinnedPushes(h: Heap, g: Heap, x: int)
    requires |h.lists| == |g.lists| == 32 && forall k :: 0 <= k < 32 ==> Thinned(h.lists[k], g.lists[k])
    requires forall k :: 0 <= k < 32 ==> x !in g.lists[k]
    ensures Pushed(h, g, x)
  {
    hide Before;
  }

  lemma PlacePushes(h: Heap, b: int, size: int)
    requires Inv(h) && IsFree(h, b) && MINBLOCK <= size <= h.blocks[b].size <= TWO31 && size % 8 == 0
    ensures |h.lists| == 32
    ensures var g := Place(h, b, size);
      && b in g.blocks && g.blocks[b].size == Taken(h.blocks[b].size, size)
      && Pushed(h, g, b + g.blocks[b].size)
  {
    hide Tiled, Listed, Coalesced, BucketOf, Without, Thinned, Pushed;
    ListCount(h, {});
    ListsDistinct(h, {});
    PlaceSplits(h, b, size);
    PlaceKeeps(h, b, size);
    var u := Unlist(h, b);
    var g := Split(u, b, size);
    UnlistThins(h, b);
    if h.blocks[b].size - size >= MINBLOCK {
      SkipUnlisted(g, {b + size}, b + size);
      EnlistPushes(h, g, b + size);
    } else {
      EndUnlisted(h, g, b);
      ThinnedPushes(h, g, b + h.blocks[b].size);
    }
  }

  lemma PushedTwice(h: Heap, f: Heap, g: Heap, x: int, y: int)
    requires Pushed(h, f, x) && Pushed(f, g, y) && forall k :: 0 <= k < 32 ==> x !in g.lists[k]
    ensures Pushed(h, g, y)
  {
    hide Before;
  }

  /** Where the space at the end of the heap begins: at a free last block, or at the break. */
  ghost predicate TailStart(h: Heap, b: int) {
    if IsFree(h, b) then b + h.blocks[b].size == h.brk
    else b == h.brk && forall x :: IsFree(h, x) ==> x + h.blocks[x].size != h.brk
  }

  lemma ExtendPushes(h: Heap, size: int)
    requires Inv(h) && size % 8 == 0 && MINBLOCK <= size && h.brk + size <= h.max
    ensures var x, lo := Extend(h, size), RunStart(Grown(h, size), h.brk);
      && lo in x.blocks && x.blocks[lo].size == h.brk + size - lo
      && TailStart(h, lo) && Pushed(h, x, lo)
  {
    hide Tiled, Listed, Coalesced, Merge, Pushed;
    GrownReady(h, size);
    BrkNoBlock(h);
    var g := Grown(h, size);
    BrkNoBlock(g);
    MergeKeeps(g, h.brk);
    MergePushes(g, h.brk);
    PushedSame(h, g, Extend(h, size), RunStart(g, h.brk));
    assert forall x :: IsFree(h, x) ==> IsFree(g, x) && g.blocks[x] == h.blocks[x];
    assert forall x :: IsFree(g, x) && x != h.brk ==> IsFree(h, x) && g.blocks[x] == h.blocks[x];
  }

  /** What a successful mm_malloc(n) does: one block is new, and the rest of its space, if any,
      is pushed. It is the first that fits, or lies at the end of the heap. */
  ghost predicate MallocEffect(h: Heap, n: int, g: Heap, p: int) {
    var b, s, grow := p - DSIZE, Need(n), Max(Need(n), CHUNKSIZE);
    && Inv(g) && g.max == h.max && b !in Live(h) && IsLive(g, b) && Live(g) == Live(h)[b := g.blocks[b].size]
    && Pushed(h, g, b + g.blocks[b].size)
    && if exists x :: Fits(h, x, s) then
         && FirstThatFits(h, s, b) && b in h.blocks && g.brk == h.brk
         && g.blocks[b].size == Taken(h.blocks[b].size, s)
       else
         TailStart(h, b) && g.brk == h.brk + grow && g.blocks[b].size == Taken(h.brk + grow - b, s)
  }

  lemma MallocUsesFit(h: Heap, n: int)
    requires Inv(h) && Request(n) && 0 < n && exists x :: Fits(h, x, Need(n))
    ensures MallocEffect(h, n, Malloc(h, n).0, Malloc(h, n).1)
  {
    hide Inv, Malloc, Place, FindFit, Pushed, FirstThatFits;
    var s := Need(n);
    FindFitExact(h, s);
    MallocFits(h, n);
    var b := FindFit(h, s);
    FindFitFirst(h, s, b);
    PlacePushes(h, b, s);
    PlaceFor(h, b, n);
  }

  lemma MallocGrows(h: Heap, n: int)
    requires Inv(h) && Request(n) && 0 < n && |h.lists| == 32 && FindFit(h, Need(n)) == 0
    requires h.brk + Max(Need(n), CHUNKSIZE) <= h.max
    ensures var grow := Max(Need(n), CHUNKSIZE);
      && grow % 8 == 0 && MINBLOCK <= grow
      && var x, b := Extend(h, grow), RunStart(Grown(h, grow), h.brk);
      && |x.lists| == 32 && b in x.blocks && Need(n) <= x.blocks[b].size <= TWO31
      && Malloc(h, n) == (Place(x, b, Need(n)), b + DSIZE)
  {
    hide Inv, Place, FindFit, Extend, Grown, RunStart, Allocates;
    GrowthSize(n);
    MallocByGrowing(h, n);
  }

  lemma AllocatesParts(h: Heap, g: Heap, p: int, n: int)
    requires Allocates(h, g, p, n)
    ensures var b := p - DSIZE;
      Inv(g) && g.max == h.max && b !in Live(h) && IsLive(g, b) && Live(g) == Live(h)[b := g.blocks[b].size]
  {
  }

  lemma LiveUnlisted(g: Heap, b: int)
    requires Inv(g) && IsLive(g, b)
    ensures forall k :: 0 <= k < 32 ==> b !in g.lists[k]
  {
    hide Tiled, Coalesced;
  }

  lemma InvParts(h: Heap)
    requires Inv(h)
    ensures Tiled(h) && |h.lists| == 32
  {
  }

  lemma MallocUsesTail(h: Heap, n: int)
    requires Inv(h) && Request(n) && 0 < n && !exists x :: Fits(h, x, Need(n))
    requires h.brk + Max(Need(n), CHUNKSIZE) <= h.max
    ensures MallocEffect(h, n, Malloc(h, n).0, Malloc(h, n).1)
  {
    hide Inv, Malloc, Place, FindFit, Extend, Grown, RunStart, Pushed, Allocates, TailStart;
    InvParts(h);
    var s, grow := Need(n), Max(Need(n), CHUNKSIZE);
    FindFitExact(h, s);
    GrowthSize(n);
    ExtendPushes(h, grow);
    ExtendKeeps(h, grow);
    MallocByGrowing(h, n);
    MallocGrows(h, n);
    var x, b := Extend(h, grow), RunStart(Grown(h, grow), h.brk);
    PlacePushes(x, b, s);
    AllocatesParts(h, Malloc(h, n).0, Malloc(h, n).1, n);
    LiveUnlisted(Malloc(h, n).0, b);
    PushedTwice(h, x, Malloc(h, n).0, b, b + Taken(x.blocks[b].size, s));
  }

  lemma TailStartOnce(h: Heap, b: int, c: int)
    requires Tiled(h) && TailStart(h, b) && TailStart(h, c)
    ensures b == c
  {
    hide Tiled;
    if IsFree(h, b) && IsFree(h, c) && b != c {
      BlockEnds(h, b);
      BlockEnds(h, c);
      Disjoint(h, b, c);
      Disjoint(h, c, b);
    }
  }

  lemma MallocEffectOnce(h: Heap, n: int, f: Heap, p: int, g: Heap, q: int)
    requires Inv(h) && MallocEffect(h, n, f, p) && MallocEffect(h, n, g, q)
    ensures f == g && p == q
  {
    hide Inv, AtFirst, Fits, TailStart, Pushed, Need;
    if exists x :: Fits(h, x, Need(n)) {
      var k, i :| AtFirst(h, Need(n), p - DSIZE, k, i);
      var l, j :| AtFirst(h, Need(n), q - DSIZE, l, j);
      AtFirstOnce(h, Need(n), p - DSIZE, k, i, q - DSIZE, l, j);
    } else {
      InvParts(h);
      TailStartOnce(h, p - DSIZE, q - DSIZE);
    }
    PushedDetermines(h, f, g, p - DSIZE + f.blocks[p - DSIZE].size);
  }

  /** mm_malloc answers as these laws say and in no other way. */
  lemma MallocExact(h: Heap, n: int, g: Heap, p: int)
    requires Inv(h) && Request(n)
    ensures (g, p) == Malloc(h, n) <==>
      if n == 0 || (h.brk + Max(Need(n), CHUNKSIZE) > h.max && !exists x :: Fits(h, x, Need(n)))
      then g == h && p == 0
      else MallocEffect(h, n, g, p)
  {
    hide Inv, Malloc, MallocEffect, Fits, FindFit, Allocates;
    if n == 0 || (h.brk + Max(Need(n), CHUNKSIZE) > h.max && !exists x :: Fits(h, x, Need(n))) {
      FindFitExact(h, Need(n));
      MallocCases(h, n);
    } else {
      if exists x :: Fits(h, x, Need(n)) {
        MallocUsesFit(h, n);
      } else {
        MallocUsesTail(h, n);
      }
      if MallocEffect(h, n, g, p) {
        MallocEffectOnce(h, n, g, p, Malloc(h, n).0, Malloc(h, n).1);
      }
    }
  }

  // ---------- mm_realloc ----------

  /** When mm_realloc finds its blocks: with a null pointer or size 0 always, otherwise exactly
      when something fits or the break has room. */
  lemma CanReallocExact(h: Heap, ptr: int, n: int)
    requires Inv(h) && Request(n)
    ensures CanRealloc(h, ptr, n) <==>
      ptr == 0 || (IsLive(h, ptr - DSIZE)
                   && (n == 0 || (exists x :: Fits(h, x, Need(n))) || h.brk + Max(Need(n), CHUNKSIZE) <= h.max))
  {
    hide Inv, Malloc, Fits;
    MallocOutcome(h, n);
  }

  /** mm_realloc of a live block to a positive size returns what mm_malloc of that size
      returns, and moves the break exactly when mm_malloc does. */
  lemma ReallocOutcome(h: Heap, ptr: int, n: int)
    requires Inv(h) && Request(n) && CanRealloc(h, ptr, n) && ptr != 0 && n > 0
    ensures var (f, p) := Realloc(h, ptr, n);
      && p == Malloc(h, n).1
      && f.brk == if exists x :: Fits(h, x, Need(n)) then h.brk else h.brk + Max(Need(n), CHUNKSIZE)
  {
    hide Inv, Malloc, FreeStep, Fits;
    MallocOutcome(h, n);
    ReallocReady(h, ptr, n);
    FreeKeeps(Malloc(h, n).0, ptr - DSIZE);
  }

  /** What mm_realloc of a live block to a positive size does: a malloc step and then a free
      step of the old block. */
  ghost predicate ReallocEffect(h: Heap, ptr: int, n: int, f: Heap, p: int) {
    exists g :: MallocEffect(h, n, g, p) && FreeLeaves(g, f, ptr - DSIZE)
  }

  lemma MoveExact(h: Heap, ptr: int, n: int, f: Heap, p: int)
    requires Inv(h) && Request(n) && CanRealloc(h, ptr, n) && ptr != 0 && n > 0
    ensures (f, p) == Realloc(h, ptr, n) <==> ReallocEffect(h, ptr, n, f, p)
  {
    hide Inv, Malloc, FreeStep, MallocEffect, FreeLeaves, Fits;
    ReallocReady(h, ptr, n);
    var (g, q) := Malloc(h, n);
    MallocExact(h, n, g, q);
    MallocOutcome(h, n);
    FreeExact(g, ptr - DSIZE, f);
    if ReallocEffect(h, ptr, n, f, p) {
      var e :| MallocEffect(h, n, e, p) && FreeLeaves(e, f, ptr - DSIZE);
      MallocExact(h, n, e, p);
    }
  }

  /** mm_realloc leaves the one heap and answer that these laws allow: with a null pointer it
      is mm_malloc, with size 0 it is mm_free and null. */
  lemma ReallocExact(h: Heap, ptr: int, n: int, f: Heap, p: int)
    requires Inv(h) && Request(n) && CanRealloc(h, ptr, n)
    ensures (f, p) == Realloc(h, ptr, n) <==>
      if ptr == 0 then (f, p) == Malloc(h, n)
      else if n == 0 then p == 0 && FreeLeaves(h, f, ptr - DSIZE)
      else ReallocEffect(h, ptr, n, f, p)
  {
    hide Inv, Malloc, FreeStep, MallocEffect, FreeLeaves, Fits;
    if ptr != 0 && n == 0 {
      FreeExact(h, ptr - DSIZE, f);
    } else if ptr != 0 {
      MoveExact(h, ptr, n, f, p);
    }
  }
}
