/** What the allocator's steps promise, over every heap that satisfies the invariant. */
module Laws {
  import opened Words
  import opened Buckets
  import opened Heaps
  import opened Sums

  // ---------- which block, and when none ----------

  ghost predicate Fits(h: Heap, x: int, size: int) {
    IsFree(h, x) && size <= h.blocks[x].size
  }

  /** A block that fits lies in bucket j or above, where j is where the search stopped. */
  lemma FitBucket(h: Heap, x: int, size: int, j: nat)
    requires Tiled(h) && Fits(h, x, size) && 0 < size
    requires forall y :: IsFree(h, y) && BucketOf(size) <= BucketOf(h.blocks[y].size) < j ==> h.blocks[y].size < size
    ensures j <= BucketOf(h.blocks[x].size) < 32 && 32 <= h.blocks[x].size
  {
    BucketMonotone(size, h.blocks[x].size);
    assert BlockOk(h, x);
  }

  /** A size in a bucket that is not above another's is less than twice the other. */
  lemma BucketRatio(a: int, b: int)
    requires 1 < b && 0 < a && BucketOf(a) <= BucketOf(b)
    ensures a < 2 * b
  {
  }

  /** The bucket search agrees with a scan of the whole heap: it fails exactly when no free
      block is large enough, and what it finds is less than twice any block that fits. */
  lemma FindFitExact(h: Heap, size: int)
    requires Inv(h) && 0 < size
    ensures FindFit(h, size) == 0 <==> forall x :: !Fits(h, x, size)
    ensures FindFit(h, size) != 0 ==>
      Fits(h, FindFit(h, size), size) &&
      forall x :: Fits(h, x, size) ==> h.blocks[FindFit(h, size)].size < 2 * h.blocks[x].size
  {
    hide Tiled, Coalesced;
    var b := FindFit(h, size);
    var j := FitFromFits(h, BucketOf(size), size);
    forall x | Fits(h, x, size)
      ensures b != 0 && h.blocks[b].size < 2 * h.blocks[x].size
    {
      FitBucket(h, x, size, j);
      BucketRatio(h.blocks[b].size, h.blocks[x].size);
    }
  }

  /** mm_malloc(n) returns null exactly when n is 0, or nothing fits and the break has no
      room; the break moves only when nothing fits, by max(ALIGN(n + 32), 4096). */
  lemma MallocOutcome(h: Heap, n: int)
    requires Inv(h) && Request(n)
    ensures var (g, p) := Malloc(h, n);
      var fits, grow := exists x :: Fits(h, x, Need(n)), Max(Need(n), CHUNKSIZE);
      && (p == 0 <==> n == 0 || (!fits && h.brk + grow > h.max))
      && g.brk == (if n == 0 || fits || h.brk + grow > h.max then h.brk else h.brk + grow)
  {
    hide Inv, Malloc, FindFit, Allocates;
    FindFitExact(h, Need(n));
    MallocCases(h, n);
  }

  /** Where n payload bytes at p lie: 8-aligned, in the heap, behind the two link words and
      at least 16 bytes before the footer, in a live block of at most n + 63 bytes. */
  ghost predicate WellPlaced(g: Heap, p: int, n: int) {
    var b := p - DSIZE;
    && IsLive(g, b) && p % 8 == 0 && FIRST + DSIZE <= p
    && n + 32 <= g.blocks[b].size <= n + 63
    && p + n <= (b + g.blocks[b].size - 8) - 16
    && b + g.blocks[b].size <= g.brk <= g.max
  }

  lemma PlacementBounds(h: Heap, n: int)
    requires Inv(h) && Request(n) && Malloc(h, n).1 != 0
    ensures WellPlaced(Malloc(h, n).0, Malloc(h, n).1, n)
  {
    hide Malloc, Listed, Coalesced;
    MallocKeeps(h, n);
    var (g, p) := Malloc(h, n);
    assert BlockOk(g, p - DSIZE);
  }

  /** Payloads of different live blocks do not overlap. */
  lemma PayloadsApart(h: Heap, b: int, c: int, m: int, n: int)
    requires Inv(h) && IsLive(h, b) && IsLive(h, c) && b != c
    requires 0 < m && m + 32 <= h.blocks[b].size && 0 < n && n + 32 <= h.blocks[c].size
    ensures b + DSIZE + m <= c + DSIZE || c + DSIZE + n <= b + DSIZE
  {
  }

  /** The copy of mm_realloc runs past the buffer exactly when the old block is the last one,
      the break stands at the buffer's end, and the request is above the block's size less 8. */
  lemma CopyLeavesBuffer(h: Heap, ptr: int, n: int)
    requires Inv(h) && h.max % 8 == 0 && IsLive(h, ptr - DSIZE) && 0 <= n
    ensures var size := h.blocks[ptr - DSIZE].size;
      !CopyInside(h, ptr, n) <==> ptr - DSIZE + size == h.brk == h.max && n > size - 8
  {
    hide Listed, Coalesced;
    var b := ptr - DSIZE;
    assert BlockOk(h, b);
    SumOf8(b, h.blocks[b].size);
    SumOf8(h.max, b + h.blocks[b].size);
  }

  // ---------- the heap is a function of what is live ----------

  lemma FreeStartShared(g: Heap, h: Heap, b: int)
    requires Inv(g) && Inv(h) && g.brk == h.brk && Live(g) == Live(h) && IsFree(g, b)
    ensures IsFree(h, b)
  {
    hide Listed;
    assert BlockOk(g, b);
    if b != FIRST {
      var p := BlockBefore(g, FIRST, b);
      assert p in Live(g);
      assert p in Live(h) && Live(h)[p] == Live(g)[p];
      assert NextOk(h, p);
    }
    assert b in h.blocks;
    assert b !in Live(g);
  }

  lemma FreeEndBelow(g: Heap, h: Heap, b: int)
    requires Inv(g) && Inv(h) && g.brk == h.brk && Live(g) == Live(h) && IsFree(g, b) && IsFree(h, b)
    ensures h.blocks[b].size <= g.blocks[b].size
  {
    hide Listed;
    var e := b + g.blocks[b].size;
    assert NextOk(g, b) && BlockOk(h, b);
    if e in g.blocks {
      assert !IsFree(g, e);
      assert e in Live(g);
      assert e in Live(h);
    }
  }

  /** A free block starts where a live block (or the prologue) ends and ends where one (or
      the epilogue) starts, so two heaps with the same live blocks share it. */
  lemma FreeBlockShared(g: Heap, h: Heap, b: int)
    requires Inv(g) && Inv(h) && g.brk == h.brk && Live(g) == Live(h) && IsFree(g, b)
    ensures b in h.blocks && h.blocks[b] == g.blocks[b]
  {
    hide Listed, Tiled;
    FreeStartShared(g, h, b);
    FreeEndBelow(g, h, b);
    FreeEndBelow(h, g, b);
  }

  lemma BlockShared(g: Heap, h: Heap, b: int)
    requires Inv(g) && Inv(h) && g.brk == h.brk && Live(g) == Live(h) && b in g.blocks
    ensures b in h.blocks && h.blocks[b] == g.blocks[b]
  {
    hide Inv;
    if IsFree(g, b) {
      FreeBlockShared(g, h, b);
    } else {
      assert b in Live(g) && Live(g)[b] == Live(h)[b];
    }
  }

  /** Blocks and bucket contents depend only on the live blocks and the break. */
  lemma Canonical(g: Heap, h: Heap)
    requires Inv(g) && Inv(h) && g.brk == h.brk && Live(g) == Live(h)
    ensures g.blocks == h.blocks
    ensures forall k, x :: 0 <= k < 32 ==> (x in g.lists[k] <==> x in h.lists[k])
  {
    hide Tiled, Coalesced;
    forall b | b in g.blocks ensures b in h.blocks && h.blocks[b] == g.blocks[b] {
      BlockShared(g, h, b);
    }
    forall b | b in h.blocks ensures b in g.blocks {
      BlockShared(h, g, b);
    }
  }

  /** Same tiling and same bucket contents; only the order inside a list may differ. */
  ghost predicate Alike(g: Heap, h: Heap) {
    && g.brk == h.brk && g.blocks == h.blocks && |g.lists| == |h.lists| == 32
    && forall k, x :: 0 <= k < 32 ==> (x in g.lists[k] <==> x in h.lists[k])
  }

  lemma CanonicalAlike(g: Heap, h: Heap)
    requires Inv(g) && Inv(h) && g.brk == h.brk && Live(g) == Live(h)
    ensures Alike(g, h)
  {
    Canonical(g, h);
  }

  // ---------- frees ----------

  function ToSet(bs: seq<int>): set<int> {
    set b | b in bs
  }

  ghost predicate CanFreeEach(h: Heap, bs: seq<int>) {
    Inv(h) && Distinct(bs) && forall b :: b in bs ==> IsLive(h, b)
  }

  lemma FreeFirst(h: Heap, bs: seq<int>)
    requires CanFreeEach(h, bs) && bs != []
    ensures IsLive(h, bs[0]) && CanFreeEach(FreeStep(h, bs[0]), bs[1..])
    ensures var g := FreeStep(h, bs[0]);
      && g.brk == h.brk && g.max == h.max
      && Live(g) - ToSet(bs[1..]) == Live(h) - ToSet(bs)
  {
    hide Inv, FreeStep;
    FreeKeeps(h, bs[0]);
    var g := FreeStep(h, bs[0]);
    forall b | b in bs[1..] ensures IsLive(g, b) {
      assert b in bs && b != bs[0];
      assert b in Live(h);
      assert b in Live(g);
    }
    assert ToSet(bs) == {bs[0]} + ToSet(bs[1..]);
  }

  /** mm_free of each block in turn. */
  ghost function FreeEach(h: Heap, bs: seq<int>): (g: Heap)
    requires CanFreeEach(h, bs)
    ensures Inv(g) && g.brk == h.brk && g.max == h.max && Live(g) == Live(h) - ToSet(bs)
    decreases |bs|
  {
    if bs == [] then h
    else
      FreeFirst(h, bs);
      FreeEach(FreeStep(h, bs[0]), bs[1..])
  }

  /** The order of frees does not matter. */
  lemma FreeOrderIrrelevant(h: Heap, bs: seq<int>, cs: seq<int>)
    requires CanFreeEach(h, bs) && CanFreeEach(h, cs) && (forall b :: b in bs <==> b in cs)
    ensures Alike(FreeEach(h, bs), FreeEach(h, cs))
  {
    hide Inv, FreeEach;
    assert forall b :: b in ToSet(bs) <==> b in ToSet(cs);
    assert ToSet(bs) == ToSet(cs);
    CanonicalAlike(FreeEach(h, bs), FreeEach(h, cs));
  }

  /** Two frees commute. */
  lemma FreesCommute(h: Heap, b: int, c: int)
    requires Inv(h) && IsLive(h, b) && IsLive(h, c) && b != c
    ensures Inv(FreeStep(h, b)) && Inv(FreeStep(h, c))
    ensures IsLive(FreeStep(h, b), c) && IsLive(FreeStep(h, c), b)
    ensures Alike(FreeStep(FreeStep(h, b), c), FreeStep(FreeStep(h, c), b))
  {
    hide Inv, FreeStep;
    FreeKeeps(h, b);
    FreeKeeps(h, c);
    assert b in Live(h) && c in Live(h);
    assert c in Live(FreeStep(h, b)) && b in Live(FreeStep(h, c));
    FreeKeeps(FreeStep(h, b), c);
    FreeKeeps(FreeStep(h, c), b);
    assert Live(h) - {b} - {c} == Live(h) - {c} - {b};
    CanonicalAlike(FreeStep(FreeStep(h, b), c), FreeStep(FreeStep(h, c), b));
  }

  /** The heap with nothing allocated. */
  ghost function AllFree(brk: int): map<int, Block> {
    if brk == FIRST then map[] else map[FIRST := Block(brk - FIRST, false)]
  }

  lemma OnlyFree(h: Heap, b: int)
    requires Inv(h) && Live(h) == map[] && b in h.blocks
    ensures b == FIRST && b + h.blocks[b].size == h.brk && !h.blocks[b].alloc
  {
    hide Listed;
    assert BlockOk(h, b) && NextOk(h, b);
    assert forall x :: x in h.blocks ==> x !in Live(h);
    assert IsFree(h, b);
    if b != FIRST {
      var p := BlockBefore(h, FIRST, b);
      assert IsFree(h, p);
    }
    assert !IsFree(h, b + h.blocks[b].size);
  }

  /** With no live block there is one free block, from the first address to the break. */
  lemma NothingLive(h: Heap)
    requires Inv(h) && Live(h) == map[]
    ensures h.blocks == AllFree(h.brk)
  {
    hide Listed;
    forall b | b in h.blocks ensures b == FIRST && b + h.blocks[b].size == h.brk && !h.blocks[b].alloc {
      OnlyFree(h, b);
    }
    assert h.brk != FIRST ==> FIRST in h.blocks;
  }

  /** Freeing every live block, in any order, leaves that one block. */
  lemma FreeEverything(h: Heap, bs: seq<int>)
    requires CanFreeEach(h, bs) && (forall b :: b in bs <==> IsLive(h, b))
    ensures FreeEach(h, bs).blocks == AllFree(h.brk)
  {
    hide Inv, FreeEach;
    assert forall b :: b in Live(h) ==> b in ToSet(bs);
    assert Live(h) - ToSet(bs) == map[];
    NothingLive(FreeEach(h, bs));
  }

  lemma GrowthSize(n: int)
    requires Request(n)
    ensures var grow := Max(Need(n), CHUNKSIZE); grow % 8 == 0 && MINBLOCK <= grow
  {
  }

  /** extend_heap by what mm_malloc(n) asks for. */
  predicate CanGrow(h: Heap, n: int) {
    h.brk + Max(Need(n), CHUNKSIZE) <= h.max
  }

  ghost function GrownFor(h: Heap, n: int): Heap
    requires Inv(h) && Request(n) && CanGrow(h, n)
  {
    hide Inv;
    GrowthSize(n);
    Extend(h, Max(Need(n), CHUNKSIZE))
  }

  /** mm_free right after mm_malloc: without growth the old heap is back, with growth it is
      the old heap with the extension merged into the free run at its end. */
  lemma MallocThenFree(h: Heap, n: int)
    requires Inv(h) && Request(n) && Malloc(h, n).1 != 0
    ensures var (g, p) := Malloc(h, n);
      && Inv(g) && IsLive(g, p - DSIZE)
      && (g.brk == h.brk ==> Alike(FreeStep(g, p - DSIZE), h))
      && (g.brk != h.brk ==>
            CanGrow(h, n) && g.brk == h.brk + Max(Need(n), CHUNKSIZE) && Alike(FreeStep(g, p - DSIZE), GrownFor(h, n)))
  {
    hide Inv, Malloc, FreeStep, Extend, Fits;
    MallocKeeps(h, n);
    MallocOutcome(h, n);
    GrowthSize(n);
    var (g, p) := Malloc(h, n);
    FreeKeeps(g, p - DSIZE);
    var f := FreeStep(g, p - DSIZE);
    assert Live(f) == Live(h);
    if g.brk == h.brk {
      CanonicalAlike(f, h);
    } else {
      ExtendKeeps(h, Max(Need(n), CHUNKSIZE));
      CanonicalAlike(f, GrownFor(h, n));
    }
  }

  // ---------- conservation ----------

  function Sizes(h: Heap): map<int, int> {
    map b | b in h.blocks :: h.blocks[b].size
  }

  function Frees(h: Heap): map<int, int> {
    map b | b in h.blocks && !h.blocks[b].alloc :: h.blocks[b].size
  }

  ghost function LiveBytes(h: Heap): int {
    Sum(Live(h))
  }

  ghost function FreeBytes(h: Heap): int {
    Sum(Frees(h))
  }

  lemma DropLast(h: Heap, p: int)
    requires Tiled(h) && p in h.blocks && p + h.blocks[p].size == h.brk
    ensures Tiled(h.(brk := p, blocks := h.blocks - {p}))
  {
    hide Tiled;
    var g := h.(brk := p, blocks := h.blocks - {p});
    BrkAligned(h);
    BlockEnds(h, p);
    FirstBlock(h);
    forall b | b in g.blocks ensures BlockOk(g, b) {
      BlockEnds(h, b);
      Disjoint(h, b, p);
      Disjoint(h, p, b);
    }
    forall b ensures NextOk(g, b) {
      if b in g.blocks {
        NextBlock(h, b);
      }
    }
    forall b, c | b in g.blocks && c in g.blocks && b < c ensures b + g.blocks[b].size <= c {
      Disjoint(h, b, c);
    }
    TiledFrom(g);
  }

  lemma SizesWithout(h: Heap, g: Heap, p: int)
    requires p in h.blocks && g.blocks == h.blocks - {p}
    ensures Sizes(g) == Sizes(h) - {p} && g.blocks.Keys == h.blocks.Keys - {p}
  {
  }

  /** Block sizes add up to the heap without its first 144 bytes. */
  lemma {:induction false} TilingSum(h: Heap)
    requires Tiled(h)
    ensures Sum(Sizes(h)) == h.brk - FIRST
    decreases h.blocks.Keys
  {
    hide Tiled;
    BrkNoBlock(h);
    FirstBlock(h);
    if h.brk == FIRST {
      forall b | b in h.blocks ensures false {
        BlockEnds(h, b);
      }
      assert Sizes(h) == map[];
    } else {
      BrkAligned(h);
      var p := BlockBefore(h, FIRST, h.brk);
      var g := h.(brk := p, blocks := h.blocks - {p});
      DropLast(h, p);
      SizesWithout(h, g, p);
      TilingSum(g);
      SumWithout(Sizes(h), p);
    }
  }

  lemma Conservation(h: Heap)
    requires Inv(h)
    ensures LiveBytes(h) + FreeBytes(h) == h.brk - FIRST
  {
    TilingSum(h);
    var s, l, f := Sizes(h), Live(h), Frees(h);
    SumSplit(s, l.Keys, f.Keys);
    assert s.Keys == l.Keys + f.Keys;
    SumOverAgrees(s, l, l.Keys);
    SumOverAgrees(s, f, f.Keys);
  }

  /** A free moves exactly its block's size to the free side. */
  lemma FreeMovesBytes(h: Heap, b: int)
    requires Inv(h) && IsLive(h, b)
    ensures var g := FreeStep(h, b);
      LiveBytes(g) == LiveBytes(h) - h.blocks[b].size && FreeBytes(g) == FreeBytes(h) + h.blocks[b].size
  {
    hide Inv, FreeStep;
    FreeKeeps(h, b);
    assert b in Live(h);
    SumWithout(Live(h), b);
    Conservation(h);
    Conservation(FreeStep(h, b));
  }

  /** A successful malloc moves the new block's size to the live side, net of growth. */
  lemma MallocMovesBytes(h: Heap, n: int)
    requires Inv(h) && Request(n) && Malloc(h, n).1 != 0
    ensures var (g, p) := Malloc(h, n);
      && p - DSIZE in g.blocks
      && LiveBytes(g) == LiveBytes(h) + g.blocks[p - DSIZE].size
      && FreeBytes(g) == FreeBytes(h) + (g.brk - h.brk) - g.blocks[p - DSIZE].size
  {
    hide Inv, Malloc;
    MallocKeeps(h, n);
    var (g, p) := Malloc(h, n);
    SumWith(Live(h), p - DSIZE, g.blocks[p - DSIZE].size);
    Conservation(h);
    Conservation(g);
  }

  // ---------- the walk by NEXT_BLKP ----------

  lemma BlocksAfter(h: Heap, a: int)
    requires Tiled(h) && a in h.blocks
    ensures a < a + h.blocks[a].size && forall b :: b in h.blocks && a < b ==> a + h.blocks[a].size <= b
  {
    hide Tiled;
    BlockEnds(h, a);
    forall b | b in h.blocks && a < b ensures a + h.blocks[a].size <= b {
      Disjoint(h, a, b);
    }
  }

  /** The blocks from a on, each found from the size of the one before. */
  ghost function Walk(h: Heap, a: int): (w: seq<int>)
    requires Tiled(h) && (a in h.blocks || a == h.brk)
    ensures forall b :: b in w <==> b in h.blocks && a <= b
    ensures forall i, j :: 0 <= i < j < |w| ==> w[i] < w[j]
    decreases h.brk - a
  {
    hide Tiled;
    BrkNoBlock(h);
    if a == h.brk then []
    else
      var e := a + h.blocks[a].size;
      NextBlock(h, a);
      BlocksAfter(h, a);
      [a] + Walk(h, e)
  }
}
