/** The allocator's heap without its memory: the blocks between the prologue and
    the break, and the 32 lists of free blocks. Every operation of mm.c is one step here. */
module Heaps {
  import opened Words
  import opened Buckets

  const MINBLOCK := 32

  datatype Block = Block(size: int, alloc: bool)

  datatype Heap = Heap(brk: int, max: int, blocks: map<int, Block>, lists: seq<seq<int>>)

  /** The end of a block is the break or the next block.  */
  ghost predicate NextOk(h: Heap, b: int) {
    b in h.blocks ==> b + h.blocks[b].size == h.brk || b + h.blocks[b].size in h.blocks
  }

  ghost predicate BlockOk(h: Heap, b: int)
    requires b in h.blocks
  {
    && FIRST <= b && b % 8 == 0
    && MINBLOCK <= h.blocks[b].size && h.blocks[b].size % 8 == 0
    && b + h.blocks[b].size <= h.brk
  }

  /** The blocks tile [FIRST, brk). */
  ghost predicate Tiled(h: Heap) {
    && FIRST <= h.brk <= h.max <= TWO31 && h.brk % 8 == 0
    && (h.brk == FIRST || FIRST in h.blocks)
    && (forall b :: b in h.blocks ==> BlockOk(h, b))
    && (forall b {:trigger NextOk(h, b)} :: NextOk(h, b))
    && (forall b, c :: b in h.blocks && c in h.blocks && b < c ==> b + h.blocks[b].size <= c)
  }

  predicate IsFree(h: Heap, b: int) {
    b in h.blocks && !h.blocks[b].alloc
  }

  predicate IsLive(h: Heap, b: int) {
    b in h.blocks && h.blocks[b].alloc
  }

  /** Each list is free of repetition and list k holds exactly the free blocks of
      bucket k, except those in skip. */
  ghost predicate Listed(h: Heap, skip: set<int>) {
    && |h.lists| == 32
    && (forall k :: 0 <= k < 32 ==> Distinct(h.lists[k]))
    && (forall k, x {:trigger x in h.lists[k]} {:trigger h.blocks[x], h.lists[k]} :: 0 <= k < 32 ==>
          (x in h.lists[k] <==> IsFree(h, x) && x !in skip && BucketOf(h.blocks[x].size) == k))
  }

  /** No two free blocks are adjacent, except next to a block of skip. */
  ghost predicate Coalesced(h: Heap, skip: set<int>) {
    forall b, c :: IsFree(h, b) && IsFree(h, c) && b + h.blocks[b].size == c ==> b in skip || c in skip
  }

  /** The invariant of every reachable heap. */
  ghost predicate Inv(h: Heap) {
    Tiled(h) && Listed(h, {}) && Coalesced(h, {})
  }

  /** The allocated blocks with their sizes: what the client can see of a heap. */
  function Live(h: Heap): map<int, int> {
    map b | b in h.blocks && h.blocks[b].alloc :: h.blocks[b].size
  }

  // ---------- the tiling ----------

  lemma SumOf8(a: int, b: int)
    requires a % 8 == 0 && b % 8 == 0
    ensures (a + b) % 8 == 0 && (a - b) % 8 == 0
  {
    assert a + b == 8 * (a / 8 + b / 8) && a - b == 8 * (a / 8 - b / 8);
  }

  lemma FourDivides(a: int)
    requires a % 8 == 0
    ensures a % 4 == 0
  {
  }

  lemma BlockEnds(h: Heap, b: int)
    requires Tiled(h) && b in h.blocks
    ensures FIRST <= b && b % 8 == 0 && 32 <= h.blocks[b].size && h.blocks[b].size % 8 == 0
    ensures b + h.blocks[b].size <= h.brk && (b + h.blocks[b].size) % 8 == 0
  {
    assert BlockOk(h, b);
    SumOf8(b, h.blocks[b].size);
  }

  lemma BrkAligned(h: Heap)
    requires Tiled(h)
    ensures FIRST <= h.brk <= h.max <= TWO31 && h.brk % 8 == 0
  {
  }

  lemma InBuffer(h: Heap, b: int)
    requires Tiled(h) && b in h.blocks
    ensures FIRST <= b && b % 4 == 0 && b + h.blocks[b].size <= h.max
  {
    hide Tiled;
    BlockEnds(h, b);
    BrkAligned(h);
    FourDivides(b);
  }

  /** No other block starts inside a block. */
  lemma Disjoint(h: Heap, b: int, c: int)
    requires Tiled(h) && b in h.blocks && c in h.blocks && b != c
    ensures !(b <= c < b + h.blocks[b].size)
  {
  }

  /** Every block but the first has a block just before it. */
  lemma {:induction false} BlockBefore(h: Heap, a: int, b: int) returns (p: int)
    requires Tiled(h) && a in h.blocks && a < b && (b in h.blocks || b == h.brk)
    ensures p in h.blocks && a <= p && p + h.blocks[p].size == b
    decreases b - a
  {
    var e := a + h.blocks[a].size;
    assert NextOk(h, a);
    if e == b {
      p := a;
    } else {
      p := BlockBefore(h, e, b);
    }
  }

  lemma NextBlock(h: Heap, b: int)
    requires Tiled(h) && b in h.blocks
    ensures b + h.blocks[b].size == h.brk || b + h.blocks[b].size in h.blocks
  {
    assert NextOk(h, b);
  }

  lemma FirstBlock(h: Heap)
    requires Tiled(h)
    ensures h.brk == FIRST || FIRST in h.blocks
  {
  }

  lemma TiledFrom(h: Heap)
    requires FIRST <= h.brk <= h.max <= TWO31 && h.brk % 8 == 0 && (h.brk == FIRST || FIRST in h.blocks)
    requires forall b :: b in h.blocks ==> BlockOk(h, b)
    requires forall b {:trigger NextOk(h, b)} :: NextOk(h, b)
    requires forall b, c :: b in h.blocks && c in h.blocks && b < c ==> b + h.blocks[b].size <= c
    ensures Tiled(h)
  {
  }

  lemma TiledIgnoresLists(g: Heap, h: Heap)
    requires Tiled(g) && g.brk == h.brk && g.max == h.max && g.blocks == h.blocks
    ensures Tiled(h)
  {
    forall b ensures NextOk(h, b) {
      assert NextOk(g, b);
    }
    assert forall b :: b in h.blocks ==> BlockOk(g, b);
  }

  // ---------- lists and runs of free blocks ----------

  ghost predicate CanList(h: Heap, x: int) {
    |h.lists| == 32 && x in h.blocks && h.blocks[x].size <= TWO31
  }

  lemma ListCount(h: Heap, skip: set<int>)
    requires Listed(h, skip)
    ensures |h.lists| == 32
  {
  }

  /** remove_from_seglist */
  ghost function Unlist(h: Heap, x: int): Heap
    requires CanList(h, x)
  {
    var k := BucketOf(h.blocks[x].size);
    h.(lists := h.lists[k := Without(h.lists[k], x)])
  }

  lemma UnlistListed(h: Heap, x: int, skip: set<int>)
    requires Listed(h, skip) && IsFree(h, x) && x !in skip && h.blocks[x].size <= TWO31
    ensures Listed(Unlist(h, x), skip + {x})
  {
    WithoutMembers(h.lists[BucketOf(h.blocks[x].size)], x);
  }

  /** add_to_seglist */
  ghost function Enlist(h: Heap, x: int): Heap
    requires CanList(h, x)
  {
    var k := BucketOf(h.blocks[x].size);
    h.(lists := h.lists[k := [x] + h.lists[k]])
  }

  lemma EnlistListed(h: Heap, x: int, skip: set<int>)
    requires Listed(h, skip) && IsFree(h, x) && x in skip && h.blocks[x].size <= TWO31
    ensures Listed(Enlist(h, x), skip - {x})
  {
  }

  /** The blocks with those that start in [lo, hi) replaced by one free block. */
  ghost function Fuse(h: Heap, lo: int, hi: int): Heap {
    h.(blocks := (map b | b in h.blocks && !(lo <= b < hi) :: h.blocks[b])[lo := Block(hi - lo, false)])
  }

  lemma FuseNext(h: Heap, lo: int, hi: int, b: int)
    requires Tiled(h) && lo in h.blocks && lo < hi <= h.brk && (hi == h.brk || hi in h.blocks)
    ensures NextOk(Fuse(h, lo, hi), b)
  {
    hide Tiled;
    if b in h.blocks && b != lo {
      NextBlock(h, b);
      var e := b + h.blocks[b].size;
      if b < lo {
        Disjoint(h, b, lo);
      } else if hi <= b && e in h.blocks {
        BlockEnds(h, b);
      }
    }
  }

  lemma FuseApart(h: Heap, lo: int, hi: int, b: int, c: int)
    requires Tiled(h) && lo in h.blocks && lo < hi <= h.brk && (hi == h.brk || hi in h.blocks)
    requires var g := Fuse(h, lo, hi); b in g.blocks && c in g.blocks && b < c
    ensures var g := Fuse(h, lo, hi); b + g.blocks[b].size <= c
  {
  }

  lemma FuseOk(h: Heap, lo: int, hi: int, b: int)
    requires Tiled(h) && lo in h.blocks && lo < hi <= h.brk && (hi == h.brk || hi in h.blocks)
    requires b in Fuse(h, lo, hi).blocks
    ensures BlockOk(Fuse(h, lo, hi), b)
  {
    hide Tiled;
    BlockEnds(h, lo);
    BrkAligned(h);
    if hi in h.blocks {
      BlockEnds(h, hi);
      Disjoint(h, lo, hi);
    }
    SumOf8(hi, lo);
    if b != lo {
      BlockEnds(h, b);
    }
  }

  lemma BrkNoBlock(h: Heap)
    requires Tiled(h)
    ensures h.brk !in h.blocks && forall b :: b in h.blocks ==> b < h.brk && b + h.blocks[b].size <= h.brk
  {
    hide Tiled;
    forall b | b in h.blocks ensures b < h.brk && b + h.blocks[b].size <= h.brk {
      BlockEnds(h, b);
    }
  }

  lemma FuseFirst(h: Heap, lo: int, hi: int)
    requires Tiled(h) && lo in h.blocks
    ensures FIRST in Fuse(h, lo, hi).blocks
  {
    hide Tiled;
    FirstBlock(h);
    BrkNoBlock(h);
    BlockEnds(h, lo);
  }

  lemma FuseTiled(h: Heap, lo: int, hi: int)
    requires Tiled(h) && lo in h.blocks && lo < hi <= h.brk && (hi == h.brk || hi in h.blocks)
    ensures Tiled(Fuse(h, lo, hi))
  {
    hide Tiled, NextOk, BlockOk;
    var g := Fuse(h, lo, hi);
    BrkAligned(h);
    FuseFirst(h, lo, hi);
    forall b ensures NextOk(g, b) {
      FuseNext(h, lo, hi, b);
    }
    forall b | b in g.blocks ensures BlockOk(g, b) {
      FuseOk(h, lo, hi, b);
    }
    forall b, c | b in g.blocks && c in g.blocks && b < c
      ensures b + g.blocks[b].size <= c
    {
      FuseApart(h, lo, hi, b, c);
    }
    TiledFrom(g);
  }

  lemma FuseLive(h: Heap, lo: int, hi: int)
    requires forall x :: x in h.blocks && lo <= x < hi ==> IsFree(h, x)
    ensures lo in h.blocks && lo < hi ==> Live(Fuse(h, lo, hi)) == Live(h)
  {
  }

  /** Where the free run around the free block b begins ... */
  ghost function RunStart(h: Heap, b: int): int {
    if exists p :: IsFree(h, p) && p + h.blocks[p].size == b
    then var p :| IsFree(h, p) && p + h.blocks[p].size == b; p
    else b
  }

  /** ... and where it ends. */
  ghost function RunEnd(h: Heap, b: int): int
    requires b in h.blocks
  {
    var e := b + h.blocks[b].size;
    if IsFree(h, e) then e + h.blocks[e].size else e
  }

  /** The run around b: its ends are block boundaries and it holds nothing but
      free blocks, at most b and its two neighbours. */
  lemma RunIsFree(h: Heap, b: int)
    requires Tiled(h) && IsFree(h, b)
    ensures var lo, hi := RunStart(h, b), RunEnd(h, b);
      && IsFree(h, lo) && lo <= b < hi <= h.brk && (hi == h.brk || hi in h.blocks)
      && b + h.blocks[b].size <= hi && (lo < b ==> lo + h.blocks[lo].size == b)
      && (forall x :: x in h.blocks && lo <= x < hi ==>
            IsFree(h, x) && (x == lo || x == b || x == b + h.blocks[b].size))
  {
    hide Tiled;
    var lo, hi, e := RunStart(h, b), RunEnd(h, b), b + h.blocks[b].size;
    BlockEnds(h, b);
    BlockEnds(h, lo);
    NextBlock(h, b);
    if IsFree(h, e) {
      BlockEnds(h, e);
      NextBlock(h, e);
    }
    forall x | x in h.blocks && lo <= x < hi && x != lo ensures x == b || x == e {
      Disjoint(h, lo, x);
      if x != b && x != e {
        Disjoint(h, b, x);
        if IsFree(h, e) {
          Disjoint(h, e, x);
        }
      }
    }
  }

  // ---------- coalesce ----------

  /** coalesce, as one step: the block and its free neighbours become one free
      block, which moves to the head of its bucket. */
  ghost function Merge(h: Heap, b: int): Heap
    requires Tiled(h) && IsFree(h, b) && |h.lists| == 32
  {
    var lo, hi := RunStart(h, b), RunEnd(h, b);
    RunIsFree(h, b);
    var g := Fuse(h, lo, hi).(lists := Swept(h.lists, lo, hi));
    Enlist(g, lo)
  }

  lemma MergeListed(h: Heap, b: int)
    requires Tiled(h) && IsFree(h, b) && Listed(h, {b})
    ensures Listed(Merge(h, b), {})
  {
    hide Tiled, RunStart, RunEnd, BucketOf, KeepOutside;
    ListCount(h, {b});
    BrkAligned(h);
    var g, lo, hi := Merge(h, b), RunStart(h, b), RunEnd(h, b);
    RunIsFree(h, b);
    BlockEnds(h, lo);
    BlockEnds(h, b);
    forall k | 0 <= k < 32
      ensures Distinct(g.lists[k])
      ensures forall x :: x in g.lists[k] <==> IsFree(g, x) && BucketOf(g.blocks[x].size) == k
    {
      KeepMembers(h.lists[k], lo, hi);
    }
  }

  lemma RunEndsAtLive(h: Heap, b: int)
    requires Tiled(h) && IsFree(h, b) && Coalesced(h, {b})
    ensures !IsFree(h, RunEnd(h, b))
  {
  }

  lemma RunStartsAfterLive(h: Heap, b: int)
    requires Tiled(h) && IsFree(h, b) && Coalesced(h, {b})
    ensures forall x :: IsFree(h, x) ==> x + h.blocks[x].size != RunStart(h, b)
  {
  }

  lemma FuseCoalesced(h: Heap, b: int)
    requires Tiled(h) && IsFree(h, b) && Coalesced(h, {b})
    ensures Coalesced(Fuse(h, RunStart(h, b), RunEnd(h, b)), {})
  {
    hide Tiled, RunStart, RunEnd;
    var lo, hi := RunStart(h, b), RunEnd(h, b);
    var g := Fuse(h, lo, hi);
    RunIsFree(h, b);
    RunEndsAtLive(h, b);
    RunStartsAfterLive(h, b);
    forall x, y | IsFree(g, x) && IsFree(g, y)
      ensures x + g.blocks[x].size != y
    {
      assert x != lo ==> IsFree(h, x) && x != b && g.blocks[x] == h.blocks[x];
      assert y != lo ==> IsFree(h, y) && y != b;
    }
  }

  /** coalesce re-establishes the invariant and leaves the client's view alone. */
  lemma MergeKeeps(h: Heap, b: int)
    requires Tiled(h) && IsFree(h, b) && Listed(h, {b}) && Coalesced(h, {b})
    ensures var g, lo, hi := Merge(h, b), RunStart(h, b), RunEnd(h, b);
      && Inv(g) && g.brk == h.brk && g.max == h.max && Live(g) == Live(h)
      && lo <= b < b + h.blocks[b].size <= hi && lo in g.blocks && g.blocks[lo] == Block(hi - lo, false)
  {
    hide Tiled, Listed, RunStart, RunEnd, BucketOf, Swept;
    ListCount(h, {b});
    var g, lo, hi := Merge(h, b), RunStart(h, b), RunEnd(h, b);
    RunIsFree(h, b);
    BlockEnds(h, lo);
    BlockEnds(h, b);
    FuseTiled(h, lo, hi);
    TiledIgnoresLists(Fuse(h, lo, hi), g);
    MergeListed(h, b);
    FuseCoalesced(h, b);
    assert Coalesced(g, {});
    FuseLive(h, lo, hi);
  }

  // ---------- mm_free ----------

  /** mm_free */
  ghost function Freed(h: Heap, b: int): Heap
    requires b in h.blocks
  {
    h.(blocks := h.blocks[b := Block(h.blocks[b].size, false)])
  }

  lemma FreedTiled(h: Heap, b: int)
    requires Tiled(h) && b in h.blocks
    ensures Tiled(Freed(h, b))
  {
    hide Tiled;
    var g := Freed(h, b);
    BrkAligned(h);
    FirstBlock(h);
    forall x | x in g.blocks ensures BlockOk(g, x) && NextOk(g, x) {
      BlockEnds(h, x);
      NextBlock(h, x);
    }
    forall x, y | x in h.blocks && y in h.blocks && x < y ensures x + h.blocks[x].size <= y {
      Disjoint(h, x, y);
    }
    TiledFrom(g);
  }

  lemma FreedListed(h: Heap, b: int)
    requires Listed(h, {}) && Coalesced(h, {}) && IsLive(h, b)
    ensures var g := Freed(h, b);
      Listed(g, {b}) && Coalesced(g, {b}) && Live(g) == Live(h) - {b}
  {
  }

  lemma FreedReady(h: Heap, b: int)
    requires Inv(h) && IsLive(h, b)
    ensures var g := Freed(h, b);
      && Tiled(g) && Listed(g, {b}) && Coalesced(g, {b})
      && Live(g) == Live(h) - {b}
  {
    FreedTiled(h, b);
    FreedListed(h, b);
  }

  ghost function FreeStep(h: Heap, b: int): Heap
    requires Inv(h) && IsLive(h, b)
  {
    FreedReady(h, b);
    Merge(Freed(h, b), b)
  }

  lemma FreeKeeps(h: Heap, b: int)
    requires Inv(h) && IsLive(h, b)
    ensures var g := FreeStep(h, b);
      Inv(g) && g.brk == h.brk && g.max == h.max && Live(g) == Live(h) - {b}
  {
    FreedReady(h, b);
    RunIsFree(Freed(h, b), b);
    MergeKeeps(Freed(h, b), b);
  }

  // ---------- extend_heap ----------

  /** The heap just after the break has moved, the new block not yet in a list. */
  ghost function Grown(h: Heap, size: int): Heap {
    h.(brk := h.brk + size, blocks := h.blocks[h.brk := Block(size, false)])
  }

  lemma GrownTiled(h: Heap, size: int)
    requires Tiled(h) && size % 8 == 0 && MINBLOCK <= size && h.brk + size <= h.max
    ensures h.brk !in h.blocks && Tiled(Grown(h, size))
  {
    hide Tiled;
    var g := Grown(h, size);
    BrkAligned(h);
    SumOf8(h.brk, size);
    FirstBlock(h);
    BrkNoBlock(h);
    forall b ensures NextOk(g, b) {
      if b in h.blocks {
        NextBlock(h, b);
      }
    }
    forall b | b in g.blocks ensures BlockOk(g, b) {
      if b != h.brk {
        BlockEnds(h, b);
      }
    }
    forall b, c | b in g.blocks && c in g.blocks && b < c ensures b + g.blocks[b].size <= c {
      if c in h.blocks {
        Disjoint(h, b, c);
      }
    }
    TiledFrom(g);
  }

  lemma GrownReady(h: Heap, size: int)
    requires Inv(h) && size % 8 == 0 && MINBLOCK <= size && h.brk + size <= h.max
    ensures var g := Grown(h, size);
      && Tiled(g) && Listed(g, {h.brk}) && Coalesced(g, {h.brk}) && IsFree(g, h.brk)
      && Live(g) == Live(h)
  {
    hide Tiled;
    GrownTiled(h, size);
  }

  /** extend_heap */
  ghost function Extend(h: Heap, size: int): Heap
    requires Inv(h) && size % 8 == 0 && MINBLOCK <= size && h.brk + size <= h.max
  {
    GrownReady(h, size);
    Merge(Grown(h, size), h.brk)
  }

  lemma ExtendKeeps(h: Heap, size: int)
    requires Inv(h) && size % 8 == 0 && MINBLOCK <= size && h.brk + size <= h.max
    ensures var g, lo := Extend(h, size), RunStart(Grown(h, size), h.brk);
      && Inv(g) && g.brk == h.brk + size && g.max == h.max && Live(g) == Live(h)
      && IsFree(g, lo) && size <= g.blocks[lo].size
  {
    GrownReady(h, size);
    RunIsFree(Grown(h, size), h.brk);
    MergeKeeps(Grown(h, size), h.brk);
  }

  // ---------- mm_init ----------

  /** No block at all: 32 empty buckets, the prologue and the epilogue. */
  function Bare(max: int): Heap {
    Heap(FIRST, max, map[], seq(32, k => []))
  }

  lemma BareInv(max: int)
    requires FIRST <= max <= TWO31
    ensures Inv(Bare(max)) && Live(Bare(max)) == map[]
  {
  }

  /** The heap mm_init leaves: one free chunk, if there is room for it. */
  function Initial(max: int): Heap {
    if FIRST + CHUNKSIZE <= max
    then Heap(FIRST + CHUNKSIZE, max, map[FIRST := Block(CHUNKSIZE, false)], Bare(max).lists[12 := [FIRST]])
    else Bare(max)
  }

  lemma ChunkBucket()
    ensures BucketOf(CHUNKSIZE) == 12
  {
    assert Pow2(11) == 2048 && Pow2(12) == 4096;
    BucketUnique(CHUNKSIZE, 12, BucketOf(CHUNKSIZE));
  }

  lemma OneBlockRun(g: Heap, b: int)
    requires g.blocks.Keys == {b} && g.blocks[b].size > 0
    ensures RunStart(g, b) == b && RunEnd(g, b) == b + g.blocks[b].size
  {
  }

  lemma InitialIsExtended(max: int)
    requires FIRST + CHUNKSIZE <= max <= TWO31
    ensures Inv(Bare(max)) && Extend(Bare(max), CHUNKSIZE) == Initial(max)
    ensures Inv(Initial(max)) && Live(Initial(max)) == map[]
  {
    hide Tiled, Listed, Coalesced, RunStart, RunEnd, BucketOf;
    var h := Bare(max);
    BareInv(max);
    ExtendKeeps(h, CHUNKSIZE);
    GrownReady(h, CHUNKSIZE);
    var g := Grown(h, CHUNKSIZE);
    assert g.blocks == map[FIRST := Block(CHUNKSIZE, false)];
    OneBlockRun(g, FIRST);
    SweptClear(h.lists, FIRST, FIRST + CHUNKSIZE);
    ChunkBucket();
    assert Fuse(g, FIRST, FIRST + CHUNKSIZE).blocks == g.blocks;
    assert [FIRST] + [] == [FIRST];
    assert Extend(h, CHUNKSIZE) == Merge(g, FIRST);
  }

  lemma InitialInv(max: int)
    requires FIRST <= max <= TWO31
    ensures Inv(Initial(max)) && Live(Initial(max)) == map[]
  {
    BareInv(max);
    if FIRST + CHUNKSIZE <= max {
      InitialIsExtended(max);
    }
  }

  // ---------- find_fit ----------

  /** The first block of the list that is large enough, or 0. */
  function FirstFit(h: Heap, list: seq<int>, size: int): int {
    if list == [] then 0
    else if list[0] in h.blocks && size <= h.blocks[list[0]].size then list[0]
    else FirstFit(h, list[1..], size)
  }

  lemma {:induction false} FirstFitFits(h: Heap, list: seq<int>, size: int)
    requires 0 !in h.blocks
    ensures var b := FirstFit(h, list, size);
      b != 0 ==> b in list && b in h.blocks && size <= h.blocks[b].size
    ensures FirstFit(h, list, size) == 0 ==>
      forall x :: x in list && x in h.blocks ==> h.blocks[x].size < size
  {
    if list == [] {
    } else {
      FirstFitFits(h, list[1..], size);
      assert forall x :: x in list <==> x == list[0] || x in list[1..];
    }
  }

  /** find_fit from bucket k on. */
  function FitFrom(h: Heap, k: nat, size: int): int
    requires |h.lists| == 32
    decreases 32 - k
  {
    if k >= 32 then 0
    else
      var b := FirstFit(h, h.lists[k], size);
      if b != 0 then b else FitFrom(h, k + 1, size)
  }

  lemma {:induction false} FitFromFits(h: Heap, k: nat, size: int) returns (j: nat)
    requires Inv(h)
    ensures var b := FitFrom(h, k, size);
      && (b != 0 ==> IsFree(h, b) && size <= h.blocks[b].size && BucketOf(h.blocks[b].size) == j && k <= j < 32)
      && (b == 0 ==> j == 32)
    ensures forall x :: IsFree(h, x) && k <= BucketOf(h.blocks[x].size) < j ==> h.blocks[x].size < size
    decreases 32 - k
  {
    if k >= 32 {
      j := 32;
    } else {
      FirstFitFits(h, h.lists[k], size);
      if FirstFit(h, h.lists[k], size) != 0 {
        j := k;
      } else {
        j := FitFromFits(h, k + 1, size);
        forall x | IsFree(h, x) && k <= BucketOf(h.blocks[x].size) < j
          ensures h.blocks[x].size < size
        {
          assert BucketOf(h.blocks[x].size) == k ==> x in h.lists[k];
          assert BlockOk(h, x);
        }
      }
    }
  }

  /** find_fit */
  function FindFit(h: Heap, size: int): int
    requires |h.lists| == 32
  {
    FitFrom(h, BucketOf(size), size)
  }

  lemma FitFound(h: Heap, size: int)
    requires Inv(h) && FindFit(h, size) != 0
    ensures var b := FindFit(h, size);
      IsFree(h, b) && size <= h.blocks[b].size <= TWO31
  {
    var j := FitFromFits(h, BucketOf(size), size);
    assert BlockOk(h, FindFit(h, size));
  }

  // ---------- place ----------

  /** The heap with the free block b cut to size and marked allocated, the rest of b not
      yet in a list. */
  ghost function Split(h: Heap, b: int, size: int): Heap
    requires b in h.blocks
  {
    var c := h.blocks[b].size;
    if c - size >= MINBLOCK
    then h.(blocks := h.blocks[b := Block(size, true)][b + size := Block(c - size, false)])
    else h.(blocks := h.blocks[b := Block(c, true)])
  }

  lemma SplitApart(h: Heap, b: int, size: int, x: int, y: int)
    requires Tiled(h) && b in h.blocks && MINBLOCK <= size <= h.blocks[b].size
    requires x in Split(h, b, size).blocks && y in Split(h, b, size).blocks && x < y
    ensures x + Split(h, b, size).blocks[x].size <= y
  {
  }

  lemma SplitNext(h: Heap, b: int, size: int, x: int)
    requires Tiled(h) && b in h.blocks && MINBLOCK <= size <= h.blocks[b].size
    ensures NextOk(Split(h, b, size), x)
  {
    hide Tiled;
    NextBlock(h, b);
    if x in h.blocks {
      NextBlock(h, x);
    }
  }

  lemma SplitOk(h: Heap, b: int, size: int, x: int)
    requires Tiled(h) && b in h.blocks && MINBLOCK <= size <= h.blocks[b].size && size % 8 == 0
    requires x in Split(h, b, size).blocks
    ensures BlockOk(Split(h, b, size), x)
  {
    hide Tiled;
    BlockEnds(h, b);
    SumOf8(b, size);
    SumOf8(h.blocks[b].size, size);
    if x in h.blocks {
      BlockEnds(h, x);
    }
  }

  lemma SplitFirst(h: Heap, b: int, size: int)
    requires Tiled(h) && b in h.blocks
    ensures var g := Split(h, b, size);
      && FIRST <= g.brk <= g.max <= TWO31 && g.brk % 8 == 0 && (g.brk == FIRST || FIRST in g.blocks)
  {
    hide Tiled;
    BrkAligned(h);
    FirstBlock(h);
  }

  lemma SplitTiled(h: Heap, b: int, size: int)
    requires Tiled(h) && b in h.blocks && MINBLOCK <= size <= h.blocks[b].size && size % 8 == 0
    ensures Tiled(Split(h, b, size))
  {
    hide Tiled, Split, BlockOk, NextOk;
    var g := Split(h, b, size);
    SplitFirst(h, b, size);
    forall x ensures NextOk(g, x) {
      SplitNext(h, b, size, x);
    }
    forall x | x in g.blocks ensures BlockOk(g, x) {
      SplitOk(h, b, size, x);
    }
    forall x, y | x in g.blocks && y in g.blocks && x < y
      ensures x + g.blocks[x].size <= y
    {
      SplitApart(h, b, size, x, y);
    }
    TiledFrom(g);
  }

  /** The client-visible effect of splitting: one more allocated block, less than 32
      bytes above the size asked for. */
  lemma SplitLive(h: Heap, b: int, size: int)
    requires Tiled(h) && IsFree(h, b) && MINBLOCK <= size <= h.blocks[b].size && size % 8 == 0
    ensures var g := Split(h, b, size);
      && IsLive(g, b) && size <= g.blocks[b].size <= size + 24
      && Live(g) == Live(h)[b := g.blocks[b].size]
  {
    hide Tiled;
    var g, c := Split(h, b, size), h.blocks[b].size;
    BlockEnds(h, b);
    SumOf8(c, size);
    if b + size in h.blocks {
      Disjoint(h, b, b + size);
    }
  }

  lemma SplitListed(h: Heap, b: int, size: int)
    requires Tiled(h) && IsFree(h, b) && MINBLOCK <= size <= h.blocks[b].size && Listed(h, {b})
    ensures Listed(Split(h, b, size), if h.blocks[b].size - size >= MINBLOCK then {b + size} else {})
  {
  }

  lemma SplitCoalesced(h: Heap, b: int, size: int)
    requires Tiled(h) && IsFree(h, b) && MINBLOCK <= size <= h.blocks[b].size && Coalesced(h, {})
    ensures Coalesced(Split(h, b, size), {})
  {
    hide Tiled;
    var g, cut := Split(h, b, size), h.blocks[b].size - size >= MINBLOCK;
    forall x, y | IsFree(g, x) && IsFree(g, y)
      ensures x + g.blocks[x].size != y
    {
      assert x != b && y != b;
      if cut && x == b + size {
        assert y != x ==> IsFree(h, y);
      } else if cut && y == b + size {
        BlockEnds(h, x);
        Disjoint(h, x, b);
        Disjoint(h, b, x);
      } else {
        assert IsFree(h, x) && IsFree(h, y);
      }
    }
  }

  /** place */
  ghost function Place(h: Heap, b: int, size: int): Heap
    requires |h.lists| == 32 && b in h.blocks && 0 <= size <= h.blocks[b].size <= TWO31
  {
    var g := Split(Unlist(h, b), b, size);
    if h.blocks[b].size - size >= MINBLOCK then Enlist(g, b + size) else g
  }

  lemma PlaceSplits(h: Heap, b: int, size: int)
    requires Inv(h) && IsFree(h, b) && MINBLOCK <= size <= h.blocks[b].size <= TWO31 && size % 8 == 0
    ensures var g := Split(Unlist(h, b), b, size);
      && Tiled(g) && Coalesced(g, {})
      && Listed(g, if h.blocks[b].size - size >= MINBLOCK then {b + size} else {})
      && IsLive(g, b) && size <= g.blocks[b].size <= size + 24
      && Live(g) == Live(h)[b := g.blocks[b].size]
  {
    hide Tiled, Listed, BucketOf, Split;
    ListCount(h, {});
    var u := Unlist(h, b);
    assert {} + {b} == {b};
    UnlistListed(h, b, {});
    TiledIgnoresLists(h, u);
    SplitTiled(u, b, size);
    SplitLive(u, b, size);
    SplitListed(u, b, size);
    assert Coalesced(u, {});
    SplitCoalesced(u, b, size);
  }

  lemma PlaceKeeps(h: Heap, b: int, size: int)
    requires Inv(h) && IsFree(h, b) && MINBLOCK <= size <= h.blocks[b].size && size % 8 == 0
    ensures h.blocks[b].size <= TWO31
    ensures var g := Place(h, b, size);
      && Inv(g) && g.brk == h.brk && g.max == h.max
      && IsLive(g, b) && size <= g.blocks[b].size <= size + 24
      && Live(g) == Live(h)[b := g.blocks[b].size]
  {
    hide Tiled, Listed, BucketOf;
    BlockEnds(h, b);
    BrkAligned(h);
    ListCount(h, {});
    PlaceSplits(h, b, size);
    var g := Split(Unlist(h, b), b, size);
    if h.blocks[b].size - size >= MINBLOCK {
      assert {b + size} - {b + size} == {};
      EnlistListed(g, b + size, {b + size});
      TiledIgnoresLists(g, Enlist(g, b + size));
      assert Coalesced(Enlist(g, b + size), {});
    }
  }

  // ---------- mm_malloc ----------

  /** The block size mm_malloc asks for. */
  function Need(n: int): int {
    Align(n + OVERHEAD)
  }

  /** ... and what it computes: both sums of ALIGN(size + OVERHEAD) are taken in 32 bits. */
  function Rounded(n: Word): Word {
    var s := ((n + OVERHEAD) % 0x1_0000_0000 + 7) % 0x1_0000_0000;
    s - s % 8
  }

  /** The requests find_bucket has a bucket for. */
  predicate Request(n: int) {
    0 <= n && Need(n) <= TWO31
  }

  /** Every request is of one of three kinds: the word is the size asked for and has a bucket;
      it is that size and has none, so find_bucket returns null; or the sum has wrapped, and
      the word is a small size, below the request, that has a bucket again. */
  lemma RoundedExact(n: Word)
    ensures n <= TWO31 - OVERHEAD <==> Request(n)
    ensures Request(n) ==> Rounded(n) == Need(n)
    ensures TWO31 - OVERHEAD < n < 0x1_0000_0000 - 39 ==> Rounded(n) == Need(n) > TWO31
    ensures 0x1_0000_0000 - 39 <= n ==> Rounded(n) <= 32 < n
    ensures 0x1_0000_0000 - 7 <= n ==> Rounded(n) == MINBLOCK
  {
    if n < 0x1_0000_0000 - 39 {
      assert (n + OVERHEAD) % 0x1_0000_0000 == n + OVERHEAD;
    } else if n < 0x1_0000_0000 - OVERHEAD {
      assert (n + OVERHEAD + 7) % 0x1_0000_0000 == n + OVERHEAD + 7 - 0x1_0000_0000;
    } else {
      assert (n + OVERHEAD) % 0x1_0000_0000 == n + OVERHEAD - 0x1_0000_0000;
    }
  }

  /** mm_malloc: the new heap and the payload address, or 0. */
  ghost function Malloc(h: Heap, n: int): (Heap, int)
    requires Inv(h) && Request(n)
  {
    var size := Need(n);
    if n == 0 then (h, 0)
    else
      var b := FindFit(h, size);
      if b != 0 then
        FitFound(h, size);
        (Place(h, b, size), b + DSIZE)
      else
        var grow := Max(size, CHUNKSIZE);
        if h.brk + grow > h.max then (h, 0)
        else
          ExtendKeeps(h, grow);
          (Place(Extend(h, grow), RunStart(Grown(h, grow), h.brk), size), RunStart(Grown(h, grow), h.brk) + DSIZE)
  }

  /** What a successful mm_malloc(n) does: exactly one allocated block is new, and its
      size is at most 24 above the size asked for. */
  ghost predicate Allocates(h: Heap, g: Heap, p: int, n: int) {
    var b := p - DSIZE;
    && Inv(g) && g.max == h.max && p % 8 == 0
    && b !in Live(h) && IsLive(g, b) && Live(g) == Live(h)[b := g.blocks[b].size]
    && Need(n) <= g.blocks[b].size <= Need(n) + 24
  }

  lemma PlaceFor(h: Heap, b: int, n: int)
    requires Inv(h) && Request(n) && IsFree(h, b) && Need(n) <= h.blocks[b].size <= TWO31
    ensures Allocates(h, Place(h, b, Need(n)), b + DSIZE, n) && Place(h, b, Need(n)).brk == h.brk
  {
    hide Tiled, Listed, Coalesced, Place;
    PlaceKeeps(h, b, Need(n));
    BlockEnds(h, b);
    SumOf8(b, DSIZE);
  }

  lemma AllocatesSeen(h: Heap, x: Heap, g: Heap, p: int, n: int)
    requires Allocates(x, g, p, n) && Live(x) == Live(h) && x.max == h.max
    ensures Allocates(h, g, p, n)
  {
  }

  lemma MallocByGrowing(h: Heap, n: int)
    requires Inv(h) && Request(n) && h.brk + Max(Need(n), CHUNKSIZE) <= h.max
    ensures var grow := Max(Need(n), CHUNKSIZE);
      var x, lo := Extend(h, grow), RunStart(Grown(h, grow), h.brk);
      && |x.lists| == 32 && lo in x.blocks && Need(n) <= x.blocks[lo].size <= TWO31 && lo >= FIRST
      && Allocates(h, Place(x, lo, Need(n)), lo + DSIZE, n) && Place(x, lo, Need(n)).brk == h.brk + grow
  {
    hide Place, Allocates, Extend, BucketOf;
    var grow := Max(Need(n), CHUNKSIZE);
    ExtendKeeps(h, grow);
    var x, lo := Extend(h, grow), RunStart(Grown(h, grow), h.brk);
    assert BlockOk(x, lo);
    PlaceFor(x, lo, n);
    AllocatesSeen(h, x, Place(x, lo, Need(n)), lo + DSIZE, n);
  }

  lemma MallocFits(h: Heap, n: int)
    requires Inv(h) && Request(n) && n > 0
    ensures |h.lists| == 32
    ensures var b := FindFit(h, Need(n));
      b != 0 ==> IsFree(h, b) && Need(n) <= h.blocks[b].size <= TWO31
                 && Malloc(h, n) == (Place(h, b, Need(n)), b + DSIZE)
  {
    hide Tiled, Listed, Coalesced, Place, Extend, FindFit, Grown, RunStart;
    ListCount(h, {});
    if FindFit(h, Need(n)) != 0 {
      FitFound(h, Need(n));
    }
  }

  /** The three ways through mm_malloc: nothing to do or no room, a block that fits, growth. */
  lemma MallocCases(h: Heap, n: int)
    requires Inv(h) && Request(n)
    ensures var (g, p) := Malloc(h, n);
      var grow := Max(Need(n), CHUNKSIZE);
      if n == 0 || (FindFit(h, Need(n)) == 0 && h.brk + grow > h.max) then
        p == 0 && g == h
      else
        && n > 0 && FIRST <= p - DSIZE && Allocates(h, g, p, n)
        && g.brk == if FindFit(h, Need(n)) != 0 then h.brk else h.brk + grow
  {
    hide Tiled, Listed, Coalesced, Place, Extend, Allocates, FindFit, Grown, RunStart;
    ListCount(h, {});
    var size := Need(n);
    var b := FindFit(h, size);
    if n > 0 && b != 0 {
      FitFound(h, size);
      PlaceFor(h, b, n);
      BlockEnds(h, b);
    } else if n > 0 && h.brk + Max(size, CHUNKSIZE) <= h.max {
      MallocByGrowing(h, n);
    }
  }

  /** mm_malloc keeps the invariant; on failure nothing changes. */
  lemma MallocKeeps(h: Heap, n: int)
    requires Inv(h) && Request(n)
    ensures var (g, p) := Malloc(h, n);
      if p == 0 then g == h else n > 0 && p - DSIZE != 0 && Allocates(h, g, p, n)
  {
    hide Inv, Malloc, Allocates, FindFit;
    MallocCases(h, n);
  }

  // ---------- mm_realloc ----------

  /** The arguments on which mm_realloc does not copy to or from a null pointer: a block
      that is moved needs a successful mm_malloc. */
  ghost predicate CanRealloc(h: Heap, ptr: int, n: int)
    requires Inv(h) && Request(n)
  {
    ptr != 0 ==> IsLive(h, ptr - DSIZE) && (n > 0 ==> Malloc(h, n).1 != 0)
  }

  /** The copy of mm_realloc, which reads the smaller of the request and the whole size of
      the old block, ends inside the buffer. */
  predicate CopyInside(h: Heap, ptr: int, n: int) {
    ptr - DSIZE in h.blocks ==> ptr + Min(n, h.blocks[ptr - DSIZE].size) <= h.max
  }

  lemma ReallocReady(h: Heap, ptr: int, n: int)
    requires Inv(h) && Request(n) && IsLive(h, ptr - DSIZE) && n > 0 && Malloc(h, n).1 != 0
    ensures var (g, p) := Malloc(h, n);
      && Allocates(h, g, p, n) && Inv(g) && IsLive(g, ptr - DSIZE) && IsLive(g, p - DSIZE) && p != ptr
      && g.blocks[ptr - DSIZE].size == h.blocks[ptr - DSIZE].size
  {
    hide Inv, Malloc;
    MallocKeeps(h, n);
    var (g, p) := Malloc(h, n);
    assert ptr - DSIZE in Live(h);
    assert Live(g)[ptr - DSIZE] == Live(h)[ptr - DSIZE];
  }

  /** mm_realloc of a live block to a positive size: malloc, then free of the old block. */
  ghost function Replaced(h: Heap, ptr: int, n: int): (Heap, int)
    requires Inv(h) && Request(n) && IsLive(h, ptr - DSIZE) && n > 0 && Malloc(h, n).1 != 0
  {
    hide Inv, Malloc, FreeStep, Allocates, Request, IsLive;
    ReallocReady(h, ptr, n);
    var (g, p) := Malloc(h, n);
    (FreeStep(g, ptr - DSIZE), p)
  }

  /** mm_realloc */
  ghost function Realloc(h: Heap, ptr: int, n: int): (Heap, int)
    requires Inv(h) && Request(n) && CanRealloc(h, ptr, n)
  {
    hide Inv, Malloc, FreeStep, Replaced;
    if ptr == 0 then Malloc(h, n)
    else if n == 0 then (FreeStep(h, ptr - DSIZE), 0)
    else Replaced(h, ptr, n)
  }

  /** What mm_realloc of a live block with n > 0 does: that block is gone and one new
      block is there. */
  ghost predicate Moves(h: Heap, f: Heap, ptr: int, p: int, n: int) {
    && Inv(f) && f.max == h.max && p % 8 == 0 && p != ptr
    && p - DSIZE !in Live(h) && IsLive(f, p - DSIZE)
    && Live(f) == Live(h)[p - DSIZE := f.blocks[p - DSIZE].size] - {ptr - DSIZE}
    && Need(n) <= f.blocks[p - DSIZE].size <= Need(n) + 24
  }

  lemma ReallocKeeps(h: Heap, ptr: int, n: int)
    requires Inv(h) && Request(n) && CanRealloc(h, ptr, n) && ptr != 0 && n > 0
    ensures Moves(h, Realloc(h, ptr, n).0, ptr, Realloc(h, ptr, n).1, n)
  {
    hide Malloc, FreeStep, Inv;
    ReallocReady(h, ptr, n);
    var (g, p) := Malloc(h, n);
    FreeKeeps(g, ptr - DSIZE);
    var f := FreeStep(g, ptr - DSIZE);
    assert p - DSIZE in Live(g) && p - DSIZE in Live(f) && Live(f)[p - DSIZE] == Live(g)[p - DSIZE];
  }
}
