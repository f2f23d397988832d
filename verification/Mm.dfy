/** mm.c: the segregated-list allocator over the simulated break. */
module Mm {
  import opened Words
  import opened Buckets
  import opened Heaps
  import opened MemLib
  import opened Layout
  import opened Links
  import opened HeapLinks
  import opened MmSteps

  class Allocator {
    const mem: MemSystem
    var heapListp: int
    /** The heap the memory lays out. */
    ghost var heap: Heap

    /** The statics before the first call. */
    constructor (m: MemSystem)
      ensures mem == m && heapListp == 0
    {
      mem := m;
      heapListp := 0;
      heap := Heap(0, 0, map[], []);
    }

    ghost predicate Laid()
      reads this, mem, mem.data
    {
      && mem.Valid() && heap.brk == mem.brk && heap.max == mem.maxAddr
      && Tiled(heap) && Rep(mem.data[..], heap)
    }

    ghost predicate Valid()
      reads this, mem, mem.data
    {
      heapListp == 136 && Laid() && Inv(heap)
    }

    /** GET_SIZE at address a. */
    function GetSize(a: int): int
      requires a % 4 == 0 && 0 <= a < 4 * mem.data.Length
      reads mem.data
    {
      SizeOf(mem.Get(a))
    }

    /** GET_ALLOC at address a. */
    predicate GetAlloc(a: int)
      requires a % 4 == 0 && 0 <= a < 4 * mem.data.Length
      reads mem.data
    {
      IsAlloc(mem.Get(a))
    }

    /** add_to_bucket prepends. */
    method AddToBucket(blockPtr: int, bucket: int, ghost s: seq<int>)
      requires mem.Valid() && 0 <= bucket < 128 && bucket % 4 == 0
      requires Chain(mem.data[..], bucket, s) && Nodes(mem.data[..], [blockPtr] + s)
      modifies mem.data
      ensures Chain(mem.data[..], bucket, [blockPtr] + s)
      ensures Relinks(old(mem.data[..]), mem.data[..], bucket, [blockPtr] + s)
    {
      hide Load, NodeAt, Relinks;
      ghost var m := mem.data[..];
      ghost var t := [blockPtr] + s;
      NodesApart(m, t, t);
      assert t[0] in t && (s != [] ==> t[1] in t && t[1] == s[0]);
      var node := mem.Get(bucket);
      mem.Put(blockPtr, 0);
      mem.Put(blockPtr + 4, 0);
      if node == 0 {
        mem.Put(bucket, blockPtr);
      } else {
        mem.Put(node + 4, blockPtr);
        mem.Put(blockPtr, node);
        mem.Put(bucket, blockPtr);
      }
      assert Prepends(m, mem.data[..], bucket, blockPtr, s);
      PrependChain(m, mem.data[..], bucket, blockPtr, s);
    }

    /** remove_from_bucket deletes that node and keeps the order of the others; the previous
        node it follows in its second case is never null. */
    method RemoveFromBucket(blockPtr: int, bucket: int, ghost s: seq<int>, ghost i: nat)
      requires mem.Valid() && 0 <= bucket < 128 && bucket % 4 == 0
      requires Chain(mem.data[..], bucket, s) && Nodes(mem.data[..], s)
      requires i < |s| && s[i] == blockPtr
      modifies mem.data
      ensures Chain(mem.data[..], bucket, Without(s, blockPtr))
      ensures Relinks(old(mem.data[..]), mem.data[..], bucket, s)
    {
      hide Load, Chain, Nodes, Relinks, Without;
      ghost var m := mem.data[..];
      ChainAt(m, bucket, s, i);
      if mem.Get(bucket) == blockPtr {
        mem.Put(bucket, mem.Get(blockPtr));
        var node := mem.Get(blockPtr);
        if node != 0 {
          mem.Put(node + 4, 0);
        }
      } else {
        var node := mem.Get(blockPtr + 4);
        assert node != 0;
        if node != 0 {
          mem.Put(node, mem.Get(blockPtr));
        }
        var node2 := mem.Get(node);
        if node2 != 0 {
          mem.Put(node2 + 4, node);
        }
      }
      assert Unlinks(m, mem.data[..], bucket, s, i);
      UnlinkChain(m, mem.data[..], bucket, s, i);
    }

    /** find_bucket: the address of the first bucket whose bound is not below the size,
        0 when the size is above the last bound. */
    method FindBucket(words: nat) returns (bucket: int)
      ensures words * WSIZE <= TWO31 ==> bucket == 4 * BucketOf(words * WSIZE) && bucket < 128
      ensures words * WSIZE > TWO31 ==> bucket == 0
    {
      Pow2Of31();
      for k := 0 to 32
        invariant forall j :: 0 <= j < k ==> Pow2(j) < words * WSIZE
      {
        if words * WSIZE <= Pow2(k) {
          BucketUnique(words * WSIZE, k, BucketOf(words * WSIZE));
          Pow2Monotone(k, 31);
          return 4 * k;
        }
      }
      return 0;
    }

    /** add_to_seglist */
    method AddToSeglist(ptr: int, ghost skip: set<int>)
      requires Laid() && Listed(heap, skip) && IsFree(heap, ptr) && ptr in skip
      modifies mem.data, this`heap
      ensures CanList(old(heap), ptr) && heap == Enlist(old(heap), ptr) && SameBlocks(old(heap), heap)
      ensures Laid() && Listed(heap, skip - {ptr})
      ensures Keeps(old(mem.data[..]), mem.data[..], Live(old(heap)))
    {
      hide BucketOf, Load, Tiled, Listed, Chain, Nodes, Relinks, Rep, Keeps, Enlist, Live, Pack, SizeOf, IsAlloc;
      ghost var m := mem.data[..];
      BlockNode(m, heap, ptr);
      TagsOf(m, heap, ptr);
      var size := GetSize(ptr - 4);
      var bucket := FindBucket(size / WSIZE);
      WholeWords(size);
      ghost var k := BucketOf(size);
      ListReadyFor(m, heap, skip, k, ptr);
      AddToBucket(ptr, bucket, heap.lists[k]);
      EnlistRep(m, mem.data[..], heap, skip, ptr);
      EnlistListed(heap, ptr, skip);
      heap := Enlist(heap, ptr);
    }

    /** remove_from_seglist */
    method RemoveFromSeglist(ptr: int, ghost skip: set<int>)
      requires Laid() && Listed(heap, skip) && IsFree(heap, ptr) && ptr !in skip
      modifies mem.data, this`heap
      ensures CanList(old(heap), ptr) && heap == Unlist(old(heap), ptr) && SameBlocks(old(heap), heap)
      ensures Laid() && Listed(heap, skip + {ptr})
      ensures Keeps(old(mem.data[..]), mem.data[..], Live(old(heap)))
    {
      hide BucketOf, Load, Tiled, Listed, Chain, Nodes, Relinks, Rep, Keeps, Unlist, Without, Live,
           Pack, SizeOf, IsAlloc;
      ghost var m := mem.data[..];
      BlockNode(m, heap, ptr);
      TagsOf(m, heap, ptr);
      var size := GetSize(ptr - 4);
      var bucket := FindBucket(size / WSIZE);
      WholeWords(size);
      ghost var k := BucketOf(size);
      ListReady(m, heap, skip, k);
      ghost var i := ListedAt(heap, skip, ptr);
      RemoveFromBucket(ptr, bucket, heap.lists[k], i);
      UnlistRep(m, mem.data[..], heap, skip, ptr);
      UnlistListed(heap, ptr, skip);
      heap := Unlist(heap, ptr);
    }

    /** The end of coalesce's cases 2 to 4: the tags of the run around b are written over
        memory n, its members are out of their lists, and the run joins its bucket. */
    method ListRun(lo: int, ghost hi: int, ghost h: Heap, ghost b: int, ghost n: seq<Word>)
      requires Tiled(h) && IsFree(h, b) && |h.lists| == 32
      requires lo == RunStart(h, b) && hi == RunEnd(h, b)
      requires SameBlocks(h, heap) && Tiled(heap) && Listed(heap, RunSet(h, b)) && Rep(n, heap)
      requires Swept(heap.lists, lo, hi) == Swept(h.lists, lo, hi)
      requires mem.Valid() && heap.brk == mem.brk && heap.max == mem.maxAddr
      requires Writes(n, mem.data[..], {lo - 4, hi - 8})
      requires Load(mem.data[..], lo - 4) == hi - lo == Load(mem.data[..], hi - 8)
      modifies mem.data, this`heap
      ensures Laid() && heap == Merge(h, b)
      ensures Keeps(n, mem.data[..], Live(h))
    {
      hide Load, Tiled, Listed, Rep, Keeps, Merge, RunStart, RunEnd, RunSet, Fuse, Live, ListsAvoid, BucketOf, Enlist,
           Swept, Writes;
      MergeSteps(h, heap, b, RunSet(h, b));
      WriteFused(n, mem.data[..], heap, lo, hi);
      heap := Fuse(heap, lo, hi);
      ghost var o := mem.data[..];
      AddToSeglist(lo, {lo});
      KeepsTrans(n, o, mem.data[..], Live(h));
    }

    /** coalesce, case 2: only the next block is free. */
    method JoinNext(bp: int)
      requires Laid() && IsFree(heap, bp) && Listed(heap, {bp})
      requires RunStart(heap, bp) == bp && IsFree(heap, bp + heap.blocks[bp].size)
      modifies mem.data, this`heap
      ensures Laid() && heap == Merge(old(heap), bp)
      ensures Keeps(old(mem.data[..]), mem.data[..], Live(old(heap)))
    {
      hide Load, Tiled, Listed, Rep, Keeps, Merge, RunStart, Live, BucketOf, Unlist, Pack, SizeOf, IsAlloc, Swept;
      ghost var m, h := mem.data[..], heap;
      TagsOf(m, heap, bp);
      var next := bp + GetSize(bp - 4);
      TagsOf(m, heap, next);
      var size := GetSize(bp - 4) + GetSize(next - 4);
      SumOf8(heap.blocks[bp].size, heap.blocks[next].size);
      RemoveFromSeglist(next, {bp});
      SweptUnlist(h, next, bp, bp + size);
      assert {bp} + {next} == RunSet(h, bp);
      ghost var n := mem.data[..];
      SizeTag(size);
      mem.Put(bp - 4, Pack(size, false));
      ghost var i := mem.data[..];
      mem.Put(bp + GetSize(bp - 4) - 8, Pack(size, false));
      TwoTags(n, i, mem.data[..], bp - 4, bp + size - 8, size);
      ListRun(bp, bp + size, h, bp, n);
      KeepsTrans(m, n, mem.data[..], Live(h));
    }

    /** coalesce, case 3: only the previous block is free. */
    method JoinPrev(bp: int) returns (r: int)
      requires Laid() && IsFree(heap, bp) && Listed(heap, {bp})
      requires RunStart(heap, bp) < bp && !IsFree(heap, bp + heap.blocks[bp].size)
      modifies mem.data, this`heap
      ensures Laid() && heap == Merge(old(heap), bp) && r == RunStart(old(heap), bp)
      ensures Keeps(old(mem.data[..]), mem.data[..], Live(old(heap)))
    {
      hide Load, Tiled, Listed, Rep, Keeps, Merge, RunStart, Live, BucketOf, Unlist, Pack, SizeOf, IsAlloc, Swept;
      ghost var m, h := mem.data[..], heap;
      TagsOf(m, heap, bp);
      PrevTag(m, heap, bp);
      var prev := bp - GetSize(bp - 8);
      TagsOf(m, heap, prev);
      var size := GetSize(bp - 4) + GetSize(prev - 4);
      SumOf8(heap.blocks[bp].size, heap.blocks[prev].size);
      RemoveFromSeglist(prev, {bp});
      ghost var hi := prev + size;
      SweptUnlist(h, prev, prev, hi);
      assert {bp} + {prev} == RunSet(h, bp);
      ghost var n := mem.data[..];
      TagsOf(n, heap, bp);
      TagsOf(n, heap, prev);
      SizeTag(size);
      mem.Put(bp + GetSize(bp - 4) - 8, Pack(size, false));
      ghost var i := mem.data[..];
      mem.Put(bp - GetSize(bp - 8) - 4, Pack(size, false));
      TwoTags(n, i, mem.data[..], hi - 8, prev - 4, size);
      r := bp - GetSize(bp - 8);
      ListRun(r, hi, h, bp, n);
      KeepsTrans(m, n, mem.data[..], Live(h));
    }

    /** coalesce, case 4, first half: both neighbours leave their lists, which may be one
        list in which they are adjacent. */
    method UnlistBoth(bp: int)
      requires Laid() && IsFree(heap, bp) && Listed(heap, {bp})
      requires RunStart(heap, bp) < bp && IsFree(heap, bp + heap.blocks[bp].size)
      modifies mem.data, this`heap
      ensures Laid() && SameBlocks(old(heap), heap) && |old(heap).lists| == 32
      ensures Listed(heap, RunSet(old(heap), bp))
      ensures var h := old(heap);
        Swept(heap.lists, RunStart(h, bp), RunEnd(h, bp)) == Swept(h.lists, RunStart(h, bp), RunEnd(h, bp))
      ensures Keeps(old(mem.data[..]), mem.data[..], Live(old(heap)))
    {
      hide Load, Tiled, Listed, Rep, Keeps, RunStart, RunEnd, Live, BucketOf, Unlist, Pack, SizeOf, IsAlloc, Swept;
      ghost var m, h := mem.data[..], heap;
      ghost var lo, hi := RunStart(h, bp), RunEnd(h, bp);
      TagsOf(m, h, bp);
      NextTag(m, h, bp);
      var next := bp + GetSize(bp - 4);
      TagsOf(m, h, next);
      RemoveFromSeglist(next, {bp});
      SweptUnlist(h, next, lo, hi);
      ghost var n, g := mem.data[..], heap;
      PrevTag(m, h, bp);
      SameRun(h, g, bp);
      PrevTag(n, g, bp);
      RemoveFromSeglist(bp - GetSize(bp - 8), {bp} + {next});
      SweptUnlist(g, lo, lo, hi);
      KeepsTrans(m, n, mem.data[..], Live(h));
      assert {bp} + {next} + {lo} == RunSet(h, bp);
    }

    /** coalesce, case 4, second half: the outer tags of the three blocks. */
    method FuseBoth(bp: int, size: int, ghost h: Heap) returns (r: int)
      requires Laid() && Tiled(h) && IsFree(h, bp) && |h.lists| == 32 && SameBlocks(h, heap)
      requires RunStart(h, bp) < bp && IsFree(h, bp + h.blocks[bp].size)
      requires Listed(heap, RunSet(h, bp)) && size == RunEnd(h, bp) - RunStart(h, bp)
      requires Swept(heap.lists, RunStart(h, bp), RunEnd(h, bp)) == Swept(h.lists, RunStart(h, bp), RunEnd(h, bp))
      modifies mem.data, this`heap
      ensures Laid() && heap == Merge(h, bp) && r == RunStart(h, bp)
      ensures Keeps(old(mem.data[..]), mem.data[..], Live(h))
    {
      hide Load, Tiled, Listed, Rep, Keeps, Merge, RunStart, RunEnd, RunSet, Live, Pack, SizeOf, IsAlloc, Swept;
      ghost var n := mem.data[..];
      ghost var lo, hi := RunStart(h, bp), RunEnd(h, bp);
      RunWords(n, h, heap, bp);
      SizeTag(size);
      mem.Put(bp - GetSize(bp - 8) - 4, Pack(size, false));
      ghost var i := mem.data[..];
      var next := bp + GetSize(bp - 4);
      mem.Put(next + GetSize(next - 4) - 8, Pack(size, false));
      TwoTags(n, i, mem.data[..], lo - 4, hi - 8, size);
      r := bp - GetSize(bp - 8);
      ListRun(r, hi, h, bp, n);
    }

    /** coalesce, case 4: both neighbours are free. */
    method JoinBoth(bp: int) returns (r: int)
      requires Laid() && IsFree(heap, bp) && Listed(heap, {bp})
      requires RunStart(heap, bp) < bp && IsFree(heap, bp + heap.blocks[bp].size)
      modifies mem.data, this`heap
      ensures Laid() && heap == Merge(old(heap), bp) && r == RunStart(old(heap), bp)
      ensures Keeps(old(mem.data[..]), mem.data[..], Live(old(heap)))
    {
      hide Load, Tiled, Listed, Rep, Keeps, Merge, RunStart, RunEnd, RunSet, Live, Pack, SizeOf, IsAlloc, Swept;
      ghost var m, h := mem.data[..], heap;
      TagsOf(m, heap, bp);
      PrevTag(m, heap, bp);
      NextTag(m, heap, bp);
      var prev, next := bp - GetSize(bp - 8), bp + GetSize(bp - 4);
      TagsOf(m, heap, prev);
      TagsOf(m, heap, next);
      var size := GetSize(bp - 4) + GetSize(prev - 4) + GetSize(next + GetSize(next - 4) - 8);
      SumOf8(heap.blocks[bp].size, heap.blocks[prev].size);
      SumOf8(heap.blocks[bp].size + heap.blocks[prev].size, heap.blocks[next].size);
      ghost var hi := prev + size;
      UnlistBoth(bp);
      ghost var n := mem.data[..];
      r := FuseBoth(bp, size, h);
      KeepsTrans(m, n, mem.data[..], Live(h));
    }

    /** coalesce: the block and its free neighbours become one free, listed block; the result
        is where that block starts. */
    method Coalesce(bp: int) returns (r: int)
      requires Laid() && IsFree(heap, bp) && Listed(heap, {bp})
      modifies mem.data, this`heap
      ensures Laid() && heap == Merge(old(heap), bp) && r == RunStart(old(heap), bp)
      ensures Keeps(old(mem.data[..]), mem.data[..], Live(old(heap)))
    {
      hide Load, Tiled, Listed, Rep, Keeps, Merge, RunStart, RunEnd, Live, BucketOf, Pack, SizeOf, IsAlloc, Swept;
      ghost var m, h := mem.data[..], heap;
      TagsOf(m, heap, bp);
      PrevTag(m, heap, bp);
      NextTag(m, heap, bp);
      var prev := bp - GetSize(bp - 8);
      var prevAlloc := GetAlloc(prev + GetSize(prev - 4) - 8);
      var nextAlloc := GetAlloc(bp + GetSize(bp - 4) - 4);
      r := bp;
      if prevAlloc && nextAlloc {
        AloneIsMerged(heap, bp);
        AddToSeglist(bp, {bp});
      } else if prevAlloc && !nextAlloc {
        JoinNext(bp);
      } else if !prevAlloc && nextAlloc {
        r := JoinPrev(bp);
      } else {
        r := JoinBoth(bp);
      }
    }

    /** extend_heap: on success the heap has grown by an even number of words and the new
        block has joined the free run before it; on failure (null) nothing has changed. */
    method ExtendHeap(words: nat) returns (bp: int)
      requires Laid() && Inv(heap) && 8 <= words && words * WSIZE < TWO31 + 4
      modifies mem`brk, mem.data, this`heap
      ensures Laid() && Inv(heap)
      ensures var h, size := old(heap), (words + words % 2) * WSIZE;
        if h.brk + size <= h.max then
          && size % 8 == 0 && size >= MINBLOCK && heap == Extend(h, size)
          && bp == RunStart(Grown(h, size), h.brk)
        else
          heap == h && bp == 0
      ensures Keeps(old(mem.data[..]), mem.data[..], Live(old(heap)))
    {
      hide Load, Listed, Rep, Keeps, Merge, RunStart, RunEnd, Live, Extend, BucketOf;
      ghost var m, h := mem.data[..], heap;
      var size := if words % 2 == 1 then (words + 1) * WSIZE else words * WSIZE;
      EvenWords(words);
      BrkAligned(h);
      if size >= TWO31 {
        SameKeeps(m, Live(h));
      }
      var r := mem.Sbrk(size);
      if r == -1 {
        SameKeeps(m, Live(h));
        return 0;
      }
      bp := r;
      BreakWords(h, size);
      mem.Put(bp - 4, Pack(size, false));
      SizeTag(size);
      ghost var i := mem.data[..];
      mem.Put(bp + GetSize(bp - 4) - 8, Pack(size, false));
      ghost var j := mem.data[..];
      mem.Put(bp + GetSize(bp - 4) - 4, Pack(0, true));
      ThreeTags(m, i, j, mem.data[..], bp, size);
      BreakUnlisted(h, h.brk + size + 8);
      WriteGrown(m, mem.data[..], h, size);
      GrownReady(h, size);
      heap := Grown(h, size);
      ghost var n := mem.data[..];
      bp := Coalesce(bp);
      KeepsTrans(m, n, mem.data[..], Live(h));
      ExtendIs(h, size);
    }

    /** find_fit: the first block large enough, in list order, from the size's own bucket on;
        null when there is none. */
    method FindFit(words: nat) returns (node: int)
      requires Laid() && Inv(heap) && words * WSIZE <= TWO31
      ensures |heap.lists| == 32 && node == Heaps.FindFit(heap, words * WSIZE)
    {
      hide Load, Tiled, Listed, Coalesced, Rep, BucketOf, Nodes, Chain, FirstFit, FitFrom, SizeOf;
      ghost var m, size := mem.data[..], words * WSIZE;
      BrkAligned(heap);
      ListReady(m, heap, {}, 0);
      var bucket := FindBucket(words);
      while bucket < 128
        invariant 0 <= bucket <= 128 && bucket % 4 == 0
        invariant FitFrom(heap, bucket / 4, size) == Heaps.FindFit(heap, size)
      {
        ghost var k := bucket / 4;
        ghost var s := heap.lists[k];
        ListReady(m, heap, {}, k);
        node := mem.Get(bucket);
        ghost var i := 0;
        ListHead(m, bucket, s);
        while node != 0
          invariant 0 <= i <= |s| && node == if i < |s| then s[i] else 0
          invariant FirstFit(heap, s[i..], size) == FirstFit(heap, s, size)
          decreases |s| - i
        {
          ChainAt(m, bucket, s, i);
          ListedTag(m, heap, k, i);
          FirstFitStep(heap, s, i, size);
          if words * WSIZE <= GetSize(node - 4) {
            FitFromStep(heap, k, size);
            return;
          }
          node := mem.Get(node);
          i := i + 1;
        }
        ListTail(m, heap, k, i, size);
        FitFromStep(heap, k, size);
        bucket := bucket + 4;
      }
      FitFromStep(heap, 32, size);
      node := 0;
    }

    /** place, the tags of a block that is cut: the front is allocated, the rest is free and
        not yet in a list. */
    method CutTags(bp: int, size: int) returns (rest: int)
      requires Laid() && IsFree(heap, bp) && ListsAvoid(heap, bp, bp + heap.blocks[bp].size)
      requires MINBLOCK <= size && size % 8 == 0 && heap.blocks[bp].size - size >= MINBLOCK
      modifies mem.data, this`heap
      ensures Laid() && heap == Split(old(heap), bp, size) && rest == bp + size
      ensures Keeps(old(mem.data[..]), mem.data[..], Live(old(heap)))
    {
      hide Load, Tiled, Rep, Keeps, Live, Split, SizeOf, ListsAvoid, SplitWords;
      ghost var n, u := mem.data[..], heap;
      TagsOf(n, u, bp);
      var csize := GetSize(bp - 4);
      BrkAligned(u);
      SumOf8(bp, size);
      SumOf8(csize, size);
      WordsNear(bp + size);
      mem.Put(bp - 4, Pack(size, true));
      ghost var i := mem.data[..];
      mem.Put(bp + GetSize(bp - 4) - 8, Pack(size, true));
      ghost var j := mem.data[..];
      rest := bp + GetSize(bp - 4);
      SizeTag(csize - size);
      mem.Put(rest - 4, Pack(csize - size, false));
      ghost var o := mem.data[..];
      mem.Put(rest + GetSize(rest - 4) - 8, Pack(csize - size, false));
      FourTags(n, i, j, o, mem.data[..], bp, size, csize);
      SplitLaid(n, mem.data[..], u, bp, size);
      heap := Split(u, bp, size);
    }

    /** place, the tags of a block that is taken whole. */
    method WholeTags(bp: int, ghost size: int)
      requires Laid() && IsFree(heap, bp) && ListsAvoid(heap, bp, bp + heap.blocks[bp].size)
      requires MINBLOCK <= size <= heap.blocks[bp].size < size + MINBLOCK && size % 8 == 0
      modifies mem.data, this`heap
      ensures Laid() && heap == Split(old(heap), bp, size)
      ensures Keeps(old(mem.data[..]), mem.data[..], Live(old(heap)))
    {
      hide Load, Tiled, Rep, Keeps, Live, Split, SizeOf, ListsAvoid, SplitWords;
      ghost var n, u := mem.data[..], heap;
      TagsOf(n, u, bp);
      var csize := GetSize(bp - 4);
      BrkAligned(u);
      mem.Put(bp - 4, Pack(csize, true));
      ghost var i := mem.data[..];
      mem.Put(bp + GetSize(bp - 4) - 8, Pack(csize, true));
      TwoAllocTags(n, i, mem.data[..], bp, size, csize);
      SplitLaid(n, mem.data[..], u, bp, size);
      heap := Split(u, bp, size);
    }

    /** place: cuts the block to size when at least 32 bytes are left over. */
    method Place(bp: int, size: int)
      requires Laid() && Inv(heap) && IsFree(heap, bp)
      requires MINBLOCK <= size <= heap.blocks[bp].size && size % 8 == 0
      modifies mem.data, this`heap
      ensures Laid() && Inv(heap) && heap.brk == old(heap.brk)
      ensures |old(heap).lists| == 32 && old(heap).blocks[bp].size <= TWO31
      ensures heap == Heaps.Place(old(heap), bp, size)
      ensures Keeps(old(mem.data[..]), mem.data[..], Live(old(heap)))
    {
      hide Load, Tiled, Listed, Rep, Keeps, Live, BucketOf, Split, Unlist, Enlist, SizeOf, ListsAvoid, Coalesced;
      ghost var m, h := mem.data[..], heap;
      TagsOf(m, heap, bp);
      PlaceKeeps(heap, bp, size);
      PlaceSplits(heap, bp, size);
      var csize := GetSize(bp - 4);
      RemoveFromSeglist(bp, {});
      ghost var n, u := mem.data[..], heap;
      assert {} + {bp} == {bp};
      SkipAvoidsBlock(u, bp);
      SplitShape(u, bp, size);
      if csize - size >= 4 * DSIZE {
        var rest := CutTags(bp, size);
        ghost var o := mem.data[..];
        KeepsTrans(m, n, o, Live(h));
        AddToSeglist(rest, {rest});
        SplitKeeps(o, mem.data[..], u, bp, size);
        KeepsTrans(m, o, mem.data[..], Live(h));
      } else {
        WholeTags(bp, size);
        KeepsTrans(m, n, mem.data[..], Live(h));
      }
    }

    /** mm_free */
    method MmFree(ptr: int)
      requires Valid() && IsLive(heap, ptr - DSIZE)
      modifies mem.data, this`heap
      ensures Valid() && heap == FreeStep(old(heap), ptr - DSIZE)
      ensures Keeps(old(mem.data[..]), mem.data[..], Live(heap))
    {
      hide Load, Tiled, Listed, Coalesced, Rep, Keeps, Live, Merge, Fuse, SizeOf;
      ghost var m, h := mem.data[..], heap;
      var bp := ptr - DSIZE;
      TagsOf(m, h, bp);
      FreedReady(h, bp);
      FreeKeeps(h, bp);
      FreedIsFused(h, bp);
      BrkAligned(h);
      var size := GetSize(bp - 4);
      SizeTag(size);
      mem.Put(bp - 4, Pack(size, false));
      ghost var i := mem.data[..];
      mem.Put(bp + GetSize(bp - 4) - 8, Pack(size, false));
      TwoTags(m, i, mem.data[..], bp - 4, bp + size - 8, size);
      WriteFused(m, mem.data[..], h, bp, bp + size);
      heap := Freed(h, bp);
      ghost var n := mem.data[..];
      var r := Coalesce(bp);
      KeepsTrans(m, n, mem.data[..], Live(heap));
    }

    /** buckets_init: makes room for the bucket words, without looking whether there is any,
        and zeroes them. */
    method BucketsInit(bucketsCount: nat, start: int)
      requires mem.Valid() && start % 4 == 0 && 0 <= start && start + bucketsCount * WSIZE <= mem.maxAddr
      requires bucketsCount * WSIZE < TWO31 && mem.brk + bucketsCount * WSIZE <= mem.maxAddr
      modifies mem`brk, mem.data
      ensures mem.Valid() && mem.brk == old(mem.brk) + bucketsCount * WSIZE
      ensures forall a :: start <= a < start + bucketsCount * WSIZE ==> Load(mem.data[..], a) == 0
    {
      var r := mem.Sbrk(WSIZE * bucketsCount);
      var bucket := start;
      var count: nat := bucketsCount;
      while count != 0
        invariant mem.brk == old(mem.brk) + bucketsCount * WSIZE
        invariant bucket == start + (bucketsCount - count) * WSIZE && bucket % 4 == 0 && count <= bucketsCount
        invariant forall a :: start <= a < bucket ==> Load(mem.data[..], a) == 0
        decreases count
      {
        ghost var m := mem.data[..];
        mem.Put(bucket, 0);
        forall a | start <= a < bucket + WSIZE ensures Load(mem.data[..], a) == 0 {
          if bucket < a {
            BetweenWords(mem.data[..], bucket, a);
          }
        }
        bucket := bucket + WSIZE;
        count := count - 1;
      }
    }

    /** mm_init on an empty break, whatever the buffer holds. */
    method MmInit() returns (r: int)
      requires mem.Valid() && mem.brk == 0
      modifies this, mem`brk, mem.data
      ensures Valid() && heap == Initial(mem.maxAddr)
      ensures r == if FIRST + CHUNKSIZE <= mem.maxAddr then 0 else -1
    {
      hide Load, Stored, Inv, Rep, Live, Extend, Grown;
      var start := mem.Sbrk(4 * WSIZE);
      if start == -1 {
        return -1;
      }
      heapListp := start;
      BucketsInit(32, heapListp);
      heapListp := heapListp + 32 * WSIZE;
      ghost var m := mem.data[..];
      mem.Put(heapListp, 0);
      ghost var m1 := mem.data[..];
      mem.Put(heapListp + WSIZE, Pack(DSIZE, true));
      ghost var m2 := mem.data[..];
      mem.Put(heapListp + 2 * WSIZE, Pack(DSIZE, true));
      ghost var m3 := mem.data[..];
      mem.Put(heapListp + 3 * WSIZE, Pack(0, true));
      PrologueWords(m, m1, m2, m3, mem.data[..]);
      heapListp := heapListp + 2 * WSIZE;
      BareInv(mem.maxAddr);
      heap := Bare(mem.maxAddr);
      BareRep(mem.data[..], mem.maxAddr);
      ExtendStarts(heap, CHUNKSIZE);
      if FIRST + CHUNKSIZE <= mem.maxAddr {
        InitialIsExtended(mem.maxAddr);
      }
      var bp := ExtendHeap(CHUNKSIZE / WSIZE);
      if bp == 0 {
        return -1;
      }
      return 0;
    }

    /** Before the first call, or at any time after it. */
    ghost predicate Ready()
      reads this, mem, mem.data
    {
      Valid() || (heapListp == 0 && mem.Valid() && mem.brk == 0)
    }

    /** The heap that mm_malloc works on: it initializes itself when need be. */
    ghost function Start(): Heap
      reads this, mem
    {
      if heapListp == 0 then Initial(mem.maxAddr) else heap
    }

    /** mm_malloc, for requests that find_bucket has a bucket for. */
    method MmMalloc(size: Word) returns (p: int)
      requires Ready() && Request(size)
      modifies this, mem`brk, mem.data
      ensures Valid() && heap.max == old(Start()).max
      ensures Inv(old(Start())) && (heap, p) == Malloc(old(Start()), size)
      ensures Keeps(old(mem.data[..]), mem.data[..], Live(old(Start())))
    {
      hide Load, Tiled, Listed, Coalesced, Rep, Keeps, Live, Heaps.Place, Heaps.FindFit, Extend, RunStart, Initial;
      var newsize := Rounded(size);
      RoundedExact(size);
      ghost var m0, h := mem.data[..], Start();
      if heapListp == 0 {
        InitialInv(mem.maxAddr);
        var r := MmInit();
        EmptyKeeps(m0, mem.data[..], Live(h));
      } else {
        SameKeeps(m0, Live(h));
      }
      MallocKeeps(h, size);
      ghost var m := mem.data[..];
      if size == 0 {
        return 0;
      }
      WholeWords(newsize);
      var bp := FindFit(newsize / WSIZE);
      if bp != 0 {
        FitFound(h, newsize);
        Place(bp, newsize);
        KeepsTrans(m0, m, mem.data[..], Live(h));
        return bp + DSIZE;
      }
      var extendsize := Max(newsize, CHUNKSIZE);
      WholeWords(extendsize);
      EvenWords(extendsize / WSIZE);
      bp := ExtendHeap(extendsize / WSIZE);
      ghost var n := mem.data[..];
      KeepsTrans(m0, m, n, Live(h));
      if bp == 0 {
        ExtendStarts(h, extendsize);
        return 0;
      }
      ExtendKeeps(h, extendsize);
      Place(bp, newsize);
      KeepsTrans(m0, n, mem.data[..], Live(h));
      return bp + DSIZE;
    }

    /** mm_realloc: the new block's first bytes are the old block's, as far as both the
        request and the old payload reach; no other block's bytes change. The copy may run
        up to 12 bytes past the old block and must end inside the buffer. */
    method MmRealloc(ptr: int, size: Word) returns (p: int)
      requires Ready() && Request(size) && (ptr != 0 ==> Valid())
      requires Inv(Start()) && CanRealloc(Start(), ptr, size)
      requires ptr != 0 && size > 0 ==> CopyInside(Start(), ptr, size)
      modifies this, mem`brk, mem.data
      ensures Valid() && (heap, p) == Realloc(old(Start()), ptr, size)
      ensures Keeps(old(mem.data[..]), mem.data[..], Live(old(Start())) - {ptr - DSIZE})
      ensures ptr != 0 && size > 0 ==>
        Moved(old(mem.data[..]), mem.data[..], ptr, p, Min(size, old(heap).blocks[ptr - DSIZE].size - 16))
    {
      hide Load, ByteAt, Tiled, Listed, Coalesced, Rep, Keeps, Live, Malloc, Initial, FreeStep, Allocates;
      ghost var m0, h := mem.data[..], Start();
      if ptr == 0 {
        p := MmMalloc(size);
        KeepsLess(m0, mem.data[..], Live(h), ptr - DSIZE);
        return;
      }
      if size == 0 {
        FreeKeeps(heap, ptr - DSIZE);
        MmFree(ptr);
        return 0;
      }
      ReallocReady(h, ptr, size);
      var newptr := MmMalloc(size);
      ghost var m, g := mem.data[..], heap;
      ReallocApart(h, g, ptr, newptr, size);
      TagsOf(m, g, ptr - DSIZE);
      var csize := GetSize(ptr - DSIZE - 4);
      if size < csize {
        csize := size;
      }
      mem.MemCpy(newptr, ptr, csize);
      ghost var n := mem.data[..];
      CopyWrites(m, n, newptr - DSIZE, csize, g.blocks[newptr - DSIZE].size);
      ClientWrite(m, n, g, newptr - DSIZE);
      MmFree(ptr);
      FreeKeeps(g, ptr - DSIZE);
      ReallocData(m0, m, n, mem.data[..], h, g, ptr, newptr, size);
      ReallocOthers(m0, m, n, mem.data[..], h, g, ptr, newptr, size);
      return newptr;
    }

    /** Memory that mm_check can walk, sound or not. */
    ghost predicate Checkable()
      reads this, mem, mem.data
    {
      && heapListp == 136 && mem.Valid() && heap.brk == mem.brk && heap.max == mem.maxAddr
      && Walkable(mem.data[..], heap)
    }

    /** mm_check, part 1: the walk from the prologue, comparing header and footer. */
    method TagsMatch() returns (ok: bool)
      requires Checkable()
      ensures ok == TagsAgree(mem.data[..], heap)
    {
      hide Load, Walkable, SizeOf, Pack;
      ghost var m := mem.data[..];
      PrologueSize(m, heap);
      var bp := heapListp + GetSize(heapListp - 4);
      while bp <= mem.HeapHi()
        invariant bp == heap.brk || bp in heap.blocks
        invariant forall b :: b in heap.blocks && b < bp ==> TagAgrees(m, heap, b)
        decreases heap.brk - bp
      {
        HeaderOf(m, heap, bp);
        if mem.Get(bp - 4) != mem.Get(bp + GetSize(bp - 4) - 8) {
          assert !TagAgrees(m, heap, bp);
          return false;
        }
        bp := bp + GetSize(bp - 4);
      }
      WalkableTiled(m, heap);
      WalkedAll(heap, bp);
      return true;
    }

    /** mm_check, part 2, as its comment means it: every listed block is marked free. */
    method ListsAreFree() returns (ok: bool)
      requires Checkable()
      ensures ok == ListedAreFree(heap)
    {
      hide Load, Walkable, Chain, Nodes, SizeOf, IsAlloc;
      ghost var m := mem.data[..];
      ListWalkable(m, heap, 0);
      var bucket := 0;
      while bucket < 128
        invariant 0 <= bucket <= 128 && bucket % 4 == 0
        invariant forall k, x :: 0 <= k < bucket / 4 && x in heap.lists[k] ==> IsFree(heap, x)
      {
        ghost var k, i := bucket / 4, 0;
        ghost var s := heap.lists[k];
        ListWalkable(m, heap, k);
        ListHead(m, bucket, s);
        var node := mem.Get(bucket);
        while node != 0
          invariant 0 <= i <= |s| && node == if i < |s| then s[i] else 0
          invariant node == 0 ==> i == |s|
          invariant forall j :: 0 <= j < i ==> IsFree(heap, s[j])
          decreases |s| - i
        {
          ChainAt(m, bucket, s, i);
          assert s[i] in s;
          if GetAlloc(node - 4) {
            assert s[i] in heap.lists[k];
            return false;
          }
          node := mem.Get(node);
          i := i + 1;
        }
        bucket := bucket + 4;
      }
      return true;
    }

    /** mm_check, part 2, as written: without braces its loop body returns at the first node,
        so it gets past the lists exactly when they are all empty. */
    method ListsAreEmpty() returns (ok: bool)
      requires Checkable()
      ensures ok == NothingListed(heap)
    {
      hide Load, Walkable, Chain, Nodes;
      ghost var m := mem.data[..];
      ListWalkable(m, heap, 0);
      var bucket := 0;
      while bucket < 128
        invariant 0 <= bucket <= 128 && bucket % 4 == 0
        invariant forall k :: 0 <= k < bucket / 4 ==> heap.lists[k] == []
      {
        ghost var s := heap.lists[bucket / 4];
        ListWalkable(m, heap, bucket / 4);
        ListHead(m, bucket, s);
        if s != [] {
          ChainAt(m, bucket, s, 0);
        }
        var node := mem.Get(bucket);
        if node != 0 {
          return false;
        }
        bucket := bucket + 4;
      }
      return true;
    }

    /** mm_check, part 3: no free block is followed by a free block. */
    method NoneEscaped() returns (ok: bool)
      requires Checkable()
      ensures ok == Coalesced(heap, {})
    {
      hide Load, Walkable, Coalesced, SizeOf, Pack, IsAlloc;
      ghost var m := mem.data[..];
      PrologueSize(m, heap);
      var bp := heapListp + GetSize(heapListp - 4);
      while bp <= mem.HeapHi()
        invariant bp == heap.brk || bp in heap.blocks
        invariant forall b :: b in heap.blocks && b < bp ==> !FreePair(heap, b)
        decreases heap.brk - bp
      {
        HeaderOf(m, heap, bp);
        if !GetAlloc(bp - 4) && !GetAlloc(bp + GetSize(bp - 4) - 4) {
          PairEscapes(heap, bp);
          return false;
        }
        bp := bp + GetSize(bp - 4);
      }
      WalkableTiled(m, heap);
      WalkedAll(heap, bp);
      PairsAll(heap);
      return true;
    }

    /** What the checks find on a reachable heap. */
    lemma WhenSound()
      ensures Valid() ==>
        && Checkable() && TagsAgree(mem.data[..], heap) && ListedAreFree(heap) && Coalesced(heap, {})
        && (NothingListed(heap) <==> forall x :: !IsFree(heap, x))
    {
      if Valid() {
        SoundPasses(mem.data[..], heap);
      }
    }

    /** mm_check as its three comments mean it: 1 exactly when headers match footers, listed
        blocks are free and no two free blocks are adjacent. */
    method MmCheckIntended() returns (r: int)
      requires Checkable()
      ensures r == if TagsAgree(mem.data[..], heap) && ListedAreFree(heap) && Coalesced(heap, {}) then 1 else 0
      ensures Valid() ==> r == 1
    {
      hide Tiled, Walkable, Load, Listed, Coalesced, TagsAgree, ListedAreFree, Rep;
      var tags := TagsMatch();
      if !tags {
        WhenSound();
        return 0;
      }
      var lists := ListsAreFree();
      if !lists {
        WhenSound();
        return 0;
      }
      var pairs := NoneEscaped();
      WhenSound();
      return if pairs then 1 else 0;
    }

    /** mm_check as written: part 2 lets no listed block pass, so a reachable heap passes
        exactly when it has no free block. */
    method MmCheck() returns (r: int)
      requires Checkable()
      ensures r == if TagsAgree(mem.data[..], heap) && NothingListed(heap) && Coalesced(heap, {}) then 1 else 0
      ensures Valid() ==> r == if exists x :: IsFree(heap, x) then 0 else 1
    {
      hide Tiled, Walkable, Load, Listed, Coalesced, TagsAgree, NothingListed, ListedAreFree, Rep;
      WhenSound();
      var tags := TagsMatch();
      if !tags {
        return 0;
      }
      var empty := ListsAreEmpty();
      if !empty {
        return 0;
      }
      var pairs := NoneEscaped();
      return if pairs then 1 else 0;
    }
  }
}
