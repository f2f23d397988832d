/** Inputs on which the code does not do what its comments or its driver expect. */
module Findings {
  import opened Words
  import opened Buckets
  import opened Heaps
  import opened MemLib
  import opened Laws
  import opened Clients
  import opened Runs
  import opened MmSteps
  import opened Mm

  // ---------- a copy that leaves the buffer ----------

  /** Every allocation of this trace succeeds, and its last operation copies one byte from
      past the end of the 20 MB buffer. */
  const OVERRUN := [AllocOp(0, 20967248), AllocOp(1, 4064), FreeOp(0), ReallocOp(1, 4089)]

  lemma PlacedBlocks(h: Heap, b: int, size: int)
    requires |h.lists| == 32 && b in h.blocks && 0 <= size <= h.blocks[b].size <= TWO31
    ensures Place(h, b, size).blocks == Split(h, b, size).blocks
    ensures Place(h, b, size).max == h.max && Place(h, b, size).brk == h.brk
  {
  }

  /** The only free block is the one that malloc takes. */
  lemma MallocTakes(h: Heap, b: int, n: int)
    requires Inv(h) && Request(n) && 0 < n && Fits(h, b, Need(n)) && forall x :: IsFree(h, x) ==> x == b
    ensures var (g, p) := Malloc(h, n);
      && p == b + DSIZE && g.blocks == Split(h, b, Need(n)).blocks
      && Inv(g) && g.brk == h.brk && g.max == h.max
  {
    hide Inv, Malloc, Place, FindFit, Split;
    FindFitExact(h, Need(n));
    MallocFits(h, n);
    PlaceFor(h, b, n);
    PlacedBlocks(h, b, Need(n));
  }

  /** An empty heap without room grows by exactly what is asked for. */
  lemma EmptyGrows(h: Heap, s: int)
    requires Inv(h) && Live(h) == map[] && s % 8 == 0 && MINBLOCK <= s && h.brk + s <= h.max
    ensures var x := Extend(h, s);
      && Inv(x) && x.brk == h.brk + s && x.max == h.max
      && x.blocks == map[FIRST := Block(x.brk - FIRST, false)] && RunStart(Grown(h, s), h.brk) == FIRST
  {
    hide Tiled, Listed, Coalesced, Extend, Grown, RunStart;
    ExtendKeeps(h, s);
    NothingLive(Extend(h, s));
    BrkAligned(h);
  }

  /** The first malloc of a run, when it does not fit in the first chunk. */
  lemma FirstGrows(max: int, n: int)
    requires FIRST + CHUNKSIZE <= max <= TWO31 && Request(n) && CHUNKSIZE < Need(n)
    requires FIRST + CHUNKSIZE + Need(n) <= max
    ensures Inv(Initial(max))
    ensures var (g, p) := Malloc(Initial(max), n);
      var s := Need(n);
      && p == FIRST + DSIZE && Inv(g) && g.brk == FIRST + CHUNKSIZE + s && g.max == max
      && g.blocks == map[FIRST := Block(s, true), FIRST + s := Block(CHUNKSIZE, false)]
  {
    hide Inv, Extend, Grown, RunStart, FindFit, Place;
    var h, s := Initial(max), Need(n);
    InitialInv(max);
    FindFitExact(h, s);
    EmptyGrows(h, s);
    var x := Extend(h, s);
    MallocByGrowing(h, n);
    PlacedBlocks(x, FIRST, s);
  }

  /** The heap before the last operation: the second block ends at the break, which stands at
      the buffer's end, and below it everything is free. */
  lemma LowestIsFree(h: Heap, b: int, size: int)
    requires Inv(h) && Live(h) == map[b := size] && FIRST < b
    ensures IsFree(h, FIRST) && h.blocks[FIRST].size == b - FIRST
  {
    hide Listed;
    assert b in Live(h) && FIRST !in Live(h);
    assert BlockOk(h, b);
    assert IsFree(h, FIRST);
    var e := FIRST + h.blocks[FIRST].size;
    assert NextOk(h, FIRST);
    Disjoint(h, FIRST, b);
    assert !IsFree(h, e);
    assert e in h.blocks;
    assert e in Live(h);
  }

  /** The heaps of the run. */
  lemma OverrunHeaps()
    ensures Inv(Initial(MAX_HEAP)) && Request(20967248) && Request(4064) && Request(4089)
    ensures var (h1, p0) := Malloc(Initial(MAX_HEAP), 20967248);
      p0 == 152 && Inv(h1) && var (h2, p1) := Malloc(h1, 4064);
      p1 == 20967432 && Inv(h2) && IsLive(h2, 144) && var h3 := FreeStep(h2, 144);
      Inv(h3) && Malloc(h3, 4089).1 != 0 && !CopyInside(h3, 20967432, 4089)
  {
    hide Tiled, Listed, Coalesced, Malloc, FreeStep;
    FirstGrows(MAX_HEAP, 20967248);
    var (h1, p0) := Malloc(Initial(MAX_HEAP), 20967248);
    assert Fits(h1, 20967424, Need(4064));
    MallocTakes(h1, 20967424, 4064);
    var (h2, p1) := Malloc(h1, 4064);
    FreeKeeps(h2, 144);
    var h3 := FreeStep(h2, 144);
    assert Live(h2) == map[144 := 20967280, 20967424 := 4096];
    assert Live(h3) == map[20967424 := 4096];
    LowestIsFree(h3, 20967424, 4096);
    assert Fits(h3, FIRST, Need(4089));
    MallocOutcome(h3, 4089);
    assert 20967424 in Live(h3) && Live(h3)[20967424] == 4096;
    CopyLeavesBuffer(h3, 20967432, 4089);
  }

  lemma OverrunForm()
    ensures WellFormed(OVERRUN, {}, 2)
    ensures OVERRUN[0] == AllocOp(0, 20967248) && OVERRUN[1..][0] == AllocOp(1, 4064)
    ensures OVERRUN[1..][1..][0] == FreeOp(0) && OVERRUN[1..][1..][1..] == [ReallocOp(1, 4089)]
    ensures OVERRUN[1..][1..][1..][1..] == []
  {
    var s := OVERRUN;
    assert s[1..] == [AllocOp(1, 4064), FreeOp(0), ReallocOp(1, 4089)];
    assert s[1..][1..] == [FreeOp(0), ReallocOp(1, 4089)];
    assert s[1..][1..][1..] == [ReallocOp(1, 4089)];
    assert WellFormed(s[1..][1..][1..], {} + {0} + {1} - {0}, 2);
    assert WellFormed(s[1..][1..], {} + {0} + {1}, 2);
  }

  /** eval_mm_valid's run of this trace has undefined behaviour in C, although the trace is
      well formed and no operation runs out of room. */
  lemma OverrunExample()
    ensures WellFormed(OVERRUN, {}, 2) && TraceAccepted(MAX_HEAP, OVERRUN, 2, false)
    ensures !TraceDefined(MAX_HEAP, OVERRUN, 2, false)
  {
    hide Inv, Malloc, FreeStep, Realloc, Initial, Accepted, Defined, CopyInside, ClientInv, WellFormed;
    OverrunHeaps();
    OverrunForm();
    StartTracks(MAX_HEAP, OVERRUN, 2);
    var c0, s0 := Start(MAX_HEAP), OVERRUN;
    FirstPasses(c0, s0, 2, false);
    var c1, s1 := Step(c0, s0[0]), s0[1..];
    FirstPasses(c1, s1, 2, false);
    var c2, s2 := Step(c1, s1[0]), s1[1..];
    FirstPasses(c2, s2, 2, false);
    var c3, s3 := Step(c2, s2[0]), s2[1..];
    assert c3.ids[1] == 20967432;
    FirstPasses(c3, s3, 2, false);
    RunDone(Step(c3, s3[0]), 2, false);
  }

  // ---------- a copy to the null pointer ----------

  /** The second operation asks for more than the buffer holds. */
  const UNCHECKED := [AllocOp(0, 8), ReallocOp(0, 0x7000_0000)]

  lemma NoRoomAbove(h: Heap, n: int)
    requires Inv(h) && Request(n) && h.max < n
    ensures Malloc(h, n).1 == 0
  {
    hide Malloc, Listed, Coalesced, Tiled;
    BrkAligned(h);
    forall x | IsFree(h, x) ensures !Fits(h, x, Need(n)) {
      BlockEnds(h, x);
    }
    MallocOutcome(h, n);
  }

  lemma UncheckedForm()
    ensures WellFormed(UNCHECKED, {}, 1) && UNCHECKED[0] == AllocOp(0, 8)
    ensures UNCHECKED[1..] == [ReallocOp(0, 0x7000_0000)]
  {
    assert WellFormed(UNCHECKED[1..], {} + {0}, 1);
  }

  lemma ReallocUndefined(c: Client, n: int, signed: bool)
    requires Tracks(c, [ReallocOp(0, n)], 1) && 0 < n && !HasRoom(c, ReallocOp(0, n))
    ensures !Defined(c, [ReallocOp(0, n)], 1, signed)
  {
  }

  lemma FirstChunkFits(max: int, n: int)
    requires FIRST + CHUNKSIZE <= max <= TWO31 && Request(n) && 0 < n && Need(n) <= CHUNKSIZE
    ensures Inv(Initial(max)) && Malloc(Initial(max), n).1 != 0
  {
    hide Malloc, Inv;
    InitialInv(max);
    assert Fits(Initial(max), FIRST, Need(n));
    MallocOutcome(Initial(max), n);
  }

  /** mm_realloc copies to what a failed mm_malloc returned. */
  lemma UncheckedExample()
    ensures WellFormed(UNCHECKED, {}, 1) && CanStep(Start(MAX_HEAP), UNCHECKED[0])
    ensures var c := Step(Start(MAX_HEAP), UNCHECKED[0]);
      && Inv(c.heap) && 0 in c.ids && Request(0x7000_0000)
      && !CanRealloc(c.heap, c.ids[0], 0x7000_0000)
    ensures forall signed :: !TraceDefined(MAX_HEAP, UNCHECKED, 1, signed)
  {
    hide Inv, Malloc, Realloc, Initial, Accepted, Defined, WellFormed;
    UncheckedForm();
    StartTracks(MAX_HEAP, UNCHECKED, 1);
    FirstChunkFits(MAX_HEAP, 8);
    var c0 := Start(MAX_HEAP);
    TracksStep(c0, UNCHECKED, 1);
    StepKeeps(c0, UNCHECKED[0]);
    StartBreak(MAX_HEAP);
    var c := Step(c0, UNCHECKED[0]);
    OwnedLive(c, 0);
    NoRoomAbove(c.heap, 0x7000_0000);
    forall signed ensures !Defined(c0, UNCHECKED, 1, signed) {
      FirstPasses(c0, UNCHECKED, 1, signed);
      ReallocUndefined(c, 0x7000_0000, signed);
    }
  }

  // ---------- mm_check without braces ----------

  /** The heap that mm_init leaves is sound and has a free block ... */
  lemma InitialHasFree(max: int)
    requires FIRST + CHUNKSIZE <= max <= TWO31
    ensures Inv(Initial(max)) && IsFree(Initial(max), FIRST)
  {
    InitialInv(max);
  }

  /** ... so mm_check reports an error right after a successful mm_init. */
  method CheckAfterInit(a: Allocator) returns (init: int, check: int)
    requires a.mem.Valid() && FIRST + CHUNKSIZE <= a.mem.maxAddr
    modifies a, a.mem`brk, a.mem.data
    ensures a.Valid() && init == 0 && check == 0
  {
    hide Inv, Initial;
    a.mem.ResetBrk();
    init := a.MmInit();
    InitialHasFree(a.mem.maxAddr);
    a.WhenSound();
    check := a.MmCheck();
  }

  // ---------- lists are not ordered "max to min" ----------

  ghost predicate MaxToMin(h: Heap, list: seq<int>) {
    && (forall i :: 0 <= i < |list| ==> list[i] in h.blocks)
    && forall i, j :: 0 <= i < j < |list| ==> h.blocks[list[i]].size >= h.blocks[list[j]].size
  }

  /** add_to_seglist keeps that order exactly when the block is as large as the old head. */
  lemma EnlistOrder(h: Heap, x: int)
    requires CanList(h, x) && MaxToMin(h, h.lists[BucketOf(h.blocks[x].size)])
    ensures var s := h.lists[BucketOf(h.blocks[x].size)];
      var t := Enlist(h, x).lists[BucketOf(h.blocks[x].size)];
      MaxToMin(h, t) <==> s == [] || h.blocks[s[0]].size <= h.blocks[x].size
  {
    var s := h.lists[BucketOf(h.blocks[x].size)];
    var t := [x] + s;
    assert s != [] ==> t[0] == x && t[1] == s[0];
  }

  /** A freed block with live neighbours is the new head of its bucket. */
  lemma FreeAlone(h: Heap, b: int)
    requires Inv(h) && IsLive(h, b) && !IsFree(h, b + h.blocks[b].size)
    requires forall x :: IsFree(h, x) ==> x + h.blocks[x].size != b
    ensures var g, k := FreeStep(h, b), BucketOf(h.blocks[b].size);
      && Inv(g) && g.blocks == h.blocks[b := Block(h.blocks[b].size, false)]
      && k < 32 && |g.lists| == 32 && g.lists[k] != [] && g.lists[k][0] == b
  {
    hide Tiled, Listed, Coalesced, BucketOf, Merge;
    FreedReady(h, b);
    FreeKeeps(h, b);
    BlockEnds(h, b);
    BrkAligned(h);
    var f := Freed(h, b);
    assert RunStart(f, b) == b;
    AloneIsMerged(f, b);
  }

  lemma Bucket6(size: int)
    requires 32 < size <= 64
    ensures BucketOf(size) == 6
  {
    hide BucketOf;
    assert Pow2(5) == 32 && Pow2(6) == 64;
    BucketUnique(size, 6, BucketOf(size));
  }

  lemma CallsMalloc(s: State, cs: seq<Call>, b: int, n: int)
    requires Sound(s) && LegalRun(s, cs)
    requires var h := Run(s, cs).heap;
      Request(n) && 0 < n && Fits(h, b, Need(n)) && forall x :: IsFree(h, x) ==> x == b
    ensures LegalRun(s, cs + [CallMalloc(n)])
    ensures var h, g := Run(s, cs).heap, Run(s, cs + [CallMalloc(n)]).heap;
      Inv(g) && g.blocks == Split(h, b, Need(n)).blocks
  {
    hide Inv, Malloc, Split, LegalRun, Run, IsFree, Fits;
    MallocTakes(Run(s, cs).heap, b, n);
    RunSnoc(s, cs, CallMalloc(n));
  }

  lemma CallsFree(s: State, cs: seq<Call>, b: int)
    requires Sound(s) && LegalRun(s, cs)
    requires var h := Run(s, cs).heap;
      && IsLive(h, b) && !IsFree(h, b + h.blocks[b].size)
      && forall x :: IsFree(h, x) ==> x + h.blocks[x].size != b
    ensures LegalRun(s, cs + [CallFree(b + DSIZE)])
    ensures var h, g := Run(s, cs).heap, Run(s, cs + [CallFree(b + DSIZE)]).heap;
      var k := BucketOf(h.blocks[b].size);
      && Inv(g) && g.blocks == h.blocks[b := Block(h.blocks[b].size, false)]
      && k < 32 && |g.lists| == 32 && g.lists[k] != [] && g.lists[k][0] == b
  {
    hide Inv, FreeStep, LegalRun, Run, BucketOf;
    FreeAlone(Run(s, cs).heap, b);
    RunSnoc(s, cs, CallFree(b + DSIZE));
  }

  /** The first four blocks of a run. */
  const CARVE := [] + [CallMalloc(16)] + [CallMalloc(8)] + [CallMalloc(8)] + [CallMalloc(8)]

  lemma Carved()
    ensures var s := Fresh(MAX_HEAP);
      LegalRun(s, CARVE) &&
      Run(s, CARVE).heap.blocks == map[144 := Block(48, true), 192 := Block(40, true), 232 := Block(40, true),
                                       272 := Block(40, true), 312 := Block(3928, false)]
  {
    hide Inv, LegalRun, Run, Sound;
    var s := Fresh(MAX_HEAP);
    NoCalls(s);
    CallsMalloc(s, [], 144, 16);
    CallsMalloc(s, [] + [CallMalloc(16)], 192, 8);
    CallsMalloc(s, [] + [CallMalloc(16)] + [CallMalloc(8)], 232, 8);
    CallsMalloc(s, [] + [CallMalloc(16)] + [CallMalloc(8)] + [CallMalloc(8)], 272, 8);
  }

  /** A free of the larger and then of the smaller block leaves them in that order from the
      back of bucket 6. */
  lemma LifoExample()
    ensures var s, cs := Fresh(MAX_HEAP), CARVE + [CallFree(152)] + [CallFree(240)];
      LegalRun(s, cs) && |Run(s, cs).heap.lists| == 32 && !MaxToMin(Run(s, cs).heap, Run(s, cs).heap.lists[6])
  {
    hide LegalRun, Run, Tiled, Coalesced, BucketOf, Pow2, Owned;
    var s := Fresh(MAX_HEAP);
    Carved();
    CallsFree(s, CARVE, 144);
    CallsFree(s, CARVE + [CallFree(152)], 232);
    Bucket6(40);
    Bucket6(48);
    var g := Run(s, CARVE + [CallFree(152)] + [CallFree(240)]).heap;
    assert IsFree(g, 144) && g.blocks[144].size == 48 && g.blocks[232].size == 40;
    assert 144 in g.lists[6];
  }

  // ---------- requests near 2^32 ----------

  /** The top seven requests are rounded to one block of 32 bytes: mm_malloc succeeds with a
      block of at most 56. */
  lemma WrappedRequest(h: Heap, n: Word, x: int)
    requires Inv(h) && 0x1_0000_0000 - 7 <= n && Fits(h, x, MINBLOCK)
    ensures var b := FindFit(h, Rounded(n));
      && Fits(h, b, Rounded(n)) && h.blocks[b].size <= TWO31
      && var g := Place(h, b, Rounded(n));
      Inv(g) && IsLive(g, b) && g.blocks[b].size <= 56 < n
  {
    hide Tiled, Listed, Coalesced, Place;
    RoundedExact(n);
    ListCount(h, {});
    FindFitExact(h, Rounded(n));
    FitFound(h, Rounded(n));
    PlaceKeeps(h, FindFit(h, Rounded(n)), Rounded(n));
  }
}
