/** The facts the methods of mm.c rest on: what a few writes do to the heap that memory
    lays out. */
module MmSteps {
  import opened Words
  import opened Buckets
  import opened Heaps
  import opened MemLib
  import opened Layout
  import opened HeapLinks

  lemma AloneIsMerged(h: Heap, b: int)
    requires Tiled(h) && IsFree(h, b) && Listed(h, {b})
    requires RunStart(h, b) == b && !IsFree(h, b + h.blocks[b].size)
    ensures CanList(h, b) && Enlist(h, b) == Merge(h, b)
  {
    hide Tiled, Listed, RunStart, Merge, BucketOf, Swept, Fuse, Enlist;
    ListCount(h, {b});
    BlockEnds(h, b);
    BrkAligned(h);
    AloneIsFused(h, b);
    assert RunSet(h, b) == {b};
    MergeSteps(h, h, b, {b});
  }

  lemma SameRun(h: Heap, g: Heap, b: int)
    requires Tiled(h) && Tiled(g) && SameBlocks(h, g) && b in h.blocks
    ensures RunStart(g, b) == RunStart(h, b) && RunEnd(g, b) == RunEnd(h, b)
  {
  }

  /** The tags inside a run of three free blocks, and where its boundaries lie. */
  lemma RunWords(n: seq<Word>, h: Heap, g: Heap, b: int)
    requires Tiled(h) && Tiled(g) && Rep(n, g) && SameBlocks(h, g) && IsFree(h, b)
    requires RunStart(h, b) < b && IsFree(h, b + h.blocks[b].size)
    ensures var lo, e, hi := RunStart(h, b), b + h.blocks[b].size, RunEnd(h, b);
      && SizeOf(Load(n, b - 8)) == b - lo && SizeOf(Load(n, b - 4)) == e - b && SizeOf(Load(n, e - 4)) == hi - e
      && TagWords(lo) && TagWords(b) && TagWords(e) && TagWords(hi) && (hi - lo) % 8 == 0
      && FIRST <= lo && lo + 32 <= b && b + 32 <= e && e + 32 <= hi <= h.max <= TWO31 && h.max == 4 * |n|
  {
    hide Tiled, Rep, Load, RunStart, SizeOf, IsAlloc, Pack;
    var e := b + h.blocks[b].size;
    SameRun(h, g, b);
    BrkAligned(h);
    TagsOf(n, g, b);
    PrevTag(n, g, b);
    TagsOf(n, g, RunStart(h, b));
    TagsOf(n, g, e);
    SumOf8(RunEnd(h, b), RunStart(h, b));
  }

  lemma SizeTag(size: int)
    requires size % 8 == 0
    ensures SizeOf(size) == size && Pack(size, false) == size
  {
  }

  lemma WholeWords(size: int)
    requires size % 8 == 0
    ensures size / WSIZE * WSIZE == size
  {
  }

  lemma ListedAt(h: Heap, skip: set<int>, x: int) returns (i: nat)
    requires Listed(h, skip) && IsFree(h, x) && x !in skip && h.blocks[x].size <= TWO31
    ensures |h.lists| == 32
    ensures var s := h.lists[BucketOf(h.blocks[x].size)]; i < |s| && s[i] == x && Distinct(s)
  {
    var s := h.lists[BucketOf(h.blocks[x].size)];
    assert x in s;
    i :| 0 <= i < |s| && s[i] == x;
  }

  lemma EvenWords(words: nat)
    ensures (words + words % 2) * WSIZE % 8 == 0
    ensures words % 2 == 1 ==> (words + 1) * WSIZE == (words + words % 2) * WSIZE
    ensures words % 2 != 1 ==> words * WSIZE == (words + words % 2) * WSIZE
  {
    var q := (words + words % 2) / 2;
    assert words + words % 2 == 2 * q;
  }

  lemma SameKeeps(m: seq<Word>, live: map<int, int>)
    ensures Keeps(m, m, live)
  {
  }

  lemma BreakWords(h: Heap, size: int)
    requires Tiled(h) && size % 8 == 0
    ensures TagWords(h.brk) && TagWords(h.brk + size) && (h.brk + size - 4) % 4 == 0
  {
    SumOf8(h.brk, size);
    WordsNear(h.brk);
    WordsNear(h.brk + size);
  }

  lemma ThreeTags(m: seq<Word>, i: seq<Word>, j: seq<Word>, n: seq<Word>, b: int, size: Word)
    requires size >= 32
    requires Stored(m, i, b - 4, size) && Stored(i, j, b + size - 8, size) && Stored(j, n, b + size - 4, 1)
    ensures Writes(m, n, {b - 4, b + size - 8, b + size - 4})
    ensures Load(n, b - 4) == size == Load(n, b + size - 8) && Load(n, b + size - 4) == 1
  {
  }

  lemma BreakUnlisted(h: Heap, hi: int)
    requires Tiled(h) && Listed(h, {})
    ensures ListsAvoid(h, h.brk, hi)
  {
  }

  lemma ExtendIs(h: Heap, size: int)
    requires Inv(h) && size % 8 == 0 && MINBLOCK <= size && h.brk + size <= h.max
    ensures Tiled(Grown(h, size)) && IsFree(Grown(h, size), h.brk) && |h.lists| == 32
    ensures Extend(h, size) == Merge(Grown(h, size), h.brk) && Inv(Extend(h, size))
  {
    GrownReady(h, size);
    ExtendKeeps(h, size);
  }

  lemma ListedTag(m: seq<Word>, h: Heap, k: nat, i: nat)
    requires Tiled(h) && Rep(m, h) && Listed(h, {}) && k < 32 && i < |h.lists[k]|
    ensures var x := h.lists[k][i];
      && x in h.blocks && x > 136 && x % 4 == 0 && (x - 4) % 4 == 0 && x + 8 <= 4 * |m|
      && SizeOf(Load(m, x - 4)) == h.blocks[x].size && IsAlloc(Load(m, x - 4)) == h.blocks[x].alloc
  {
    assert h.lists[k][i] in h.lists[k];
    TagsOf(m, h, h.lists[k][i]);
  }

  lemma SkipAvoidsBlock(u: Heap, b: int)
    requires Tiled(u) && Listed(u, {b}) && IsFree(u, b)
    ensures ListsAvoid(u, b, b + u.blocks[b].size)
  {
  }

  lemma FourTags(m: seq<Word>, i: seq<Word>, j: seq<Word>, o: seq<Word>, n: seq<Word>, b: int, size: int, c: int)
    requires MINBLOCK <= size && MINBLOCK <= c - size && c < TWO31 + 1
    requires Stored(m, i, b - 4, size + 1) && Stored(i, j, b + size - 8, size + 1)
    requires Stored(j, o, b + size - 4, c - size) && Stored(o, n, b + c - 8, c - size)
    ensures SplitWords(m, n, b, size, c)
  {
  }

  lemma TwoAllocTags(m: seq<Word>, i: seq<Word>, n: seq<Word>, b: int, size: int, c: int)
    requires MINBLOCK <= size <= c < size + MINBLOCK && c < TWO31 + 1
    requires Stored(m, i, b - 4, c + 1) && Stored(i, n, b + c - 8, c + 1)
    ensures SplitWords(m, n, b, size, c)
  {
  }

  lemma SplitShape(u: Heap, b: int, size: int)
    requires b in u.blocks
    ensures var g := Split(u, b, size); g.brk == u.brk && g.max == u.max && g.lists == u.lists
    ensures u.blocks[b].size - size >= MINBLOCK ==> IsFree(Split(u, b, size), b + size)
  {
  }

  lemma SplitLaid(m: seq<Word>, n: seq<Word>, u: Heap, b: int, size: int)
    requires Tiled(u) && Rep(m, u) && IsFree(u, b) && ListsAvoid(u, b, b + u.blocks[b].size)
    requires MINBLOCK <= size <= u.blocks[b].size && size % 8 == 0
    requires SplitWords(m, n, b, size, u.blocks[b].size)
    ensures var g := Split(u, b, size);
      Tiled(g) && Rep(n, g) && Keeps(m, n, Live(u)) && g.brk == u.brk && g.max == u.max
  {
    hide Tiled, Rep, Keeps, Live, Split, SplitWords, ListsAvoid;
    SplitTiled(u, b, size);
    WriteSplit(m, n, u, b, size);
    SplitShape(u, b, size);
  }

  lemma SplitKeeps(m: seq<Word>, n: seq<Word>, u: Heap, b: int, size: int)
    requires Tiled(u) && IsFree(u, b) && MINBLOCK <= size <= u.blocks[b].size && size % 8 == 0
    requires Keeps(m, n, Live(Split(u, b, size)))
    ensures Keeps(m, n, Live(u))
  {
    SplitLive(u, b, size);
    assert forall x :: x in Live(u) ==> x in Live(Split(u, b, size)) && Live(Split(u, b, size))[x] == Live(u)[x];
  }

  lemma ListHead(m: seq<Word>, q: int, s: seq<int>)
    requires Chain(m, q, s)
    ensures Load(m, q) == if s == [] then 0 else s[0]
    ensures s[0..] == s
  {
  }

  lemma FirstFitStep(h: Heap, s: seq<int>, i: nat, size: int)
    requires i < |s| && s[i] in h.blocks
    ensures FirstFit(h, s[i..], size) == if size <= h.blocks[s[i]].size then s[i] else FirstFit(h, s[i + 1..], size)
  {
  }

  lemma FitFromStep(h: Heap, k: nat, size: int)
    requires |h.lists| == 32
    ensures FitFrom(h, k, size) ==
      if k >= 32 then 0
      else if FirstFit(h, h.lists[k], size) != 0 then FirstFit(h, h.lists[k], size)
      else FitFrom(h, k + 1, size)
  {
  }

  /** A null node ends the list: nodes are never null. */
  lemma ListTail(m: seq<Word>, h: Heap, k: nat, i: nat, size: int)
    requires Tiled(h) && Rep(m, h) && Listed(h, {}) && k < 32 && i <= |h.lists[k]|
    requires i < |h.lists[k]| ==> h.lists[k][i] == 0
    requires FirstFit(h, h.lists[k][i..], size) == FirstFit(h, h.lists[k], size)
    ensures FirstFit(h, h.lists[k], size) == 0
  {
    if i < |h.lists[k]| {
      ListedTag(m, h, k, i);
    }
  }

  lemma FreedIsFused(h: Heap, b: int)
    requires Inv(h) && IsLive(h, b)
    ensures var e := b + h.blocks[b].size; Freed(h, b) == Fuse(h, b, e) && ListsAvoid(h, b, e)
  {
    hide Tiled, Coalesced;
    BlockEnds(h, b);
    forall x | x in h.blocks && x != b ensures !(b <= x < b + h.blocks[b].size) {
      Disjoint(h, b, x);
    }
  }

  lemma BetweenWords(m: seq<Word>, q: int, a: int)
    requires q % 4 == 0 && q < a < q + 4
    ensures Load(m, a) == 0
  {
  }

  /** Padding, prologue and first epilogue. */
  lemma PrologueWords(m: seq<Word>, m1: seq<Word>, m2: seq<Word>, m3: seq<Word>, n: seq<Word>)
    requires forall a :: 0 <= a < 128 ==> Load(m, a) == 0
    requires Stored(m, m1, 128, 0) && Stored(m1, m2, 132, 9) && Stored(m2, m3, 136, 9) && Stored(m3, n, 140, 1)
    ensures |n| == |m| && forall a :: 0 <= a < 128 ==> Load(n, a) == 0
    ensures Load(n, 132) == 9 && Load(n, 136) == 9 && Load(n, 140) == 1
  {
  }

  lemma BareRep(m: seq<Word>, max: int)
    requires 4 * |m| == max && forall a :: 0 <= a < 128 ==> Load(m, a) == 0
    requires Load(m, 132) == 9 && Load(m, 136) == 9 && Load(m, 140) == 1
    ensures Rep(m, Bare(max))
  {
  }

  lemma EmptyKeeps(m: seq<Word>, n: seq<Word>, live: map<int, int>)
    requires live == map[]
    ensures Keeps(m, n, live)
  {
  }

  /** The block extend_heap returns is never null. */
  lemma ExtendStarts(h: Heap, size: int)
    requires Inv(h) && size % 8 == 0 && MINBLOCK <= size
    ensures h.brk + size <= h.max ==> RunStart(Grown(h, size), h.brk) >= FIRST
  {
  }

  lemma KeepsLess(m: seq<Word>, n: seq<Word>, live: map<int, int>, b: int)
    requires Keeps(m, n, live)
    ensures Keeps(m, n, live - {b})
  {
  }

  /** Source and destination of the copy do not overlap, and the destination lies in the
      new block's payload. */
  lemma ReallocApart(h: Heap, g: Heap, ptr: int, p: int, n: int)
    requires Inv(h) && Request(n) && n > 0 && Tiled(g) && IsLive(h, ptr - DSIZE) && Allocates(h, g, p, n)
    requires IsLive(g, ptr - DSIZE) && p != ptr
    ensures var k := Min(n, g.blocks[ptr - DSIZE].size);
      && (p + k <= ptr || ptr + k <= p)
      && FIRST + DSIZE <= p && FIRST + DSIZE <= ptr && (p - DSIZE) % 4 == 0
      && p + n <= p - DSIZE + g.blocks[p - DSIZE].size - 24 <= g.max
  {
    hide Inv, Tiled;
    InBuffer(g, p - DSIZE);
    InBuffer(g, ptr - DSIZE);
    Disjoint(g, p - DSIZE, ptr - DSIZE);
    Disjoint(g, ptr - DSIZE, p - DSIZE);
  }

  lemma InteriorWrites(m: seq<Word>, n: seq<Word>, lo: int, hi: int)
    requires |n| == |m|
    requires forall a {:trigger Load(n, a)} :: !(lo + 8 <= a < hi - 8) ==> Load(n, a) == Load(m, a)
    ensures WritesIn(m, n, lo, hi)
  {
  }

  /** Writing inside a live block, past the two link words and before the footer, leaves
      tags, links and buckets alone. */
  lemma ClientWrite(m: seq<Word>, n: seq<Word>, h: Heap, b: int)
    requires Inv(h) && Rep(m, h) && IsLive(h, b) && |n| == |m|
    requires forall a {:trigger Load(n, a)} :: !(b + 8 <= a < b + h.blocks[b].size - 8) ==> Load(n, a) == Load(m, a)
    ensures Rep(n, h) && Keeps(m, n, Live(h) - {b})
  {
    hide Load, Tiled, Listed, Coalesced, Chain, Keeps, ListsAvoid, Chained, WritesIn;
    var lo, hi := b, b + h.blocks[b].size;
    BlockEnds(h, b);
    InteriorWrites(m, n, lo, hi);
    FreedIsFused(h, b);
    RegionChains(m, n, h, lo, hi);
    forall x | x in h.blocks ensures HasTags(n, x, h.blocks[x]) {
      if x != b {
        Disjoint(h, b, x);
        RegionTags(m, n, h, lo, hi, x);
      }
    }
    EndsKept(m, n, h, lo, hi);
    RegionKeeps(m, n, h, lo, hi);
    assert Live(h) - {b} == map x | x in Live(h) && !(lo <= x < hi) :: Live(h)[x] by {
      forall x | x in Live(h) && x != b ensures !(lo <= x < hi) {
        Disjoint(h, b, x);
      }
    }
  }

  lemma CopyWrites(m: seq<Word>, n: seq<Word>, b: int, k: int, size: int)
    requires 0 <= k && k + 32 <= size
    requires forall a :: a + 4 <= b + 8 || b + 8 + k <= a ==> Load(n, a) == Load(m, a)
    requires b % 4 == 0
    ensures forall a {:trigger Load(n, a)} :: !(b + 8 <= a < b + size - 8) ==> Load(n, a) == Load(m, a)
  {
  }

  /** Kept words hold kept bytes. */
  lemma KeepsByte(m: seq<Word>, n: seq<Word>, live: map<int, int>, b: int, i: int)
    requires Keeps(m, n, live) && b in live && b % 8 == 0 && b <= i < b + live[b] - 8
    ensures ByteAt(n, i) == ByteAt(m, i)
  {
  }

  /** Memory n holds at dst the k bytes that memory m held at src. */
  ghost predicate Moved(m: seq<Word>, n: seq<Word>, src: int, dst: int, k: int) {
    forall a :: dst <= a < dst + k ==> ByteAt(n, a) == ByteAt(m, src + (a - dst))
  }

  lemma ReallocData(m0: seq<Word>, m: seq<Word>, n: seq<Word>, f: seq<Word>,
                    h: Heap, g: Heap, ptr: int, p: int, size: int)
    requires Inv(h) && Request(size) && size > 0 && IsLive(h, ptr - DSIZE) && Allocates(h, g, p, size)
    requires IsLive(g, ptr - DSIZE) && p != ptr && Keeps(m0, m, Live(h))
    requires Copied(m, n, p, ptr, Min(size, g.blocks[ptr - DSIZE].size))
    requires Keeps(n, f, Live(g) - {ptr - DSIZE})
    ensures Moved(m0, f, ptr, p, Min(size, h.blocks[ptr - DSIZE].size - 16))
  {
    hide Load, ByteAt, Keeps, Listed, Coalesced, Tiled;
    BlockEnds(h, ptr - DSIZE);
    BlockEnds(g, p - DSIZE);
    assert Live(g)[ptr - DSIZE] == Live(h)[ptr - DSIZE];
    forall a | p <= a < p + Min(size, h.blocks[ptr - DSIZE].size - 16)
      ensures ByteAt(f, a) == ByteAt(m0, ptr + (a - p))
    {
      KeepsByte(m0, m, Live(h), ptr - DSIZE, ptr + (a - p));
      KeepsByte(n, f, Live(g) - {ptr - DSIZE}, p - DSIZE, a);
    }
  }

  lemma ReallocOthers(m0: seq<Word>, m: seq<Word>, n: seq<Word>, f: seq<Word>,
                    h: Heap, g: Heap, ptr: int, p: int, size: int)
    requires Request(size) && Allocates(h, g, p, size)
    requires Keeps(m0, m, Live(h)) && Keeps(m, n, Live(g) - {p - DSIZE}) && Keeps(n, f, Live(g) - {ptr - DSIZE})
    ensures Keeps(m0, f, Live(h) - {ptr - DSIZE})
  {
    hide Load, Inv, IsLive;
    var live, l1, l2 := Live(h) - {ptr - DSIZE}, Live(g) - {p - DSIZE}, Live(g) - {ptr - DSIZE};
    forall b | b in live ensures b in l1 && b in l2 && b in Live(h) && l1[b] == l2[b] == live[b] == Live(h)[b] {
      assert b in Live(g) && Live(g)[b] == Live(h)[b];
    }
    forall b, a | b in live && b <= a < b + live[b] - 8 ensures Load(f, a) == Load(m0, a) {
      assert Load(n, a) == Load(m, a);
    }
  }

  // ---------- mm_check ----------

  ghost predicate HeaderAt(m: seq<Word>, b: int, k: Block) {
    Load(m, b - 4) == Pack(k.size, k.alloc)
  }

  /** Enough of the layout for mm_check to walk it: headers lead from block to block up to the
      epilogue, and every list is linked through starts of blocks. Footers may differ, free
      blocks may be adjacent, and any block may be in any list. */
  ghost predicate Walkable(m: seq<Word>, h: Heap) {
    && Tiled(h) && 4 * |m| == h.max && Load(m, 132) == 9 && Load(m, h.brk - 4) == 1
    && (forall b :: b in h.blocks ==> HeaderAt(m, b, h.blocks[b]))
    && Chained(m, h)
    && forall k :: 0 <= k < 32 ==> Distinct(h.lists[k]) && forall x :: x in h.lists[k] ==> x in h.blocks
  }

  ghost predicate TagAgrees(m: seq<Word>, h: Heap, b: int)
    requires b in h.blocks
  {
    Load(m, b - 4) == Load(m, b + h.blocks[b].size - 8)
  }

  ghost predicate TagsAgree(m: seq<Word>, h: Heap) {
    forall b :: b in h.blocks ==> TagAgrees(m, h, b)
  }

  ghost predicate ListedAreFree(h: Heap) {
    |h.lists| == 32 && forall k, x {:trigger x in h.lists[k]} :: 0 <= k < 32 && x in h.lists[k] ==> IsFree(h, x)
  }

  ghost predicate NothingListed(h: Heap) {
    |h.lists| == 32 && forall k :: 0 <= k < 32 ==> h.lists[k] == []
  }

  ghost predicate FreePair(h: Heap, b: int)
    requires b in h.blocks
  {
    IsFree(h, b) && IsFree(h, b + h.blocks[b].size)
  }

  lemma WalkableTiled(m: seq<Word>, h: Heap)
    requires Walkable(m, h)
    ensures Tiled(h)
  {
  }

  lemma ListedIsFree(h: Heap, k: nat)
    requires Listed(h, {}) && k < 32 && h.lists[k] != []
    ensures exists x :: IsFree(h, x)
  {
    assert h.lists[k][0] in h.lists[k];
    assert IsFree(h, h.lists[k][0]);
  }

  lemma EmptyLists(h: Heap)
    requires Tiled(h) && Listed(h, {})
    ensures (forall k :: 0 <= k < 32 ==> h.lists[k] == []) ==> forall x :: !IsFree(h, x)
  {
    forall x | IsFree(h, x) ensures exists k :: 0 <= k < 32 && h.lists[k] != [] {
      BlockEnds(h, x);
      BrkAligned(h);
      assert x in h.lists[BucketOf(h.blocks[x].size)];
    }
  }

  /** A reachable memory is walkable and meets the three conditions that mm_check is meant to
      test. */
  lemma SoundPasses(m: seq<Word>, h: Heap)
    requires Inv(h) && Rep(m, h)
    ensures Walkable(m, h) && TagsAgree(m, h) && ListedAreFree(h) && Coalesced(h, {})
    ensures NothingListed(h) <==> forall x :: !IsFree(h, x)
  {
    hide Tiled, Load, Chain, Coalesced;
    forall b | b in h.blocks ensures TagAgrees(m, h, b) && HeaderAt(m, b, h.blocks[b]) {
      TagsOf(m, h, b);
    }
    forall k | 0 <= k < 32 ensures forall x :: x in h.lists[k] ==> x in h.blocks {
      ListedNodes(m, h, {}, k);
    }
    EmptyLists(h);
    if NothingListed(h) {
    } else {
      var k :| 0 <= k < 32 && h.lists[k] != [];
      ListedIsFree(h, k);
    }
  }

  /** What the walk knows of a block from its header alone, and of the next from its own. */
  lemma HeaderOf(m: seq<Word>, h: Heap, b: int)
    requires Walkable(m, h) && b in h.blocks
    ensures var e := b + h.blocks[b].size;
      && SizeOf(Load(m, b - 4)) == h.blocks[b].size && IsAlloc(Load(m, b - 4)) == h.blocks[b].alloc
      && IsAlloc(Load(m, e - 4)) == !IsFree(h, e)
      && FIRST <= b && b + 32 <= e <= h.brk <= 4 * |m| && TagWords(b) && TagWords(e)
      && (e == h.brk || e in h.blocks)
      && forall c :: c in h.blocks && c < e ==> c <= b
  {
    hide Tiled, Load, Chained;
    var e := b + h.blocks[b].size;
    BlockEnds(h, b);
    BrkAligned(h);
    BrkNoBlock(h);
    NextBlock(h, b);
    WordsNear(b);
    WordsNear(e);
    assert HeaderAt(m, b, h.blocks[b]);
    if e in h.blocks {
      BlockEnds(h, e);
      assert HeaderAt(m, e, h.blocks[e]);
    }
    forall c | c in h.blocks && c < e ensures c <= b {
      if c != b {
        Disjoint(h, b, c);
      }
    }
  }

  /** What the scan of a list knows. */
  lemma ListWalkable(m: seq<Word>, h: Heap, k: nat)
    requires Walkable(m, h) && k < 32
    ensures |h.lists| == 32 && Chain(m, 4 * k, h.lists[k]) && Nodes(m, h.lists[k])
    ensures forall x :: x in h.lists[k] ==>
      x in h.blocks && x > 136 && (x - 4) % 4 == 0 && x % 4 == 0 && x + 8 <= 4 * |m|
      && IsAlloc(Load(m, x - 4)) == h.blocks[x].alloc
    ensures forall i :: 0 <= i < |h.lists[k]| ==> h.lists[k][i] > 136
  {
    hide Tiled, Load, Chain, SizeOf, IsAlloc;
    forall i | 0 <= i < |h.lists[k]| ensures h.lists[k][i] in h.lists[k] {
    }
    forall x | x in h.lists[k]
      ensures NodeAt(m, x) && x > 136 && (x - 4) % 4 == 0 && x % 4 == 0 && x + 8 <= 4 * |m|
      ensures IsAlloc(Load(m, x - 4)) == h.blocks[x].alloc
    {
      HeaderOf(m, h, x);
      BlockNode(m, h, x);
    }
  }

  /** The walk starts at the first block. */
  lemma PrologueSize(m: seq<Word>, h: Heap)
    requires Walkable(m, h)
    ensures SizeOf(Load(m, 132)) == 8 && 136 <= 4 * |m| && (FIRST == h.brk || FIRST in h.blocks)
    ensures forall b :: b in h.blocks ==> FIRST <= b
  {
    hide Load, Tiled;
    BrkAligned(h);
    FirstBlock(h);
    forall b | b in h.blocks ensures FIRST <= b {
      BlockEnds(h, b);
    }
  }

  /** ... and stops after the last. */
  lemma WalkedAll(h: Heap, bp: int)
    requires Tiled(h) && (bp == h.brk || bp in h.blocks) && bp > h.brk - 1
    ensures forall b :: b in h.blocks ==> b < bp
  {
    hide Tiled;
    BrkNoBlock(h);
  }

  lemma PairEscapes(h: Heap, b: int)
    requires b in h.blocks && FreePair(h, b)
    ensures !Coalesced(h, {})
  {
  }

  lemma PairsAll(h: Heap)
    requires forall b :: b in h.blocks ==> !FreePair(h, b)
    ensures Coalesced(h, {})
  {
  }
}
