/** The bucket operations on a whole heap. */
module HeapLinks {
  import opened Words
  import opened Buckets
  import opened Heaps
  import opened MemLib
  import opened Layout

  lemma ListedNodes(m: seq<Word>, h: Heap, skip: set<int>, k: int)
    requires Tiled(h) && Listed(h, skip) && 4 * |m| == h.max && 0 <= k < 32
    ensures |h.lists| == 32 && Nodes(m, h.lists[k])
    ensures forall x :: x in h.lists[k] ==> IsFree(h, x) && x !in skip
  {
  }

  lemma BlockNode(m: seq<Word>, h: Heap, x: int)
    requires Tiled(h) && 4 * |m| == h.max && x in h.blocks
    ensures NodeAt(m, x) && x % 4 == 0 && 32 <= h.blocks[x].size <= TWO31 && h.blocks[x].size % 8 == 0
  {
  }

  /** What the bucket operations need to know about the list of bucket k. */
  lemma ListReady(m: seq<Word>, h: Heap, skip: set<int>, k: int)
    requires Tiled(h) && Rep(m, h) && Listed(h, skip) && 0 <= k < 32
    ensures |h.lists| == 32 && Chain(m, 4 * k, h.lists[k]) && Nodes(m, h.lists[k])
  {
  }

  lemma ListReadyFor(m: seq<Word>, h: Heap, skip: set<int>, k: int, x: int)
    requires Tiled(h) && Rep(m, h) && Listed(h, skip) && 0 <= k < 32 && x in h.blocks && x in skip
    ensures |h.lists| == 32 && Chain(m, 4 * k, h.lists[k]) && Nodes(m, [x] + h.lists[k])
  {
    hide NodeAt, Load;
    ListedNodes(m, h, skip, k);
    BlockNode(m, h, x);
    var s := h.lists[k];
    assert forall y :: y in [x] + s <==> y == x || y in s;
  }

  ghost predicate SameBlocks(h: Heap, g: Heap) {
    g.brk == h.brk && g.max == h.max && g.blocks == h.blocks && Live(g) == Live(h)
  }

  /** The heap with list k replaced. */
  ghost function WithList(h: Heap, k: int, t: seq<int>): Heap
    requires 0 <= k < |h.lists|
  {
    h.(lists := h.lists[k := t])
  }

  /** Relinking one list, which held or now holds the free blocks s, into t. */
  lemma RelinkedRep(m: seq<Word>, n: seq<Word>, h: Heap, skip: set<int>, k: int, s: seq<int>, t: seq<int>)
    requires Tiled(h) && Rep(m, h) && Listed(h, skip) && 0 <= k < 32
    requires Distinct(s) && forall x :: x in s ==> IsFree(h, x)
    requires forall j, x :: 0 <= j < 32 && j != k && x in h.lists[j] ==> x !in s
    requires Relinks(m, n, 4 * k, s) && Chain(n, 4 * k, t)
    ensures Rep(n, WithList(h, k, t)) && Keeps(m, n, Live(h)) && Tiled(WithList(h, k, t))
  {
    hide Tiled, Listed, Relinks, Chain, Keeps, Load;
    var g := WithList(h, k, t);
    TiledIgnoresLists(h, g);
    LinksAreNoTags(m, n, h, 4 * k, s);
    LinksSpareLive(m, n, h, 4 * k, s);
    forall x | x in s ensures NodeAt(m, x) {
      BlockNode(m, h, x);
    }
    forall j | 0 <= j < 32 ensures Chain(n, 4 * j, g.lists[j]) {
      if j != k {
        ListedNodes(m, h, skip, j);
        RelinkSpares(m, n, 4 * k, s, 4 * j, h.lists[j]);
      }
    }
  }

  lemma EnlistRep(m: seq<Word>, n: seq<Word>, h: Heap, skip: set<int>, x: int)
    requires Tiled(h) && Rep(m, h) && Listed(h, skip) && IsFree(h, x) && x in skip && h.blocks[x].size <= TWO31
    requires var k := BucketOf(h.blocks[x].size);
      Chain(n, 4 * k, [x] + h.lists[k]) && Relinks(m, n, 4 * k, [x] + h.lists[k])
    ensures Rep(n, Enlist(h, x)) && Keeps(m, n, Live(h)) && Tiled(Enlist(h, x)) && SameBlocks(h, Enlist(h, x))
  {
    hide Tiled, Rep, Relinks, Chain, Keeps, Load;
    var k := BucketOf(h.blocks[x].size);
    var s := [x] + h.lists[k];
    assert forall y :: y in s <==> y == x || y in h.lists[k];
    RelinkedRep(m, n, h, skip, k, s, s);
  }

  lemma UnlistRep(m: seq<Word>, n: seq<Word>, h: Heap, skip: set<int>, x: int)
    requires Tiled(h) && Rep(m, h) && Listed(h, skip) && IsFree(h, x) && h.blocks[x].size <= TWO31
    requires var k := BucketOf(h.blocks[x].size);
      Chain(n, 4 * k, Without(h.lists[k], x)) && Relinks(m, n, 4 * k, h.lists[k])
    ensures Rep(n, Unlist(h, x)) && Keeps(m, n, Live(h)) && Tiled(Unlist(h, x)) && SameBlocks(h, Unlist(h, x))
  {
    hide Tiled, Rep, Relinks, Chain, Keeps, Load;
    var k := BucketOf(h.blocks[x].size);
    RelinkedRep(m, n, h, skip, k, h.lists[k], Without(h.lists[k], x));
  }

  /** The words on either side of a block boundary. */
  ghost predicate TagWords(a: int) {
    a % 8 == 0 && (a - 4) % 4 == 0 && (a - 8) % 4 == 0
  }

  lemma WordsNear(a: int)
    requires a % 8 == 0
    ensures TagWords(a)
  {
    var q := a / 8;
    assert a == 8 * q && a - 4 == 4 * (2 * q - 1) && a - 8 == 4 * (2 * q - 2);
  }

  /** Header and footer of a block. */
  lemma TagsOf(m: seq<Word>, h: Heap, b: int)
    requires Tiled(h) && Rep(m, h) && b in h.blocks
    ensures var k := h.blocks[b];
      && b % 8 == 0 && FIRST <= b && b + 32 <= b + k.size <= h.brk <= h.max && k.size % 8 == 0 && 4 * |m| == h.max
      && Load(m, b - 4) == Pack(k.size, k.alloc) == Load(m, b + k.size - 8)
      && SizeOf(Pack(k.size, k.alloc)) == k.size && IsAlloc(Pack(k.size, k.alloc)) == k.alloc
      && TagWords(b) && TagWords(b + k.size)
  {
    hide Load, Tiled;
    BlockEnds(h, b);
    WordsNear(b);
    WordsNear(b + h.blocks[b].size);
    BrkAligned(h);
    assert HasTags(m, b, h.blocks[b]);
  }

  /** The word after a block: the next header or the epilogue. */
  lemma NextTag(m: seq<Word>, h: Heap, b: int)
    requires Tiled(h) && Rep(m, h) && b in h.blocks
    ensures var e := b + h.blocks[b].size;
      && (e == h.brk || e in h.blocks)
      && IsAlloc(Load(m, e - 4)) == !IsFree(h, e)
      && RunEnd(h, b) == if IsFree(h, e) then e + SizeOf(Load(m, e - 4)) else e
  {
    hide Load;
    var e := b + h.blocks[b].size;
    assert NextOk(h, b);
    if e in h.blocks {
      TagsOf(m, h, e);
    }
  }

  lemma TilingStarts(h: Heap, b: int)
    requires Tiled(h) && b in h.blocks
    ensures FIRST in h.blocks
  {
  }

  lemma BeforeUnique(h: Heap, b: int, p: int)
    requires Tiled(h) && p in h.blocks && p + h.blocks[p].size == b
    ensures RunStart(h, b) == if IsFree(h, p) then p else b
  {
  }

  /** The word before a header: the previous footer or the prologue's. */
  lemma PrevTag(m: seq<Word>, h: Heap, b: int)
    requires Tiled(h) && Rep(m, h) && b in h.blocks
    ensures var t := Load(m, b - 8);
      var p := b - SizeOf(t);
      && 136 <= p < b && TagWords(p) && SizeOf(Load(m, p - 4)) == SizeOf(t)
      && IsAlloc(t) == (RunStart(h, b) == b)
      && (!IsAlloc(t) ==> IsFree(h, p) && RunStart(h, b) == p && p + h.blocks[p].size == b)
  {
    hide Load, Tiled;
    if b == FIRST {
      forall p | IsFree(h, p) ensures p + h.blocks[p].size != b {
        BlockEnds(h, p);
      }
      WordsNear(136);
    } else {
      BlockEnds(h, b);
      TilingStarts(h, b);
      var p := BlockBefore(h, FIRST, b);
      TagsOf(m, h, p);
      BeforeUnique(h, b, p);
    }
  }

  /** The block b and its free neighbours. */
  ghost function RunSet(h: Heap, b: int): set<int>
    requires b in h.blocks
  {
    var e := b + h.blocks[b].size;
    {RunStart(h, b), b} + if IsFree(h, e) then {e} else {}
  }

  lemma RunSetMembers(h: Heap, b: int)
    requires Tiled(h) && IsFree(h, b)
    ensures forall x :: x in h.blocks && RunStart(h, b) <= x < RunEnd(h, b) <==> x in RunSet(h, b)
  {
    hide Tiled, RunStart;
    var e := b + h.blocks[b].size;
    RunIsFree(h, b);
    BlockEnds(h, b);
    if IsFree(h, e) {
      BlockEnds(h, e);
    }
  }

  lemma RunBounds(h: Heap, b: int)
    requires Tiled(h) && IsFree(h, b)
    ensures var lo, hi := RunStart(h, b), RunEnd(h, b);
      && IsFree(h, lo) && FIRST <= lo && lo % 8 == 0 && lo + 32 <= hi <= h.brk <= TWO31 && hi % 8 == 0
      && (hi == h.brk || hi in h.blocks)
      && forall x :: x in h.blocks && lo <= x < hi ==> IsFree(h, x)
  {
    hide RunStart, RunEnd;
    var lo, hi := RunStart(h, b), RunEnd(h, b);
    RunIsFree(h, b);
    BlockEnds(h, lo);
    if hi in h.blocks {
      BlockEnds(h, hi);
    }
  }

  lemma SkipAvoids(g: Heap, lo: int, hi: int, skip: set<int>)
    requires Listed(g, skip) && forall x :: x in g.blocks && lo <= x < hi <==> x in skip
    ensures ListsAvoid(g, lo, hi)
  {
  }

  lemma SweptAvoids(g: Heap, lo: int, hi: int)
    requires ListsAvoid(g, lo, hi)
    ensures Swept(g.lists, lo, hi) == g.lists
  {
    SweptClear(g.lists, lo, hi);
  }

  lemma FusedListed(g: Heap, lo: int, hi: int, skip: set<int>)
    requires Listed(g, skip) && lo in g.blocks && lo < hi
    requires forall x :: x in g.blocks && lo <= x < hi <==> x in skip
    ensures Listed(Fuse(g, lo, hi), {lo})
  {
  }

  /** Once the free blocks of the run around b have left their lists, fusing the run and
      enlisting it is exactly one Merge of the heap h we started from. */
  lemma MergeSteps(h: Heap, g: Heap, b: int, skip: set<int>)
    requires Tiled(h) && IsFree(h, b) && |h.lists| == 32
    requires SameBlocks(h, g) && Tiled(g) && Listed(g, skip)
    requires Swept(g.lists, RunStart(h, b), RunEnd(h, b)) == Swept(h.lists, RunStart(h, b), RunEnd(h, b))
    requires skip == RunSet(h, b)
    ensures var lo, hi := RunStart(h, b), RunEnd(h, b);
      var f := Fuse(g, lo, hi);
      && lo in g.blocks && FIRST <= lo && lo + 32 <= hi <= h.brk && hi % 8 == 0 && ListsAvoid(g, lo, hi)
      && Tiled(f) && Listed(f, {lo}) && IsFree(f, lo) && Live(f) == Live(h)
      && f.brk == h.brk && f.max == h.max
      && CanList(f, lo) && Enlist(f, lo) == Merge(h, b)
  {
    hide Tiled, Listed, RunStart, RunEnd, Live, BucketOf, ListsAvoid, KeepOutside;
    var lo, hi := RunStart(h, b), RunEnd(h, b);
    RunBounds(h, b);
    FuseTiled(g, lo, hi);
    FuseLive(g, lo, hi);
    RunSetMembers(h, b);
    SkipAvoids(g, lo, hi, skip);
    SweptAvoids(g, lo, hi);
    FusedListed(g, lo, hi, skip);
  }

  lemma SweptUnlist(h: Heap, x: int, lo: int, hi: int)
    requires CanList(h, x) && lo <= x < hi
    ensures |Unlist(h, x).lists| == 32 && Swept(Unlist(h, x).lists, lo, hi) == Swept(h.lists, lo, hi)
    ensures SameBlocks(h, Unlist(h, x))
  {
    SweptWithout(h.lists, BucketOf(h.blocks[x].size), x, lo, hi);
  }

  lemma AloneIsFused(h: Heap, b: int)
    requires Tiled(h) && IsFree(h, b)
    ensures Fuse(h, b, b + h.blocks[b].size) == h
  {
  }

  /** The two tag writes that turn the run [lo, hi) into one free block. */
  lemma TwoTags(m: seq<Word>, i: seq<Word>, n: seq<Word>, a: int, b: int, v: Word)
    requires Stored(m, i, a, v) && Stored(i, n, b, v)
    ensures Writes(m, n, {a, b}) && Load(n, a) == v == Load(n, b)
  {
  }

  lemma KeepsTrans(m: seq<Word>, n: seq<Word>, o: seq<Word>, live: map<int, int>)
    requires Keeps(m, n, live) && Keeps(n, o, live)
    ensures Keeps(m, o, live)
  {
  }
}
