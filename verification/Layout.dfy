/** How a heap lies in memory: boundary tags around every block, and the links of the
    free lists inside the free blocks. */
module Layout {
  import opened Words
  import opened Buckets
  import opened Heaps
  import opened MemLib

  /** Header at b - 4, footer in the last word before the next header. */
  ghost predicate HasTags(m: seq<Word>, b: int, k: Block) {
    Load(m, b - 4) == Pack(k.size, k.alloc) && Load(m, b + k.size - 8) == Pack(k.size, k.alloc)
  }

  /** Prologue (an allocated block of 8 bytes), every block's tags, and the epilogue. */
  ghost predicate Tagged(m: seq<Word>, h: Heap) {
    && 4 * |m| == h.max
    && Load(m, 132) == 9 && Load(m, 136) == 9 && Load(m, h.brk - 4) == 1
    && forall b :: b in h.blocks ==> HasTags(m, b, h.blocks[b])
  }

  /** The doubly linked list whose head is the bucket word at q: next at x, previous at x + 4. */
  ghost predicate Chain(m: seq<Word>, q: int, s: seq<int>) {
    && (s == [] ==> Load(m, q) == 0)
    && (s != [] ==> Load(m, q) == s[0] && Load(m, s[0] + 4) == 0 && Load(m, s[|s| - 1]) == 0)
    && (forall i, j :: 0 <= i < |s| && 0 <= j < |s| && j == i + 1 ==>
          Load(m, s[i]) == s[j] && Load(m, s[j] + 4) == s[i])
  }

  /** Where a list node may be. */
  ghost predicate NodeAt(m: seq<Word>, x: int) {
    FIRST <= x && x % 8 == 0 && x + 8 <= 4 * |m|
  }

  ghost predicate Nodes(m: seq<Word>, s: seq<int>) {
    Distinct(s) && forall x :: x in s ==> NodeAt(m, x)
  }

  ghost predicate Chained(m: seq<Word>, h: Heap) {
    |h.lists| == 32 && forall k :: 0 <= k < 32 ==> Chain(m, 4 * k, h.lists[k])
  }

  /** Memory m lays out heap h. */
  ghost predicate Rep(m: seq<Word>, h: Heap) {
    Tagged(m, h) && Chained(m, h)
  }

  /** No word between the header and the footer of a block of live has changed. */
  ghost predicate Keeps(m: seq<Word>, n: seq<Word>, live: map<int, int>) {
    forall b, a {:trigger b in live, Load(n, a)} :: b in live && b <= a < b + live[b] - 8 ==>
      Load(n, a) == Load(m, a)
  }

  /** Only the bucket word at q and link words of s may have changed. */
  ghost predicate Relinks(m: seq<Word>, n: seq<Word>, q: int, s: seq<int>) {
    |n| == |m| && forall a {:trigger Load(n, a)} :: a != q && a !in s && a - 4 !in s ==> Load(n, a) == Load(m, a)
  }

  lemma ChainFrame(m: seq<Word>, n: seq<Word>, q: int, s: seq<int>)
    requires Chain(m, q, s) && Load(n, q) == Load(m, q)
    requires forall x :: x in s ==> Load(n, x) == Load(m, x) && Load(n, x + 4) == Load(m, x + 4)
    ensures Chain(n, q, s)
  {
    hide Load;
    assert s != [] ==> s[0] in s && s[|s| - 1] in s;
    forall i, j | 0 <= i < |s| && 0 <= j < |s| && j == i + 1
      ensures Load(n, s[i]) == s[j] && Load(n, s[j] + 4) == s[i]
    {
      assert s[i] in s && s[j] in s;
    }
  }

  lemma NodesApart(m: seq<Word>, s: seq<int>, t: seq<int>)
    requires Nodes(m, s) && Nodes(m, t)
    ensures forall x, y :: x in s && y in t && x != y ==> x + 8 <= y || y + 8 <= x
    ensures forall x :: x in s ==> FIRST <= x && x % 4 == 0 && x + 8 <= 4 * |m|
  {
  }

  lemma RelinkSpares(m: seq<Word>, n: seq<Word>, q: int, s: seq<int>, r: int, t: seq<int>)
    requires Relinks(m, n, q, s) && Chain(m, r, t) && Nodes(m, s) && Nodes(m, t)
    requires 0 <= q < 128 && 0 <= r < 128 && r != q && forall x :: x in s ==> x !in t
    ensures Chain(n, r, t)
  {
    hide Load, NodeAt, Chain;
    NodesApart(m, s, t);
    NodesApart(m, t, s);
    assert r !in s && r - 4 !in s;
    forall x | x in t
      ensures Load(n, x) == Load(m, x) && Load(n, x + 4) == Load(m, x + 4)
    {
      assert x - 4 !in s && x + 4 !in s;
    }
    ChainFrame(m, n, r, t);
  }

  lemma LinksAreNoTags(m: seq<Word>, n: seq<Word>, h: Heap, q: int, s: seq<int>)
    requires Tiled(h) && Tagged(m, h) && Relinks(m, n, q, s) && 0 <= q < 128
    requires forall x :: x in s ==> x in h.blocks
    ensures Tagged(n, h)
  {
  }

  /** Neither a nor the word before it starts a free block, when a lies in a live one. */
  lemma NoNodeInside(h: Heap, b: int, a: int, s: seq<int>)
    requires Tiled(h) && IsLive(h, b) && b <= a < b + h.blocks[b].size
    requires forall x :: x in s ==> IsFree(h, x)
    ensures a !in s && a - 4 !in s
  {
    hide Tiled;
    if a in s {
      Disjoint(h, b, a);
    }
    if a - 4 in s {
      BlockEnds(h, a - 4);
      Disjoint(h, b, a - 4);
      Disjoint(h, a - 4, b);
    }
  }

  lemma LinksSpareLive(m: seq<Word>, n: seq<Word>, h: Heap, q: int, s: seq<int>)
    requires Tiled(h) && Relinks(m, n, q, s) && 0 <= q < 128
    requires forall x :: x in s ==> IsFree(h, x)
    ensures Keeps(m, n, Live(h))
  {
    hide Tiled, Load;
    var live := Live(h);
    forall b, a | b in live && b <= a < b + live[b] - 8 ensures Load(n, a) == Load(m, a) {
      BlockEnds(h, b);
      NoNodeInside(h, b, a, s);
    }
  }

  // ---------- writing tags ----------

  /** Only words at the addresses W may have changed. */
  ghost predicate Writes(m: seq<Word>, n: seq<Word>, W: set<int>) {
    |n| == |m| && forall a {:trigger Load(n, a)} :: a !in W ==> Load(n, a) == Load(m, a)
  }

  /** Every listed node is a block outside [lo, hi). */
  ghost predicate ListsAvoid(h: Heap, lo: int, hi: int) {
    |h.lists| == 32 &&
    forall k, x {:trigger x in h.lists[k]} :: 0 <= k < 32 && x in h.lists[k] ==>
      x in h.blocks && !(lo <= x < hi)
  }

  /** The addresses W lie in the region of the blocks that start in [lo, hi), headers
      included. */
  ghost predicate Within(W: set<int>, lo: int, hi: int) {
    forall a :: a in W ==> lo - 4 <= a < hi - 4
  }

  /** Only words of that region may have changed. */
  ghost predicate WritesIn(m: seq<Word>, n: seq<Word>, lo: int, hi: int) {
    |n| == |m| && forall a {:trigger Load(n, a)} :: !(lo - 4 <= a < hi - 4) ==> Load(n, a) == Load(m, a)
  }

  lemma WritesWithin(m: seq<Word>, n: seq<Word>, W: set<int>, lo: int, hi: int)
    requires Writes(m, n, W) && Within(W, lo, hi)
    ensures WritesIn(m, n, lo, hi)
  {
  }

  /** Such a region holds no tag and no link of a block outside it. */
  lemma RegionWords(h: Heap, lo: int, hi: int, b: int)
    requires Tiled(h) && (lo in h.blocks || lo == h.brk) && lo < hi && b in h.blocks && !(lo <= b < hi)
    ensures b + h.blocks[b].size <= lo || hi <= b
    ensures 32 <= h.blocks[b].size
  {
  }

  lemma RegionStart(h: Heap, lo: int)
    requires Tiled(h) && (lo in h.blocks || lo == h.brk)
    ensures lo >= FIRST && lo % 8 == 0
  {
  }

  lemma RegionChains(m: seq<Word>, n: seq<Word>, h: Heap, lo: int, hi: int)
    requires Tiled(h) && (lo in h.blocks || lo == h.brk) && lo < hi
    requires Chained(m, h) && WritesIn(m, n, lo, hi) && ListsAvoid(h, lo, hi)
    ensures Chained(n, h)
  {
    hide Load, Tiled, Chain;
    RegionStart(h, lo);
    forall k | 0 <= k < 32 ensures Chain(n, 4 * k, h.lists[k]) {
      forall x | x in h.lists[k]
        ensures Load(n, x) == Load(m, x) && Load(n, x + 4) == Load(m, x + 4)
      {
        RegionWords(h, lo, hi, x);
      }
      ChainFrame(m, n, 4 * k, h.lists[k]);
    }
  }

  lemma RegionTags(m: seq<Word>, n: seq<Word>, h: Heap, lo: int, hi: int, b: int)
    requires Tiled(h) && (lo in h.blocks || lo == h.brk) && lo < hi
    requires Tagged(m, h) && WritesIn(m, n, lo, hi) && b in h.blocks && !(lo <= b < hi)
    ensures HasTags(n, b, h.blocks[b])
  {
  }

  lemma RegionKeeps(m: seq<Word>, n: seq<Word>, h: Heap, lo: int, hi: int)
    requires Tiled(h) && (lo in h.blocks || lo == h.brk) && lo < hi && WritesIn(m, n, lo, hi)
    ensures Keeps(m, n, map b | b in Live(h) && !(lo <= b < hi) :: Live(h)[b])
  {
  }

  /** Prologue and epilogue survive writes to a region below the break. */
  lemma EndsKept(m: seq<Word>, n: seq<Word>, h: Heap, lo: int, hi: int)
    requires Tagged(m, h) && WritesIn(m, n, lo, hi) && FIRST <= lo && hi <= h.brk
    ensures 4 * |n| == h.max && Load(n, 132) == 9 && Load(n, 136) == 9 && Load(n, h.brk - 4) == 1
  {
  }

  lemma FusedLive(h: Heap, lo: int, hi: int)
    requires lo < hi
    ensures Live(Fuse(h, lo, hi)) == map b | b in Live(h) && !(lo <= b < hi) :: Live(h)[b]
  {
  }

  /** Writing one free block's tags over the region [lo, hi) of unlisted blocks. */
  lemma WriteFused(m: seq<Word>, n: seq<Word>, h: Heap, lo: int, hi: int)
    requires Tiled(h) && Rep(m, h) && ListsAvoid(h, lo, hi)
    requires lo in h.blocks && lo + 32 <= hi <= h.brk
    requires Writes(m, n, {lo - 4, hi - 8}) && Load(n, lo - 4) == hi - lo == Load(n, hi - 8)
    ensures Rep(n, Fuse(h, lo, hi)) && Keeps(m, n, Live(Fuse(h, lo, hi)))
  {
    hide Load, Tiled, Keeps, Writes, WritesIn, ListsAvoid, Chain, Live;
    var W, g := {lo - 4, hi - 8}, Fuse(h, lo, hi);
    RegionStart(h, lo);
    WritesWithin(m, n, W, lo, hi);
    RegionChains(m, n, h, lo, hi);
    forall b | b in g.blocks ensures HasTags(n, b, g.blocks[b]) {
      if b != lo {
        RegionTags(m, n, h, lo, hi, b);
      }
    }
    EndsKept(m, n, h, lo, hi);
    RegionKeeps(m, n, h, lo, hi);
    FusedLive(h, lo, hi);
  }

  /** The words place writes over a free block b of c bytes. */
  ghost predicate SplitWords(m: seq<Word>, n: seq<Word>, b: int, size: int, c: int) {
    if c - size >= MINBLOCK then
      && Writes(m, n, {b - 4, b + size - 8, b + size - 4, b + c - 8})
      && Load(n, b - 4) == size + 1 == Load(n, b + size - 8)
      && Load(n, b + size - 4) == c - size == Load(n, b + c - 8)
    else
      && Writes(m, n, {b - 4, b + c - 8})
      && Load(n, b - 4) == c + 1 == Load(n, b + c - 8)
  }

  lemma SplitSpares(m: seq<Word>, n: seq<Word>, h: Heap, b: int)
    requires Tiled(h) && IsFree(h, b)
    requires Keeps(m, n, map x | x in Live(h) && !(b <= x < b + h.blocks[b].size) :: Live(h)[x])
    ensures Keeps(m, n, Live(h))
  {
    assert Live(h) == map x | x in Live(h) && !(b <= x < b + h.blocks[b].size) :: Live(h)[x];
  }

  lemma WriteSplit(m: seq<Word>, n: seq<Word>, h: Heap, b: int, size: int)
    requires Tiled(h) && Rep(m, h) && IsFree(h, b) && ListsAvoid(h, b, b + h.blocks[b].size)
    requires MINBLOCK <= size <= h.blocks[b].size
    requires SplitWords(m, n, b, size, h.blocks[b].size)
    ensures Rep(n, Split(h, b, size)) && Keeps(m, n, Live(h))
  {
    hide Load, Tiled, Keeps, Writes, WritesIn, ListsAvoid, Chain;
    var c, g := h.blocks[b].size, Split(h, b, size);
    var hi := b + c;
    var W := if c - size >= MINBLOCK then {b - 4, b + size - 8, b + size - 4, b + c - 8}
             else {b - 4, b + c - 8};
    BlockEnds(h, b);
    WritesWithin(m, n, W, b, hi);
    RegionChains(m, n, h, b, hi);
    forall x | x in g.blocks ensures HasTags(n, x, g.blocks[x]) {
      if x != b && (c - size >= MINBLOCK ==> x != b + size) {
        Disjoint(h, b, x);
        RegionTags(m, n, h, b, hi, x);
      }
    }
    EndsKept(m, n, h, b, hi);
    RegionKeeps(m, n, h, b, hi);
    SplitSpares(m, n, h, b);
  }

  /** The tags extend_heap writes around the new block, and the new epilogue. */
  lemma WriteGrown(m: seq<Word>, n: seq<Word>, h: Heap, size: int)
    requires Tiled(h) && Rep(m, h) && ListsAvoid(h, h.brk, h.brk + size + 8)
    requires MINBLOCK <= size
    requires Writes(m, n, {h.brk - 4, h.brk + size - 8, h.brk + size - 4})
    requires Load(n, h.brk - 4) == size == Load(n, h.brk + size - 8) && Load(n, h.brk + size - 4) == 1
    ensures Rep(n, Grown(h, size)) && Keeps(m, n, Live(h))
  {
    hide Load, Keeps, ListsAvoid, WritesIn, Chain, Tiled;
    var lo, hi, g := h.brk, h.brk + size + 8, Grown(h, size);
    var W := {lo - 4, lo + size - 8, lo + size - 4};
    BrkAligned(h);
    WritesWithin(m, n, W, lo, hi);
    RegionChains(m, n, h, lo, hi);
    forall x | x in g.blocks ensures HasTags(n, x, g.blocks[x]) {
      if x != lo {
        BlockEnds(h, x);
        RegionTags(m, n, h, lo, hi, x);
      }
    }
    RegionKeeps(m, n, h, lo, hi);
    forall b | b in Live(h) ensures !(lo <= b < hi) {
      BlockEnds(h, b);
    }
    assert Live(h) == map b | b in Live(h) && !(lo <= b < hi) :: Live(h)[b];
  }
}
