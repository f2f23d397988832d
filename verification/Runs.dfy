/** Runs of arbitrary calls: any client of the allocator, and what it finds in its payloads. */
module Runs {
  import opened Words
  import opened Heaps
  import opened MemLib
  import opened Layout
  import opened Laws
  import opened MmSteps
  import opened Mm

  /** CallInit is mem_reset_brk and mm_init; Store writes one byte of the payload at ptr. */
  datatype Call =
    | CallInit
    | CallMalloc(n: int)
    | CallFree(ptr: int)
    | CallRealloc(ptr: int, n: int)
    | Store(ptr: int, at: int, v: Byte)

  /** The heap, and the bytes of live payloads that the client has stored. */
  datatype State = State(heap: Heap, data: map<int, Byte>)

  /** The address a lies in the live block b, behind its links and before its footer. */
  ghost predicate Inside(live: map<int, int>, b: int, a: int) {
    b in live && b + DSIZE <= a < b + live[b] - 8
  }

  ghost predicate Owned(live: map<int, int>, data: map<int, Byte>) {
    forall a :: a in data ==> exists b :: Inside(live, b, a)
  }

  ghost predicate Sound(s: State) {
    Inv(s.heap) && Owned(Live(s.heap), s.data)
  }

  /** What C and the bucket search ask of a caller. */
  ghost predicate Legal(s: State, c: Call)
    requires Sound(s)
  {
    match c
    case CallInit => true
    case CallMalloc(n) => Request(n)
    case CallFree(ptr) => IsLive(s.heap, ptr - DSIZE)
    case CallRealloc(ptr, n) =>
      Request(n) && CanRealloc(s.heap, ptr, n) && (ptr != 0 && n > 0 ==> CopyInside(s.heap, ptr, n))
    case Store(ptr, at, v) => ptr <= at && Inside(Live(s.heap), ptr - DSIZE, at)
  }

  /** The bytes outside the block b. */
  function Outside(data: map<int, Byte>, b: int, size: int): map<int, Byte> {
    map a | a in data && !(b <= a < b + size) :: data[a]
  }

  function Source(a: int, src: int, dst: int): int {
    src + (a - dst)
  }

  /** The k bytes from src, as bytes from dst. */
  function Shifted(data: map<int, Byte>, src: int, dst: int, k: int): map<int, Byte> {
    map a | dst <= a < dst + k && Source(a, src, dst) in data :: data[Source(a, src, dst)]
  }

  ghost function Released(s: State, ptr: int): State
    requires Sound(s) && IsLive(s.heap, ptr - DSIZE)
  {
    State(FreeStep(s.heap, ptr - DSIZE), Outside(s.data, ptr - DSIZE, s.heap.blocks[ptr - DSIZE].size))
  }

  ghost function After(s: State, c: Call): State
    requires Sound(s) && Legal(s, c)
  {
    match c
    case CallInit => State(Initial(s.heap.max), map[])
    case CallMalloc(n) => State(Malloc(s.heap, n).0, s.data)
    case CallFree(ptr) => Released(s, ptr)
    case CallRealloc(ptr, n) =>
      if ptr == 0 then State(Malloc(s.heap, n).0, s.data)
      else if n == 0 then Released(s, ptr)
      else
        var size, (h, p) := s.heap.blocks[ptr - DSIZE].size, Realloc(s.heap, ptr, n);
        State(h, Outside(s.data, ptr - DSIZE, size) + Shifted(s.data, ptr, p, Min(n, size - 16)))
    case Store(ptr, at, v) => s.(data := s.data[at := v])
  }

  // ---------- what a call keeps ----------

  lemma OwnedMore(live: map<int, int>, more: map<int, int>, data: map<int, Byte>)
    requires Owned(live, data) && forall b :: b in live ==> b in more && more[b] == live[b]
    ensures Owned(more, data)
  {
    forall a | a in data ensures exists b :: Inside(more, b, a) {
      var b :| Inside(live, b, a);
      assert Inside(more, b, a);
    }
  }

  lemma OwnedOutside(live: map<int, int>, data: map<int, Byte>, b: int)
    requires Owned(live, data) && b in live
    ensures Owned(live - {b}, Outside(data, b, live[b]))
  {
    forall a | a in Outside(data, b, live[b]) ensures exists c :: Inside(live - {b}, c, a) {
      var c :| Inside(live, c, a);
      assert Inside(live - {b}, c, a);
    }
  }

  lemma OwnedShifted(live: map<int, int>, data: map<int, Byte>, src: int, dst: int, k: int)
    requires dst - DSIZE in live && k + 16 <= live[dst - DSIZE]
    ensures Owned(live, Shifted(data, src, dst, k))
  {
    forall a | a in Shifted(data, src, dst, k) ensures exists b :: Inside(live, b, a) {
      assert Inside(live, dst - DSIZE, a);
    }
  }

  lemma OwnedBoth(live: map<int, int>, d: map<int, Byte>, e: map<int, Byte>)
    requires Owned(live, d) && Owned(live, e)
    ensures Owned(live, d + e)
  {
  }

  lemma ReleasedSound(s: State, ptr: int)
    requires Sound(s) && IsLive(s.heap, ptr - DSIZE)
    ensures var t := Released(s, ptr);
      Sound(t) && t.heap.max == s.heap.max && t.heap.brk == s.heap.brk
  {
    hide Inv, FreeStep, Owned, Outside;
    FreeKeeps(s.heap, ptr - DSIZE);
    assert ptr - DSIZE in Live(s.heap);
    OwnedOutside(Live(s.heap), s.data, ptr - DSIZE);
  }

  lemma MallocSound(s: State, n: int)
    requires Sound(s) && Request(n)
    ensures var h := Malloc(s.heap, n).0;
      Sound(State(h, s.data)) && h.max == s.heap.max && s.heap.brk <= h.brk
  {
    hide Inv, Malloc, Owned, Fits;
    MallocKeeps(s.heap, n);
    MallocOutcome(s.heap, n);
    OwnedMore(Live(s.heap), Live(Malloc(s.heap, n).0), s.data);
  }

  lemma ReallocSound(s: State, ptr: int, n: int)
    requires Sound(s) && Request(n) && CanRealloc(s.heap, ptr, n) && ptr != 0 && n > 0
    requires CopyInside(s.heap, ptr, n)
    ensures var t := After(s, CallRealloc(ptr, n));
      Sound(t) && t.heap.max == s.heap.max && s.heap.brk <= t.heap.brk
  {
    hide Inv, Malloc, FreeStep, Owned, Outside, Shifted, Fits;
    var h, b := s.heap, ptr - DSIZE;
    ReallocKeeps(h, ptr, n);
    ReallocReady(h, ptr, n);
    MallocOutcome(h, n);
    var (g, p) := Malloc(h, n);
    FreeKeeps(g, b);
    var f, size := FreeStep(g, b), h.blocks[b].size;
    assert b in Live(h);
    OwnedOutside(Live(h), s.data, b);
    OwnedMore(Live(h) - {b}, Live(f), Outside(s.data, b, size));
    assert p - DSIZE in Live(f);
    OwnedShifted(Live(f), s.data, ptr, p, Min(n, size - 16));
    OwnedBoth(Live(f), Outside(s.data, b, size), Shifted(s.data, ptr, p, Min(n, size - 16)));
  }

  lemma StoreSound(s: State, ptr: int, at: int, v: Byte)
    requires Sound(s) && Inside(Live(s.heap), ptr - DSIZE, at)
    ensures Sound(s.(data := s.data[at := v]))
  {
    hide Inv;
  }

  lemma InvBounds(h: Heap)
    requires Inv(h)
    ensures FIRST <= h.max <= TWO31
  {
  }

  lemma NothingOwned(live: map<int, int>)
    ensures Owned(live, map[])
  {
  }

  lemma InitialMax(max: int)
    ensures Initial(max).max == max
  {
  }

  /** One legal call keeps the invariant; only mm_init lowers the break. */
  lemma CallKeeps(s: State, c: Call)
    requires Sound(s) && Legal(s, c)
    ensures var t := After(s, c);
      Sound(t) && t.heap.max == s.heap.max && (c.CallInit? || s.heap.brk <= t.heap.brk)
  {
    hide Inv, Malloc, FreeStep, Released, Initial, Outside, Owned, Inside, Shifted, CopyInside;
    match c
    case CallInit =>
      InvBounds(s.heap);
      InitialInv(s.heap.max);
      InitialMax(s.heap.max);
      NothingOwned(Live(Initial(s.heap.max)));
    case CallMalloc(n) =>
      MallocSound(s, n);
    case CallFree(ptr) =>
      ReleasedSound(s, ptr);
    case CallRealloc(ptr, n) =>
      if ptr == 0 {
        MallocSound(s, n);
      } else if n == 0 {
        ReleasedSound(s, ptr);
      } else {
        ReallocSound(s, ptr, n);
      }
    case Store(ptr, at, v) =>
      StoreSound(s, ptr, at, v);
  }

  /** What a call does to the client's bytes: a store sets one, a resize carries those of the
      old payload along, as far as the request and the old block reach. */
  lemma CallCarries(s: State, c: Call, i: int)
    requires Sound(s) && Legal(s, c)
    ensures c.Store? ==> After(s, c) == State(s.heap, s.data[c.at := c.v])
    ensures c.CallInit? ==> After(s, c) == State(Initial(s.heap.max), map[])
    ensures c.CallMalloc? ==> After(s, c) == State(Malloc(s.heap, c.n).0, s.data)
    ensures c.CallFree? ==> After(s, c).heap == FreeStep(s.heap, c.ptr - DSIZE)
    ensures c.CallRealloc? ==> After(s, c).heap == Realloc(s.heap, c.ptr, c.n).0
    ensures c.CallRealloc? && c.ptr != 0 && c.n > 0 ==>
      var (h, p) := Realloc(s.heap, c.ptr, c.n);
      && c.ptr - DSIZE in s.heap.blocks
      && (0 <= i < Min(c.n, s.heap.blocks[c.ptr - DSIZE].size - 16) && c.ptr + i in s.data ==>
            p + i in After(s, c).data && After(s, c).data[p + i] == s.data[c.ptr + i])
  {
    hide Inv, Malloc, FreeStep, Owned, CopyInside, Outside, Replaced, Initial;
    if c.CallRealloc? && c.ptr != 0 && c.n > 0 {
      var p := Realloc(s.heap, c.ptr, c.n).1;
      assert Source(p + i, c.ptr, p) == c.ptr + i;
    }
  }

  ghost predicate LegalRun(s: State, cs: seq<Call>)
    requires Sound(s)
    decreases |cs|
  {
    hide Sound, Legal, After;
    cs != [] ==> Legal(s, cs[0]) && (CallKeeps(s, cs[0]); LegalRun(After(s, cs[0]), cs[1..]))
  }

  lemma LegalRunStep(s: State, cs: seq<Call>)
    requires Sound(s) && LegalRun(s, cs) && cs != []
    ensures Legal(s, cs[0]) && Sound(After(s, cs[0])) && LegalRun(After(s, cs[0]), cs[1..])
    ensures After(s, cs[0]).heap.max == s.heap.max
  {
    hide Sound, Legal, After;
    CallKeeps(s, cs[0]);
  }

  /** Where a run of legal calls ends. */
  ghost function Run(s: State, cs: seq<Call>): (t: State)
    requires Sound(s) && LegalRun(s, cs)
    ensures Sound(t) && t.heap.max == s.heap.max
    decreases |cs|
  {
    hide Sound, Legal, After, LegalRun;
    if cs == [] then s
    else
      LegalRunStep(s, cs);
      Run(After(s, cs[0]), cs[1..])
  }

  lemma RunStep(s: State, cs: seq<Call>)
    requires Sound(s) && LegalRun(s, cs)
    ensures cs == [] ==> Run(s, cs) == s
    ensures cs != [] ==> Legal(s, cs[0]) && Sound(After(s, cs[0])) && LegalRun(After(s, cs[0]), cs[1..])
    ensures cs != [] ==> Run(s, cs) == Run(After(s, cs[0]), cs[1..])
  {
    hide Sound, Legal, After;
    if cs != [] {
      LegalRunStep(s, cs);
    }
  }

  lemma NoCalls(s: State)
    requires Sound(s)
    ensures LegalRun(s, []) && Run(s, []) == s
  {
    hide Sound;
  }

  /** One more legal call at the end of a run. */
  lemma {:induction false} RunSnoc(s: State, cs: seq<Call>, c: Call)
    requires Sound(s) && LegalRun(s, cs) && Legal(Run(s, cs), c)
    ensures LegalRun(s, cs + [c]) && Run(s, cs + [c]) == After(Run(s, cs), c)
    decreases |cs|
  {
    hide Sound, Legal, After;
    CallKeeps(Run(s, cs), c);
    if cs == [] {
      assert cs + [c] == [c];
    } else {
      LegalRunStep(s, cs);
      RunSnoc(After(s, cs[0]), cs[1..], c);
      assert (cs + [c])[1..] == cs[1..] + [c];
    }
  }

  /** The call neither gives up the block b nor stores at a. */
  predicate Spares(c: Call, b: int, a: int) {
    match c
    case CallInit => false
    case CallMalloc(n) => true
    case CallFree(ptr) => ptr - DSIZE != b
    case CallRealloc(ptr, n) => ptr - DSIZE != b
    case Store(ptr, at, v) => at != a
  }

  /** Two live blocks share no byte. */
  lemma InsideOne(h: Heap, b: int, c: int, a: int)
    requires Tiled(h) && b in Live(h) && c in Live(h) && b != c && b <= a < b + Live(h)[b]
    ensures !(c <= a < c + Live(h)[c])
  {
    Disjoint(h, b, c);
    Disjoint(h, c, b);
  }

  lemma SparedByFree(s: State, ptr: int, b: int, a: int)
    requires Sound(s) && IsLive(s.heap, ptr - DSIZE) && ptr - DSIZE != b
    requires a in s.data && Inside(Live(s.heap), b, a)
    ensures var t := Released(s, ptr); Inside(Live(t.heap), b, a) && a in t.data && t.data[a] == s.data[a]
  {
    hide FreeStep, Listed, Coalesced, Tiled;
    FreeKeeps(s.heap, ptr - DSIZE);
    InsideOne(s.heap, b, ptr - DSIZE, a);
  }

  lemma SparedByRealloc(s: State, ptr: int, n: int, b: int, a: int)
    requires Sound(s) && Legal(s, CallRealloc(ptr, n)) && ptr != 0 && n > 0 && ptr - DSIZE != b
    requires a in s.data && Inside(Live(s.heap), b, a)
    ensures var t := After(s, CallRealloc(ptr, n));
      Inside(Live(t.heap), b, a) && a in t.data && t.data[a] == s.data[a]
  {
    hide Malloc, FreeStep, Realloc, CopyInside, Listed, Coalesced, Tiled;
    ReallocKeeps(s.heap, ptr, n);
    var (f, p) := Realloc(s.heap, ptr, n);
    InsideOne(s.heap, b, ptr - DSIZE, a);
    assert b in Live(f) && p - DSIZE in Live(f) && p - DSIZE in f.blocks;
    InsideOne(f, b, p - DSIZE, a);
  }

  lemma SparedByCall(s: State, c: Call, b: int, a: int)
    requires Sound(s) && Legal(s, c) && Spares(c, b, a)
    requires a in s.data && Inside(Live(s.heap), b, a)
    ensures var t := After(s, c); Inside(Live(t.heap), b, a) && a in t.data && t.data[a] == s.data[a]
  {
    hide Inv, Malloc, FreeStep, Realloc, CopyInside, Released, Owned, Outside, Shifted;
    match c
    case CallMalloc(n) =>
      MallocKeeps(s.heap, n);
    case CallFree(ptr) =>
      SparedByFree(s, ptr, b, a);
    case CallRealloc(ptr, n) =>
      MallocKeeps(s.heap, n);
      if ptr != 0 && n == 0 {
        SparedByFree(s, ptr, b, a);
      } else if ptr != 0 {
        SparedByRealloc(s, ptr, n, b, a);
      }
    case Store(ptr, at, v) =>
  }

  /** A byte that the client has stored stays through every run that neither stores there
      again nor frees, resizes or forgets its block. */
  lemma {:induction false} StaysStored(s: State, cs: seq<Call>, b: int, a: int)
    requires Sound(s) && LegalRun(s, cs) && forall i :: 0 <= i < |cs| ==> Spares(cs[i], b, a)
    requires a in s.data && Inside(Live(s.heap), b, a)
    ensures var t := Run(s, cs); Inside(Live(t.heap), b, a) && a in t.data && t.data[a] == s.data[a]
    decreases |cs|
  {
    hide Sound, Legal, After, LegalRun, Run, Inside;
    RunStep(s, cs);
    if cs == [] {
    } else {
      SparedByCall(s, cs[0], b, a);
      StaysStored(After(s, cs[0]), cs[1..], b, a);
    }
  }

  // ---------- on memory ----------

  /** The memory holds every byte of data. */
  ghost predicate Holds(m: seq<Word>, data: map<int, Byte>) {
    forall a :: a in data ==> ByteAt(m, a) == data[a]
  }

  lemma HoldsKept(m: seq<Word>, n: seq<Word>, h: Heap, live: map<int, int>, data: map<int, Byte>)
    requires Tiled(h) && Owned(live, data) && Keeps(m, n, live) && Holds(m, data)
    requires forall b :: b in live ==> b in h.blocks
    ensures Holds(n, data)
  {
    hide Tiled, Keeps, ByteAt, Load;
    forall a | a in data ensures ByteAt(n, a) == data[a] {
      var b :| Inside(live, b, a);
      BlockEnds(h, b);
      KeepsByte(m, n, live, b, a);
    }
  }

  lemma HoldsShifted(m: seq<Word>, n: seq<Word>, data: map<int, Byte>, src: int, dst: int, k: int)
    requires Holds(m, data) && Moved(m, n, src, dst, k)
    ensures Holds(n, Shifted(data, src, dst, k))
  {
    hide ByteAt;
    forall a | a in Shifted(data, src, dst, k) ensures ByteAt(n, a) == Shifted(data, src, dst, k)[a] {
      assert ByteAt(m, Source(a, src, dst)) == data[Source(a, src, dst)];
    }
  }

  lemma HoldsOutside(m: seq<Word>, data: map<int, Byte>, b: int, size: int)
    requires Holds(m, data)
    ensures Holds(m, Outside(data, b, size))
  {
  }

  lemma HoldsReleased(m: seq<Word>, n: seq<Word>, s: State, b: int)
    requires Sound(s) && IsLive(s.heap, b) && Keeps(m, n, Live(s.heap) - {b}) && Holds(m, s.data)
    ensures Holds(n, Outside(s.data, b, s.heap.blocks[b].size))
  {
    hide Tiled, Listed, Coalesced, Keeps, ByteAt, Owned, Outside;
    assert b in Live(s.heap);
    OwnedOutside(Live(s.heap), s.data, b);
    HoldsOutside(m, s.data, b, s.heap.blocks[b].size);
    HoldsKept(m, n, s.heap, Live(s.heap) - {b}, Outside(s.data, b, s.heap.blocks[b].size));
  }

  lemma WordInside(m: seq<Word>, n: seq<Word>, b: int, at: int, size: int)
    requires b % 4 == 0 && size % 4 == 0 && b + 8 <= at < b + size - 8
    requires forall a :: a != at - at % 4 ==> Load(n, a) == Load(m, a)
    ensures forall a {:trigger Load(n, a)} :: !(b + 8 <= a < b + size - 8) ==> Load(n, a) == Load(m, a)
  {
  }

  /** The client's store of one byte. */
  method StoreByte(a: Allocator, ptr: int, at: int, v: Byte, ghost s: State)
    requires a.Valid() && a.heap == s.heap && Sound(s) && Holds(a.mem.data[..], s.data)
    requires ptr <= at && Inside(Live(s.heap), ptr - DSIZE, at)
    modifies a.mem.data
    ensures a.Valid() && Holds(a.mem.data[..], s.data[at := v])
  {
    hide Rep, Inv, Load, ByteAt, Owned, Keeps;
    ghost var m := a.mem.data[..];
    ghost var b := ptr - DSIZE;
    InBuffer(s.heap, b);
    a.mem.PutByte(at, v);
    WordInside(m, a.mem.data[..], b, at, s.heap.blocks[b].size);
    ClientWrite(m, a.mem.data[..], s.heap, b);
  }

  lemma NoBlockBelow(h: Heap)
    requires Tiled(h)
    ensures Live(h) - {-DSIZE} == Live(h)
  {
    assert -DSIZE in h.blocks ==> BlockOk(h, -DSIZE);
  }

  /** The client's mm_realloc. */
  method Resize(a: Allocator, ptr: int, n: int, ghost s: State)
    requires a.Valid() && a.heap == s.heap && Sound(s) && Legal(s, CallRealloc(ptr, n))
    requires Holds(a.mem.data[..], s.data)
    modifies a, a.mem`brk, a.mem.data
    ensures var t := After(s, CallRealloc(ptr, n));
      a.Valid() && a.heap == t.heap && Holds(a.mem.data[..], t.data)
  {
    hide Tiled, Listed, Coalesced, Rep, Malloc, FreeStep, Keeps, ByteAt, Load, Owned, Outside, Shifted, Moved,
         Inside, CopyInside;
    ghost var m, b := a.mem.data[..], ptr - DSIZE;
    var p := a.MmRealloc(ptr, n);
    if ptr == 0 {
      NoBlockBelow(s.heap);
      HoldsKept(m, a.mem.data[..], s.heap, Live(s.heap), s.data);
    } else {
      HoldsReleased(m, a.mem.data[..], s, b);
      if n > 0 {
        HoldsShifted(m, a.mem.data[..], s.data, ptr, p, Min(n, s.heap.blocks[b].size - 16));
      }
    }
  }

  /** One call on memory. */
  method Perform(a: Allocator, c: Call, ghost s: State)
    requires a.Valid() && a.heap == s.heap && Sound(s) && Legal(s, c) && Holds(a.mem.data[..], s.data)
    modifies a, a.mem`brk, a.mem.data
    ensures a.Valid() && a.heap == After(s, c).heap && Holds(a.mem.data[..], After(s, c).data)
  {
    hide Inv, Rep, Malloc, FreeStep, Realloc, Keeps, ByteAt, Load, Owned, Initial, Outside, Shifted, Inside,
         CanRealloc, CopyInside;
    ghost var m, live := a.mem.data[..], Live(s.heap);
    match c
    case CallInit =>
      a.mem.ResetBrk();
      var _ := a.MmInit();
    case CallMalloc(n) =>
      var _ := a.MmMalloc(n);
      HoldsKept(m, a.mem.data[..], s.heap, live, s.data);
    case CallFree(ptr) =>
      FreeKeeps(s.heap, ptr - DSIZE);
      a.MmFree(ptr);
      HoldsReleased(m, a.mem.data[..], s, ptr - DSIZE);
    case CallRealloc(ptr, n) =>
      Resize(a, ptr, n, s);
    case Store(ptr, at, v) =>
      StoreByte(a, ptr, at, v, s);
  }

  /** Every run of legal calls on memory ends in the heap and the bytes of Run. */
  method Serve(a: Allocator, cs: seq<Call>, ghost s: State)
    requires a.Valid() && a.heap == s.heap && Sound(s) && Holds(a.mem.data[..], s.data) && LegalRun(s, cs)
    modifies a, a.mem`brk, a.mem.data
    ensures a.Valid() && a.heap == Run(s, cs).heap && Holds(a.mem.data[..], Run(s, cs).data)
  {
    hide Inv, Rep, Sound, Legal, LegalRun, Run, After, Holds;
    ghost var t := s;
    for i := 0 to |cs|
      invariant a.Valid() && a.heap == t.heap && Sound(t) && Holds(a.mem.data[..], t.data)
      invariant LegalRun(t, cs[i..]) && Run(t, cs[i..]) == Run(s, cs)
    {
      LegalRunStep(t, cs[i..]);
      RunStep(t, cs[i..]);
      assert cs[i..][0] == cs[i] && cs[i..][1..] == cs[i + 1..];
      Perform(a, cs[i], t);
      t := After(t, cs[i]);
    }
    RunStep(t, cs[|cs|..]);
  }

  /** What a run starts from: the heap of mm_init, and nothing stored. */
  ghost function Fresh(max: int): (s: State)
    requires FIRST <= max <= TWO31
    ensures Sound(s)
  {
    hide Inv, Initial;
    InitialInv(max);
    State(Initial(max), map[])
  }

  /** Whatever the memory held and wherever the break was: every run of legal calls after
      mm_reset_brk and mm_init keeps the invariant, and every live payload byte the client
      has stored is still there. */
  method ServeFresh(a: Allocator, cs: seq<Call>)
    requires a.mem.Valid() && LegalRun(Fresh(a.mem.maxAddr), cs)
    modifies a, a.mem`brk, a.mem.data
    ensures a.Valid() && a.heap == Run(Fresh(a.mem.maxAddr), cs).heap
    ensures Holds(a.mem.data[..], Run(Fresh(a.mem.maxAddr), cs).data)
  {
    hide Inv, Rep, Sound, LegalRun, Run, Initial;
    a.mem.ResetBrk();
    var _ := a.MmInit();
    Serve(a, cs, Fresh(a.mem.maxAddr));
  }
}
