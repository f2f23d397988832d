/** The trace machine of mdriver.c without memory: which payloads are live, which trace id
    owns which, and what one trace operation does to them. */
module Clients {
  import opened Words
  import opened Heaps
  import opened Sums
  import opened MemLib
  import opened Laws

  datatype TraceOp =
    | AllocOp(index: int, size: int)
    | ReallocOp(index: int, size: int)
    | FreeOp(index: int)

  /** ids: the payload each live id owns. pay: the requested size of every payload not yet
      freed, including those whose id was allocated again. */
  datatype Client = Client(heap: Heap, ids: map<int, int>, pay: map<int, int>)

  /** Every payload is in a live block with at least 32 bytes to spare. */
  ghost predicate PayOk(h: Heap, pay: map<int, int>) {
    forall p :: p in pay ==> p - DSIZE in Live(h) && 0 < pay[p] && pay[p] + OVERHEAD <= Live(h)[p - DSIZE]
  }

  ghost predicate IdsOk(ids: map<int, int>, pay: map<int, int>) {
    && (forall i :: i in ids ==> 0 <= i && ids[i] in pay)
    && (forall i, j :: i in ids && j in ids && i != j ==> ids[i] != ids[j])
  }

  ghost predicate ClientInv(c: Client) {
    Inv(c.heap) && PayOk(c.heap, c.pay) && IdsOk(c.ids, c.pay)
  }

  function Start(max: int): Client {
    Client(Initial(max), map[], map[])
  }

  /** A trace asks for sizes that have a bucket, and frees and resizes live ids. A size of 0
      is allowed, and fails: mm_malloc and mm_realloc answer it with null. */
  predicate OpOk(op: TraceOp, live: set<int>, numIds: int) {
    && 0 <= op.index < numIds
    && (op.FreeOp? || Request(op.size))
    && (op.AllocOp? || op.index in live)
  }

  function LiveAfter(op: TraceOp, live: set<int>): set<int> {
    if op.FreeOp? then live - {op.index} else live + {op.index}
  }

  predicate WellFormed(ops: seq<TraceOp>, live: set<int>, numIds: int) {
    ops != [] ==> OpOk(ops[0], live, numIds) && WellFormed(ops[1..], LiveAfter(ops[0], live), numIds)
  }

  /** The allocation this operation makes, if any, succeeds. */
  ghost predicate HasRoom(c: Client, op: TraceOp)
    requires Inv(c.heap)
  {
    op.FreeOp? || (0 < op.size && Request(op.size) && Malloc(c.heap, op.size).1 != 0)
  }

  ghost predicate CanStep(c: Client, op: TraceOp) {
    && ClientInv(c) && OpOk(op, c.ids.Keys, op.index + 1) && HasRoom(c, op)
  }

  lemma OwnedLive(c: Client, i: int)
    requires ClientInv(c) && i in c.ids
    ensures c.ids[i] in c.pay && IsLive(c.heap, c.ids[i] - DSIZE) && c.ids[i] >= FIRST + DSIZE && 0 < c.pay[c.ids[i]]
    ensures c.pay[c.ids[i]] + OVERHEAD <= c.heap.blocks[c.ids[i] - DSIZE].size
    ensures c.ids[i] - DSIZE + c.heap.blocks[c.ids[i] - DSIZE].size <= c.heap.brk
  {
  }

  ghost function Step(c: Client, op: TraceOp): Client
    requires CanStep(c, op)
  {
    match op
    case AllocOp(i, n) =>
      var (h, p) := Malloc(c.heap, n);
      Client(h, c.ids[i := p], c.pay[p := n])
    case ReallocOp(i, n) =>
      OwnedLive(c, i);
      var (h, p) := Realloc(c.heap, c.ids[i], n);
      Client(h, c.ids[i := p], c.pay[p := n] - {c.ids[i]})
    case FreeOp(i) =>
      OwnedLive(c, i);
      Client(FreeStep(c.heap, c.ids[i] - DSIZE), c.ids - {i}, c.pay - {c.ids[i]})
  }

  /** Room for ALIGN(n + 32) implies room for n and 32 bytes more. */
  lemma PayAdd(h: Heap, g: Heap, p: int, n: int, pay: map<int, int>)
    requires PayOk(h, pay) && Allocates(h, g, p, n) && 0 < n
    ensures PayOk(g, pay[p := n]) && p !in pay
  {
    hide Inv;
    assert p in pay ==> p - DSIZE in Live(h);
    var more := pay[p := n];
    forall q | q in more
      ensures q - DSIZE in Live(g) && 0 < more[q] && more[q] + OVERHEAD <= Live(g)[q - DSIZE]
    {
      if q != p {
        assert q - DSIZE in Live(h) && q - DSIZE != p - DSIZE;
      }
    }
  }

  lemma PayDrop(h: Heap, g: Heap, p: int, pay: map<int, int>)
    requires PayOk(h, pay) && Live(g) == Live(h) - {p - DSIZE}
    ensures PayOk(g, pay - {p})
  {
  }

  lemma StepAlloc(c: Client, i: int, n: int)
    requires ClientInv(c) && Request(n) && 0 < n && Malloc(c.heap, n).1 != 0
    ensures var (h, p) := Malloc(c.heap, n);
      Allocates(c.heap, h, p, n) && Inv(h) && h.max == c.heap.max
      && PayOk(h, c.pay[p := n]) && p !in c.pay && c.heap.brk <= h.brk
  {
    hide Inv, Malloc, PayOk, Fits;
    MallocKeeps(c.heap, n);
    MallocOutcome(c.heap, n);
    var (h, p) := Malloc(c.heap, n);
    PayAdd(c.heap, h, p, n, c.pay);
  }

  lemma StepRealloc(c: Client, i: int, n: int)
    requires CanStep(c, ReallocOp(i, n))
    ensures ClientInv(Step(c, ReallocOp(i, n)))
    ensures var d := Step(c, ReallocOp(i, n));
      && d.heap.max == c.heap.max && c.heap.brk <= d.heap.brk && d.ids.Keys == c.ids.Keys
      && d.ids[i] !in c.pay && d.pay == c.pay[d.ids[i] := n] - {c.ids[i]} && d.ids == c.ids[i := d.ids[i]]
  {
    hide Inv, Malloc, FreeStep, PayOk, Allocates;
    OwnedLive(c, i);
    StepAlloc(c, i, n);
    var q := c.ids[i];
    var (h, p) := Malloc(c.heap, n);
    ReallocReady(c.heap, q, n);
    FreeKeeps(h, q - DSIZE);
    PayDrop(h, FreeStep(h, q - DSIZE), q, c.pay[p := n]);
    var ids, pay := c.ids[i := p], c.pay[p := n] - {q};
    assert IdsOk(ids, pay);
  }

  /** Every operation of a well-formed trace keeps the client's invariant. */
  lemma StepKeeps(c: Client, op: TraceOp)
    requires CanStep(c, op)
    ensures var d := Step(c, op);
      && ClientInv(d) && d.heap.max == c.heap.max && c.heap.brk <= d.heap.brk
      && d.ids.Keys == LiveAfter(op, c.ids.Keys)
  {
    hide Inv, Malloc, FreeStep, Allocates, PayOk;
    match op
    case AllocOp(i, n) =>
      StepAlloc(c, i, n);
      assert IdsOk(c.ids[i := Malloc(c.heap, n).1], c.pay[Malloc(c.heap, n).1 := n]);
    case ReallocOp(i, n) =>
      StepRealloc(c, i, n);
    case FreeOp(i) =>
      OwnedLive(c, i);
      var q := c.ids[i];
      FreeKeeps(c.heap, q - DSIZE);
      PayDrop(c.heap, FreeStep(c.heap, q - DSIZE), q, c.pay);
  }

  /** The client after an ALLOC that mm_malloc answered with p. */
  lemma AllocSteps(c: Client, i: int, n: int, h: Heap, p: int, numIds: int)
    requires ClientInv(c) && OpOk(AllocOp(i, n), c.ids.Keys, numIds) && (h, p) == Malloc(c.heap, n)
    ensures HasRoom(c, AllocOp(i, n)) == (p != 0) && (p != 0 ==> 0 < n)
    ensures p != 0 ==> CanStep(c, AllocOp(i, n))
    ensures p != 0 ==> Step(c, AllocOp(i, n)) == Client(h, c.ids[i := p], c.pay[p := n]) && p !in c.pay
    ensures p != 0 ==> ClientInv(Step(c, AllocOp(i, n)))
  {
    if p != 0 {
      StepKeeps(c, AllocOp(i, n));
      StepAlloc(c, i, n);
    }
  }

  /** The client after a REALLOC that mm_realloc answered with p. */
  lemma ReallocSteps(c: Client, i: int, n: int, numIds: int)
    requires ClientInv(c) && OpOk(ReallocOp(i, n), c.ids.Keys, numIds) && HasRoom(c, ReallocOp(i, n))
    ensures CanStep(c, ReallocOp(i, n)) && i in c.ids && CanRealloc(c.heap, c.ids[i], n)
    ensures IsLive(c.heap, c.ids[i] - DSIZE) && c.ids[i] >= FIRST + DSIZE && c.ids[i] in c.pay
    ensures c.pay[c.ids[i]] + OVERHEAD <= c.heap.blocks[c.ids[i] - DSIZE].size
    ensures var (h, p) := Realloc(c.heap, c.ids[i], n);
      var d := Step(c, ReallocOp(i, n));
      && d == Client(h, c.ids[i := p], c.pay[p := n] - {c.ids[i]})
      && ClientInv(d) && p !in c.pay && p != 0 && p in d.pay && d.pay[p] == n
  {
    hide Inv, Malloc, FreeStep, PayOk;
    OwnedLive(c, i);
    StepRealloc(c, i, n);
    var d := Step(c, ReallocOp(i, n));
    OwnedLive(d, i);
  }

  /** mm_realloc to size 0 frees the block and returns null. */
  lemma ResizeToNothing(c: Client, i: int)
    requires ClientInv(c) && i in c.ids
    ensures Inv(c.heap) && CanRealloc(c.heap, c.ids[i], 0) && Realloc(c.heap, c.ids[i], 0).1 == 0
  {
    hide Inv, Malloc, FreeStep, PayOk;
    OwnedLive(c, i);
  }

  /** The client after a FREE. */
  lemma FreeSteps(c: Client, i: int, numIds: int)
    requires ClientInv(c) && OpOk(FreeOp(i), c.ids.Keys, numIds)
    ensures CanStep(c, FreeOp(i)) && i in c.ids && c.ids[i] in c.pay
    ensures Inv(c.heap) && IsLive(c.heap, c.ids[i] - DSIZE)
    ensures var d := Step(c, FreeOp(i));
      && d == Client(FreeStep(c.heap, c.ids[i] - DSIZE), c.ids - {i}, c.pay - {c.ids[i]})
      && ClientInv(d) && Live(d.heap) == Live(c.heap) - {c.ids[i] - DSIZE}
  {
    hide Malloc, FreeStep, PayOk;
    OwnedLive(c, i);
    StepKeeps(c, FreeOp(i));
    FreeKeeps(c.heap, c.ids[i] - DSIZE);
  }

  // ---------- runs of a trace ----------

  /** The byte as a C char: whether plain char is signed is up to the implementation. */
  function AsChar(b: Byte, signed: bool): int {
    if signed && b >= 0x80 then b - 0x100 else b
  }

  /** eval_mm_valid's test of copied data against index & 0xFF can succeed. */
  predicate CharFits(index: int, signed: bool) {
    signed ==> index % 0x100 < 0x80
  }

  /** The operation passes every check of eval_mm_valid. */
  ghost predicate Passes(c: Client, op: TraceOp, signed: bool)
    requires Inv(c.heap)
  {
    HasRoom(c, op) && (op.ReallocOp? ==> CharFits(op.index, signed))
  }

  /** The rest of a trace that is well-formed from where the client is. */
  ghost predicate Tracks(c: Client, ops: seq<TraceOp>, numIds: int) {
    ClientInv(c) && WellFormed(ops, c.ids.Keys, numIds)
  }

  lemma TracksStep(c: Client, ops: seq<TraceOp>, numIds: int)
    requires Tracks(c, ops, numIds) && ops != [] && HasRoom(c, ops[0])
    ensures CanStep(c, ops[0]) && Tracks(Step(c, ops[0]), ops[1..], numIds)
    ensures Step(c, ops[0]).heap.max == c.heap.max && c.heap.brk <= Step(c, ops[0]).heap.brk
  {
    hide ClientInv, Inv, Step, HasRoom;
    assert OpOk(ops[0], c.ids.Keys, ops[0].index + 1);
    StepKeeps(c, ops[0]);
  }

  /** Every operation of the trace passes. */
  ghost predicate Accepted(c: Client, ops: seq<TraceOp>, numIds: int, signed: bool)
    requires Tracks(c, ops, numIds)
    decreases |ops|
  {
    hide Inv, Step, Malloc, FreeStep;
    ops != [] ==>
      && Passes(c, ops[0], signed)
      && (TracksStep(c, ops, numIds); Accepted(Step(c, ops[0]), ops[1..], numIds, signed))
  }

  /** What C asks of a run: every realloc to a positive size that is reached finds its block
      and copies within the buffer. mm_realloc does not look at mm_malloc's result before it
      copies. */
  ghost predicate Defined(c: Client, ops: seq<TraceOp>, numIds: int, signed: bool)
    requires Tracks(c, ops, numIds)
    decreases |ops|
  {
    hide Inv, Step, Malloc, FreeStep;
    ops != [] ==>
      && (ops[0].ReallocOp? && 0 < ops[0].size ==>
            HasRoom(c, ops[0]) && CopyInside(c.heap, c.ids[ops[0].index], ops[0].size))
      && (Passes(c, ops[0], signed) ==>
            (TracksStep(c, ops, numIds); Defined(Step(c, ops[0]), ops[1..], numIds, signed)))
  }

  /** The client after the whole trace. */
  ghost function Final(c: Client, ops: seq<TraceOp>, numIds: int, signed: bool): (d: Client)
    requires Tracks(c, ops, numIds) && Accepted(c, ops, numIds, signed)
    ensures ClientInv(d) && c.heap.brk <= d.heap.brk && d.heap.max == c.heap.max
    decreases |ops|
  {
    hide Inv, Step, Malloc, FreeStep;
    if ops == [] then c else
      TracksStep(c, ops, numIds);
      Final(Step(c, ops[0]), ops[1..], numIds, signed)
  }

  lemma StartTracks(max: int, ops: seq<TraceOp>, numIds: int)
    requires FIRST <= max <= TWO31 && WellFormed(ops, {}, numIds)
    ensures Tracks(Start(max), ops, numIds)
  {
    InitialInv(max);
    assert Start(max).ids.Keys == {};
  }

  /** eval_mm_valid's whole run, from mm_init on, is defined in C ... */
  ghost predicate TraceDefined(max: int, ops: seq<TraceOp>, numIds: int, signed: bool)
    requires FIRST <= max <= TWO31 && WellFormed(ops, {}, numIds)
  {
    StartTracks(max, ops, numIds);
    Defined(Start(max), ops, numIds, signed)
  }

  /** ... and passes every check. */
  ghost predicate TraceAccepted(max: int, ops: seq<TraceOp>, numIds: int, signed: bool)
    requires FIRST <= max <= TWO31 && WellFormed(ops, {}, numIds)
  {
    StartTracks(max, ops, numIds);
    Accepted(Start(max), ops, numIds, signed)
  }

  /** The most the break can move. */
  function Budget(ops: seq<TraceOp>): int {
    if ops == [] then 0
    else (if ops[0].FreeOp? then 0 else Max(Need(ops[0].size), CHUNKSIZE)) + Budget(ops[1..])
  }

  lemma {:induction false} BudgetNotNegative(ops: seq<TraceOp>)
    ensures Budget(ops) >= 0
  {
    if ops == [] {
    } else {
      BudgetNotNegative(ops[1..]);
    }
  }

  lemma BudgetStep(c: Client, ops: seq<TraceOp>, numIds: int)
    requires Tracks(c, ops, numIds) && ops != [] && c.heap.brk + Budget(ops) + 8 <= c.heap.max
    requires Budget(ops[1..]) >= 0 && (ops[0].FreeOp? || 0 < ops[0].size)
    ensures HasRoom(c, ops[0]) && CanStep(c, ops[0])
    ensures Step(c, ops[0]).heap.brk + Budget(ops[1..]) <= c.heap.brk + Budget(ops)
    ensures ops[0].ReallocOp? ==> CopyInside(c.heap, c.ids[ops[0].index], ops[0].size)
  {
    hide Inv, Malloc, FreeStep, Fits, PayOk;
    var op := ops[0];
    if !op.FreeOp? {
      MallocOutcome(c.heap, op.size);
    }
    TracksStep(c, ops, numIds);
    if !op.AllocOp? {
      OwnedLive(c, op.index);
    }
    match op
    case AllocOp(i, n) =>
    case ReallocOp(i, n) =>
      ReallocReady(c.heap, c.ids[i], n);
      FreeKeeps(Malloc(c.heap, n).0, c.ids[i] - DSIZE);
    case FreeOp(i) =>
      FreeKeeps(c.heap, c.ids[i] - DSIZE);
  }

  /** A well-formed trace of positive sizes whose requests, each rounded up and counted as at least one chunk,
      fit in the buffer with 8 bytes to spare is accepted, and its copies are defined. */
  lemma {:induction false} BudgetSuffices(c: Client, ops: seq<TraceOp>, numIds: int, signed: bool)
    requires Tracks(c, ops, numIds) && c.heap.brk + Budget(ops) + 8 <= c.heap.max
    requires forall i :: 0 <= i < |ops| && !ops[i].FreeOp? ==> 0 < ops[i].size
    requires forall i :: 0 <= i < |ops| && ops[i].ReallocOp? ==> CharFits(ops[i].index, signed)
    ensures Accepted(c, ops, numIds, signed) && Defined(c, ops, numIds, signed)
    decreases |ops|
  {
    hide Inv, Step, Malloc, FreeStep, Budget;
    if ops == [] {
    } else {
      BudgetNotNegative(ops[1..]);
      BudgetStep(c, ops, numIds);
      TracksStep(c, ops, numIds);
      BudgetSuffices(Step(c, ops[0]), ops[1..], numIds, signed);
    }
  }

  /** Where plain char is signed, eval_mm_valid rejects traces that it accepts where it is
      not: exactly those that resize an id whose low byte is 128 or more. */
  lemma {:induction false} SignedCharVerdict(c: Client, ops: seq<TraceOp>, numIds: int)
    requires Tracks(c, ops, numIds)
    ensures Accepted(c, ops, numIds, true) <==>
      Accepted(c, ops, numIds, false) &&
      forall i :: 0 <= i < |ops| && ops[i].ReallocOp? ==> ops[i].index % 0x100 < 0x80
    decreases |ops|
  {
    hide Inv, Step, HasRoom;
    if ops == [] || !HasRoom(c, ops[0]) {
    } else {
      TracksStep(c, ops, numIds);
      SignedCharVerdict(Step(c, ops[0]), ops[1..], numIds);
      assert forall i :: 1 <= i < |ops| ==> ops[i] == ops[1..][i - 1];
      assert forall i :: 0 <= i < |ops[1..]| ==> ops[1..][i] == ops[i + 1];
    }
  }

  const RESIZE128 := [AllocOp(128, 8), ReallocOp(128, 8)]

  lemma Resize128()
    ensures WellFormed(RESIZE128, {}, 129) && Budget(RESIZE128) == 2 * CHUNKSIZE
    ensures RESIZE128[1] == ReallocOp(128, 8) && RESIZE128[1].index % 0x100 == 0x80
  {
  }

  lemma StartBreak(max: int)
    requires FIRST + CHUNKSIZE <= max
    ensures Start(max).heap.brk == FIRST + CHUNKSIZE && Start(max).heap.max == max
  {
  }

  /** One such trace, in the repository's own buffer. */
  lemma SignedCharExample()
    ensures WellFormed(RESIZE128, {}, 129)
    ensures TraceAccepted(MAX_HEAP, RESIZE128, 129, false) && !TraceAccepted(MAX_HEAP, RESIZE128, 129, true)
  {
    hide Accepted, Defined, Initial, Inv, ClientInv, WellFormed, Budget, Tracks;
    Resize128();
    StartTracks(MAX_HEAP, RESIZE128, 129);
    StartBreak(MAX_HEAP);
    BudgetSuffices(Start(MAX_HEAP), RESIZE128, 129, false);
    SignedCharVerdict(Start(MAX_HEAP), RESIZE128, 129);
    assert RESIZE128[1].ReallocOp?;
  }

  // ---------- one step of a run ----------

  /** d is what the whole trace leads to. */
  ghost predicate FinalClient(d: Client, max: int, ops: seq<TraceOp>, numIds: int, signed: bool)
  {
    && FIRST <= max <= TWO31 && WellFormed(ops, {}, numIds)
    && (StartTracks(max, ops, numIds);
        Accepted(Start(max), ops, numIds, signed) && d == Final(Start(max), ops, numIds, signed))
  }

  /** Two runs with one verdict and, if it is good, one final client. */
  ghost predicate SameVerdict(c: Client, cs: seq<TraceOp>, d: Client, ds: seq<TraceOp>, numIds: int, signed: bool)
    requires Tracks(c, cs, numIds) && Tracks(d, ds, numIds)
  {
    && Defined(d, ds, numIds, signed)
    && Accepted(d, ds, numIds, signed) == Accepted(c, cs, numIds, signed)
    && (Accepted(c, cs, numIds, signed) ==> Final(d, ds, numIds, signed) == Final(c, cs, numIds, signed))
  }

  lemma RunDone(c: Client, numIds: int, signed: bool)
    requires Tracks(c, [], numIds)
    ensures Accepted(c, [], numIds, signed) && Final(c, [], numIds, signed) == c
  {
  }

  /** A first operation that passes leaves the verdicts to the rest of the run. */
  lemma FirstPasses(c: Client, ops: seq<TraceOp>, numIds: int, signed: bool)
    requires Tracks(c, ops, numIds) && ops != [] && Passes(c, ops[0], signed)
    ensures CanStep(c, ops[0]) && Tracks(Step(c, ops[0]), ops[1..], numIds)
    ensures Accepted(c, ops, numIds, signed) == Accepted(Step(c, ops[0]), ops[1..], numIds, signed)
    ensures ops[0].ReallocOp? ==> ops[0].index in c.ids
    ensures Defined(c, ops, numIds, signed) ==
      ((ops[0].ReallocOp? ==> CopyInside(c.heap, c.ids[ops[0].index], ops[0].size))
       && Defined(Step(c, ops[0]), ops[1..], numIds, signed))
  {
    hide Inv, CharFits, CopyInside, Step;
    TracksStep(c, ops, numIds);
  }

  /** What the first operation of a run needs and decides. */
  lemma TracksFirst(c: Client, ops: seq<TraceOp>, numIds: int, signed: bool)
    requires Tracks(c, ops, numIds) && ops != [] && Defined(c, ops, numIds, signed)
    ensures Inv(c.heap) && OpOk(ops[0], c.ids.Keys, numIds)
    ensures ops[0].ReallocOp? ==> ops[0].index in c.ids
    ensures ops[0].ReallocOp? && 0 < ops[0].size ==>
      HasRoom(c, ops[0]) && CopyInside(c.heap, c.ids[ops[0].index], ops[0].size)
    ensures HasRoom(c, ops[0]) ==> ops[0].FreeOp? || 0 < ops[0].size
    ensures Accepted(c, ops, numIds, signed) ==> Passes(c, ops[0], signed)
  {
    hide Inv, CharFits, CopyInside;
  }

  /** After a step that passed, the rest of the run decides. */
  lemma RunStep(c: Client, ops: seq<TraceOp>, numIds: int, signed: bool)
    requires Tracks(c, ops, numIds) && ops != [] && Defined(c, ops, numIds, signed) && CanStep(c, ops[0])
    requires Passes(c, ops[0], signed)
    ensures var d := Step(c, ops[0]);
      && Tracks(d, ops[1..], numIds) && Defined(d, ops[1..], numIds, signed) && d.heap.max == c.heap.max
      && Accepted(d, ops[1..], numIds, signed) == Accepted(c, ops, numIds, signed)
      && (Accepted(c, ops, numIds, signed) ==>
            Final(d, ops[1..], numIds, signed) == Final(c, ops, numIds, signed))
  {
    hide Inv, HasRoom, CharFits, CopyInside, Step;
    TracksStep(c, ops, numIds);
  }

  // ---------- utilisation ----------

  /** The largest total of live request sizes over all prefixes of the trace. */
  ghost function Peak(c: Client, ops: seq<TraceOp>, numIds: int): int
    requires Tracks(c, ops, numIds) && Accepted(c, ops, numIds, false)
    decreases |ops|
  {
    hide Inv, Step, Malloc, FreeStep;
    if ops == [] then Sum(c.pay) else
      TracksStep(c, ops, numIds);
      Max(Sum(c.pay), Peak(Step(c, ops[0]), ops[1..], numIds))
  }

  function Padded(pay: map<int, int>): map<int, int> {
    map p | p in pay :: pay[p] + OVERHEAD
  }

  lemma {:induction false} PaddedSum(pay: map<int, int>)
    ensures Sum(Padded(pay)) == Sum(pay) + OVERHEAD * |pay.Keys|
    decreases pay.Keys
  {
    if pay.Keys == {} {
    } else {
      var p := Some(pay.Keys);
      SumWithout(pay, p);
      SumWithout(Padded(pay), p);
      assert Padded(pay) - {p} == Padded(pay - {p});
      assert (pay - {p}).Keys == pay.Keys - {p};
      PaddedSum(pay - {p});
    }
  }

  /** Requested bytes, 32 bytes a payload and the 144 bytes before the first block fit in the
      heap at every step. */
  lemma UtilBound(c: Client)
    requires ClientInv(c)
    ensures Sum(c.pay) + OVERHEAD * |c.pay.Keys| + FIRST <= c.heap.brk
  {
    hide Listed, Coalesced;
    var m := Padded(c.pay);
    forall p | p in m ensures FIRST + DSIZE <= p && p + m[p] <= c.heap.brk + DSIZE {
      assert p - DSIZE in Live(c.heap);
      BlockEnds(c.heap, p - DSIZE);
    }
    forall p, q | p in m && q in m && p < q ensures p + m[p] <= q {
      assert p - DSIZE in Live(c.heap) && q - DSIZE in Live(c.heap);
    }
    assert Packed(m, FIRST + DSIZE, c.heap.brk + DSIZE);
    PackedSum(m, FIRST + DSIZE, c.heap.brk + DSIZE);
    PaddedSum(c.pay);
  }

  /** The peak is at most the final break. */
  lemma {:induction false} PeakBelowBreak(c: Client, ops: seq<TraceOp>, numIds: int)
    requires Tracks(c, ops, numIds) && Accepted(c, ops, numIds, false)
    ensures Peak(c, ops, numIds) + FIRST <= Final(c, ops, numIds, false).heap.brk
    decreases |ops|
  {
    hide Inv, Step, Malloc, FreeStep;
    UtilBound(c);
    if ops == [] {
    } else {
      TracksStep(c, ops, numIds);
      PeakBelowBreak(Step(c, ops[0]), ops[1..], numIds);
    }
  }

  /** How one operation changes the total of live request sizes. */
  lemma StepSum(c: Client, op: TraceOp)
    requires CanStep(c, op)
    ensures op.FreeOp? || op.ReallocOp? ==> op.index in c.ids && c.ids[op.index] in c.pay && 0 < c.pay[c.ids[op.index]]
    ensures Sum(Step(c, op).pay) == Sum(c.pay)
      + (if op.FreeOp? then 0 else op.size) - (if op.AllocOp? then 0 else c.pay[c.ids[op.index]])
  {
    hide Inv, Malloc, FreeStep, Realloc, PayOk, Sum;
    match op
    case AllocOp(i, n) =>
      StepAlloc(c, i, n);
      SumWith(c.pay, Malloc(c.heap, n).1, n);
    case ReallocOp(i, n) =>
      OwnedLive(c, i);
      ReallocSteps(c, i, n, i + 1);
      var p := Realloc(c.heap, c.ids[i], n).1;
      SumWith(c.pay, p, n);
      SumWithout(c.pay[p := n], c.ids[i]);
    case FreeOp(i) =>
      OwnedLive(c, i);
      SumWithout(c.pay, c.ids[i]);
  }

  lemma PeakStep(c: Client, ops: seq<TraceOp>, numIds: int)
    requires Tracks(c, ops, numIds) && Accepted(c, ops, numIds, false)
    ensures ClientInv(c) && Peak(c, ops, numIds) >= Sum(c.pay)
    ensures ops == [] ==> Peak(c, ops, numIds) == Sum(c.pay)
    ensures ops != [] ==>
      && CanStep(c, ops[0])
      && Tracks(Step(c, ops[0]), ops[1..], numIds) && Accepted(Step(c, ops[0]), ops[1..], numIds, false)
      && Peak(c, ops, numIds) == Max(Sum(c.pay), Peak(Step(c, ops[0]), ops[1..], numIds))
  {
    hide Inv, Step, Malloc, FreeStep, Sum;
    if ops != [] {
      TracksStep(c, ops, numIds);
    }
  }

  /** The peak of a whole run of eval_mm_util. */
  ghost function PeakOf(max: int, ops: seq<TraceOp>, numIds: int): int
    requires FIRST <= max <= TWO31 && WellFormed(ops, {}, numIds) && TraceAccepted(max, ops, numIds, false)
  {
    StartTracks(max, ops, numIds);
    Peak(Start(max), ops, numIds)
  }

  lemma StartSum(max: int)
    requires FIRST <= max <= TWO31
    ensures ClientInv(Start(max)) && Sum(Start(max).pay) == 0
  {
    StartTracks(max, [], 0);
  }

  lemma UtilNatural(c: Client)
    requires ClientInv(c)
    ensures 0 <= Sum(c.pay)
  {
    hide Inv;
    SumNotNegative(c.pay, c.pay.Keys);
  }
}
