/** mdriver.c: eval_mm_valid and eval_mm_util over an in-memory trace. */
module Driver {
  import opened Words
  import opened Heaps
  import opened Sums
  import opened MemLib
  import opened Layout
  import opened Ranges
  import opened MmSteps
  import opened Mm
  import opened Clients
  import opened Payloads
  import opened Traces

  class Evaluator {
    const alloc: Allocator
    const ranges: RangeList
    /** trace->blocks and trace->block_sizes */
    const blocks: array<int>
    const blockSizes: array<int>
    /** What the trace has done so far. */
    ghost var client: Client

    /** The arrays are four different objects of one length. */
    ghost predicate Apart()
      reads this, alloc, alloc.mem
    {
      && blocks.Length == blockSizes.Length && blocks != blockSizes
      && alloc.mem.data as object != blocks && alloc.mem.data as object != blockSizes
    }

    constructor (alloc: Allocator, ranges: RangeList, numIds: nat)
      ensures this.alloc == alloc && this.ranges == ranges
      ensures fresh(blocks) && fresh(blockSizes) && blocks.Length == numIds && Apart()
    {
      this.alloc := alloc;
      this.ranges := ranges;
      blocks := new int[numIds];
      blockSizes := new int[numIds];
      client := Clients.Start(FIRST);
    }

    /** The two arrays hold what the ids own. */
    ghost predicate Recorded(ids: map<int, int>, pay: map<int, int>)
      reads this, blocks, blockSizes
    {
      && blocks.Length == blockSizes.Length && IdsOk(ids, pay)
      && forall i :: i in ids ==> i < blocks.Length && blocks[i] == ids[i] && blockSizes[i] == pay[ids[i]]
    }

    /** Memory and arrays hold what the client's trace has put there. */
    ghost predicate Sound()
      reads this, alloc, alloc.mem, alloc.mem.data, blocks, blockSizes
    {
      && Apart() && alloc.Valid() && alloc.heap == client.heap && ClientInv(client)
      && Recorded(client.ids, client.pay)
    }

    /** ... and the checks of eval_mm_valid hold in the present state. */
    ghost predicate Checked()
      reads this, alloc, alloc.mem, alloc.mem.data, blocks, blockSizes, ranges, ranges.spine
    {
      && Sound() && Filled(alloc.mem.data[..], client.ids, client.pay)
      && ranges.Valid() && Matches(ranges.contents, client.pay)
    }

    /** memset of a payload with its id's low byte. */
    method FillPayload(index: int, p: int, size: int, ghost d: Client)
      requires Apart() && alloc.Valid() && alloc.heap == d.heap && ClientInv(d)
      requires 0 <= index && index in d.ids && d.ids[index] == p && d.pay[p] == size
      requires IdsOk(d.ids - {index}, d.pay) && Filled(alloc.mem.data[..], d.ids - {index}, d.pay)
      modifies alloc.mem.data
      ensures alloc.Valid() && Filled(alloc.mem.data[..], d.ids, d.pay)
    {
      hide Inv, Keeps, Rep, PayOk, IdsOk, Load, ByteAt;
      ghost var m := alloc.mem.data[..];
      OwnedLive(d, index);
      ClientTiled(d);
      InBuffer(d.heap, p - DSIZE);
      alloc.mem.MemSet(p, index % 0x100, size);
      CopyWrites(m, alloc.mem.data[..], p - DSIZE, size, d.heap.blocks[p - DSIZE].size);
      ClientWrite(m, alloc.mem.data[..], d.heap, p - DSIZE);
      FilledSet(m, alloc.mem.data[..], d.heap, d.ids, d.pay, index, p, size);
    }

    /** Remember region. */
    method Record(index: int, p: int, size: int, ghost d: Client)
      requires Apart() && alloc.Valid() && alloc.heap == d.heap && ClientInv(d)
      requires 0 <= index < blocks.Length && Recorded(client.ids, client.pay)
      requires index in d.ids && d.ids[index] == p && d.pay[p] == size
      requires OthersSame(client, d, index)
      modifies this`client, blocks, blockSizes
      ensures Sound() && client == d && alloc.mem.data[..] == old(alloc.mem.data[..])
    {
      hide Inv, PayOk, Rep;
      blocks[index] := p;
      blockSizes[index] := size;
      client := d;
    }

    /** The checks on what mm_malloc returned. */
    method Admit(index: int, p: int, size: int, ghost d: Client) returns (ok: bool)
      requires Apart() && alloc.Valid() && alloc.heap == d.heap && ClientInv(d)
      requires ranges.Valid() && 0 <= index < blocks.Length && 0 < size && Recorded(client.ids, client.pay)
      requires OthersSame(client, d, index)
      requires Admissible(alloc.mem.data[..], ranges.contents, d, index, p, size)
      modifies this`client, alloc.mem.data, blocks, blockSizes, ranges
      ensures ok && client == d && Checked()
      ensures forall x :: x in ranges.spine ==> x in old(ranges.spine) || fresh(x)
    {
      hide Inv, Keeps, Rep, Matches, Filled, Load, ByteAt, Acceptable, ClientInv, RangeList.Valid, Recorded,
           IdsOk, OthersSame;
      ok := ranges.AddRange(p, size, alloc.mem.brk);
      if ok {
        FillPayload(index, p, size, d);
        Record(index, p, size, d);
      }
    }

    /** Case ALLOC of eval_mm_valid. */
    method CheckAlloc(index: int, size: int) returns (ok: bool)
      requires Checked() && OpOk(AllocOp(index, size), client.ids.Keys, blocks.Length)
      modifies this`client, alloc, alloc.mem`brk, alloc.mem.data, blocks, blockSizes, ranges
      ensures ok == old(HasRoom(client, AllocOp(index, size)))
      ensures ok ==> CanStep(old(client), AllocOp(index, size)) && client == Step(old(client), AllocOp(index, size))
      ensures ok ==> Checked()
      ensures forall x :: x in ranges.spine ==> x in old(ranges.spine) || fresh(x)
    {
      hide Inv, Keeps, Rep, Malloc, Matches, Filled, Load, ByteAt, Acceptable, ClientInv, CanStep, Step, HasRoom,
           RangeList.Valid, Recorded, IdsOk, Admissible;
      ghost var m, c := alloc.mem.data[..], client;
      ClientParts(c);
      var p := alloc.MmMalloc(size);
      AllocSteps(c, index, size, alloc.heap, p, blocks.Length);
      if p == 0 {
        return false;
      }
      ghost var d := Step(c, AllocOp(index, size));
      ClientParts(d);
      AllocReady(m, alloc.mem.data[..], ranges.contents, c, index, size, d, p);
      AllocOthers(c, index, size);
      ok := Admit(index, p, size, d);
    }

    /** The loop over the copied bytes: they are the id's low byte, so what the comparison
        says depends on how a char reads it. */
    method CompareData(newp: int, k: nat, index: int, charSigned: bool) returns (ok: bool)
      requires 0 <= newp && newp + k <= 4 * alloc.mem.data.Length && 0 < k && 0 <= index
      requires forall a :: newp <= a < newp + k ==> ByteAt(alloc.mem.data[..], a) == index % 0x100
      ensures ok == CharFits(index, charSigned)
    {
      hide ByteAt, Load;
      for j := 0 to k
        invariant j > 0 ==> CharFits(index, charSigned)
      {
        if AsChar(alloc.mem.GetByte(newp + j), charSigned) != index % 0x100 {
          return false;
        }
      }
      return true;
    }

    /** The checks on what mm_realloc returned. */
    method CheckMoved(index: int, size: int, oldp: int, newp: int, charSigned: bool, ghost d: Client) returns (ok: bool)
      requires Apart() && alloc.Valid() && alloc.heap == d.heap && ClientInv(d)
      requires ranges.Valid() && 0 <= index < blocks.Length && 0 < size && Recorded(client.ids, client.pay)
      requires OthersSame(client, d, index) && 0 < blockSizes[index]
      requires index in client.ids && client.ids[index] in client.pay
      requires blockSizes[index] == client.pay[client.ids[index]]
      requires Admissible(alloc.mem.data[..], Drop(ranges.contents, oldp), d, index, newp, size)
      requires forall a :: newp <= a < newp + Min(size, client.pay[client.ids[index]]) ==>
        ByteAt(alloc.mem.data[..], a) == index % 0x100
      modifies this`client, alloc.mem.data, blocks, blockSizes, ranges, ranges.spine
      ensures ok == CharFits(index, charSigned)
      ensures ok ==> client == d && Checked()
      ensures forall x :: x in ranges.spine ==> x in old(ranges.spine) || fresh(x)
    {
      hide Inv, Keeps, Rep, PayOk, Matches, Filled, Load, ByteAt, Acceptable, RangeList.Valid, CharFits, ClientInv,
           IdsOk, Recorded, OthersSame;
      ClientParts(d);
      OwnedLive(d, index);
      ClientTiled(d);
      InBuffer(d.heap, newp - DSIZE);
      ranges.RemoveRange(oldp);
      ok := ranges.AddRange(newp, size, alloc.mem.brk);
      if ok {
        var oldsize := blockSizes[index];
        if size < oldsize {
          oldsize := size;
        }
        ok := CompareData(newp, oldsize, index, charSigned);
        if ok {
          FillPayload(index, newp, size, d);
          Record(index, newp, size, d);
        }
      }
    }

    /** Case REALLOC of eval_mm_valid: of a positive size, the data check is the only one that
        can fail; size 0 frees the block and is rejected. */
    method CheckRealloc(index: int, size: int, charSigned: bool) returns (ok: bool)
      requires Checked() && OpOk(ReallocOp(index, size), client.ids.Keys, blocks.Length)
      requires 0 < size ==> HasRoom(client, ReallocOp(index, size)) && CopyInside(client.heap, client.ids[index], size)
      modifies this`client, alloc, alloc.mem`brk, alloc.mem.data, blocks, blockSizes, ranges, ranges.spine
      ensures ok == (0 < size && CharFits(index, charSigned))
      ensures ok ==> CanStep(old(client), ReallocOp(index, size)) && client == Step(old(client), ReallocOp(index, size))
      ensures ok ==> Checked()
      ensures forall x :: x in ranges.spine ==> x in old(ranges.spine) || fresh(x)
    {
      hide Inv, Keeps, Rep, Malloc, Realloc, Matches, Filled, Load, ByteAt, Acceptable, ClientInv, CanStep, Step,
           HasRoom, CanRealloc, RangeList.Valid, IdsOk, CharFits, Moved, Admissible;
      ghost var m, c := alloc.mem.data[..], client;
      ClientParts(c);
      OwnedLive(c, index);
      var oldp := blocks[index];
      if size == 0 {
        ResizeToNothing(c, index);
      } else {
        ReallocSteps(c, index, size, blocks.Length);
      }
      var newp := alloc.MmRealloc(oldp, size);
      ok := newp != 0;
      if ok {
        MovedReady(m, alloc.mem.data[..], ranges.contents, c, index, size);
        MovedOthers(c, index, size);
        ok := CheckMoved(index, size, oldp, newp, charSigned, Step(c, ReallocOp(index, size)));
      }
    }

    /** Case FREE of eval_mm_valid. */
    method CheckFree(index: int)
      requires Checked() && OpOk(FreeOp(index), client.ids.Keys, blocks.Length)
      modifies this`client, alloc`heap, alloc.mem.data, ranges, ranges.spine
      ensures CanStep(old(client), FreeOp(index)) && client == Step(old(client), FreeOp(index))
      ensures Checked()
      ensures forall x :: x in ranges.spine ==> x in old(ranges.spine)
    {
      hide Inv, Keeps, Rep, FreeStep, Matches, Filled, Load, ByteAt, ClientInv, CanStep, Step, RangeList.Valid;
      ghost var m, c := alloc.mem.data[..], client;
      FreeSteps(c, index, blocks.Length);
      ghost var d := Step(c, FreeOp(index));
      ClientParts(c);
      ClientParts(d);
      var p := blocks[index];
      ranges.RemoveRange(p);
      alloc.MmFree(p);
      ReleasedReady(m, alloc.mem.data[..], old(ranges.contents), c, index);
      client := d;
    }

    /** One round of eval_mm_valid's loop. */
    method CheckOp(op: TraceOp, charSigned: bool) returns (ok: bool)
      requires Checked() && OpOk(op, client.ids.Keys, blocks.Length)
      requires op.ReallocOp? && 0 < op.size ==>
        HasRoom(client, op) && CopyInside(client.heap, client.ids[op.index], op.size)
      modifies this`client, alloc, alloc.mem`brk, alloc.mem.data, blocks, blockSizes, ranges, ranges.spine
      ensures ok == old(Passes(client, op, charSigned))
      ensures ok ==> CanStep(old(client), op) && client == Step(old(client), op) && Checked()
      ensures forall x :: x in ranges.spine ==> x in old(ranges.spine) || fresh(x)
    {
      hide Inv, Rep, ClientInv, Step, CanStep, Matches, Filled, RangeList.Valid, Recorded, CharFits, CopyInside;
      match op
      case AllocOp(index, size) =>
        ok := CheckAlloc(index, size);
      case ReallocOp(index, size) =>
        ok := CheckRealloc(index, size, charSigned);
      case FreeOp(index) =>
        CheckFree(index);
        ok := true;
    }

    /** The start of eval_mm_valid: reset the break, clear the list, mm_init. */
    method Reset() returns (ok: bool)
      requires Apart() && alloc.mem.Valid() && ranges.Valid()
      modifies this`client, alloc, alloc.mem`brk, alloc.mem.data, ranges
      ensures ok == (FIRST + CHUNKSIZE <= alloc.mem.maxAddr)
      ensures ok ==> Checked() && client == Clients.Start(alloc.mem.maxAddr) && ranges.spine == []
    {
      hide Inv, Rep, ClientInv, Matches, Filled, Initial;
      alloc.mem.ResetBrk();
      ranges.ClearRanges();
      var r := alloc.MmInit();
      ok := r >= 0;
      if ok {
        client := Clients.Start(alloc.mem.maxAddr);
        StartChecked(alloc.mem.data[..], alloc.mem.maxAddr);
      }
    }

    /** The loop of eval_mm_valid. */
    method CheckAll(ops: seq<TraceOp>, charSigned: bool) returns (ok: bool)
      requires Checked() && Tracks(client, ops, blocks.Length) && Defined(client, ops, blocks.Length, charSigned)
      modifies this`client, alloc, alloc.mem`brk, alloc.mem.data, blocks, blockSizes, ranges, ranges.spine
      ensures ok == old(Accepted(client, ops, blocks.Length, charSigned))
      ensures ok ==> Checked() && client == old(Final(client, ops, blocks.Length, charSigned))
    {
      hide Inv, Rep, ClientInv, Step, HasRoom, CanStep, Matches, Filled, RangeList.Valid, CharFits, CopyInside, OpOk,
           Accepted, Defined, Final, Tracks, Sound, Apart, Passes;
      ghost var n, c0 := blocks.Length, client;
      for i := 0 to |ops|
        invariant Checked() && Tracks(client, ops[i..], n)
        invariant SameVerdict(c0, ops, client, ops[i..], n, charSigned)
        invariant forall x :: x in ranges.spine ==> x in old(ranges.spine) || fresh(x)
      {
        ghost var c, rest := client, ops[i..];
        TracksFirst(c, rest, n, charSigned);
        assert rest[0] == ops[i] && rest[1..] == ops[i + 1..];
        forall j | 0 <= j < |ranges.spine|
          ensures ranges.spine[j] in old(ranges.spine) || fresh(ranges.spine[j])
        {
          assert ranges.spine[j] in ranges.spine;
        }
        var good := CheckOp(ops[i], charSigned);
        if !good {
          return false;
        }
        RunStep(c, rest, n, charSigned);
      }
      assert ops[|ops|..] == [];
      RunDone(client, n, charSigned);
      return true;
    }

    /** eval_mm_valid: returns 1 exactly when mm_init has room and every operation of the
        trace passes its checks. */
    method EvalMmValid(ops: seq<TraceOp>, charSigned: bool) returns (ok: bool)
      requires Apart() && alloc.mem.Valid() && ranges.Valid() && WellFormed(ops, {}, blocks.Length)
      requires TraceDefined(alloc.mem.maxAddr, ops, blocks.Length, charSigned)
      modifies this`client, alloc, alloc.mem`brk, alloc.mem.data, blocks, blockSizes, ranges, ranges.spine
      ensures ok == (FIRST + CHUNKSIZE <= alloc.mem.maxAddr
                     && TraceAccepted(alloc.mem.maxAddr, ops, blocks.Length, charSigned))
      ensures ok <==> FIRST + CHUNKSIZE <= alloc.mem.maxAddr
                      && exists cs :: Path(Clients.Start(alloc.mem.maxAddr), ops, cs, charSigned)
      ensures ok ==> Checked() && FinalClient(client, alloc.mem.maxAddr, ops, blocks.Length, charSigned)
    {
      hide Inv, Rep, ClientInv, Matches, Filled, RangeList.Valid, Accepted, Defined, Final, Tracks, Path;
      StartTracks(alloc.mem.maxAddr, ops, blocks.Length);
      TraceAcceptedExact(alloc.mem.maxAddr, ops, blocks.Length, charSigned);
      ok := Reset();
      if ok {
        ok := CheckAll(ops, charSigned);
      }
    }

    /** One round of eval_mm_util's loop: how the total of live request sizes changes. */
    method UtilOp(op: TraceOp) returns (delta: int)
      requires Sound() && OpOk(op, client.ids.Keys, blocks.Length) && HasRoom(client, op)
      requires op.ReallocOp? ==> CopyInside(client.heap, client.ids[op.index], op.size)
      modifies this`client, alloc, alloc.mem`brk, alloc.mem.data, blocks, blockSizes
      ensures CanStep(old(client), op) && client == Step(old(client), op) && Sound()
      ensures delta == Sum(client.pay) - old(Sum(client.pay)) && (op.FreeOp? ==> delta <= 0)
    {
      hide Inv, Rep, Keeps, ClientInv, Step, CanStep, HasRoom, Malloc, FreeStep, Realloc, CanRealloc, Sum, Moved, IdsOk;
      ghost var c := client;
      ClientParts(c);
      match op
      case AllocOp(index, size) =>
        var p := alloc.MmMalloc(size);
        AllocSteps(c, index, size, alloc.heap, p, blocks.Length);
        AllocOthers(c, index, size);
        StepSum(c, op);
        Record(index, p, size, Step(c, op));
        delta := size;
      case ReallocOp(index, newsize) =>
        ReallocSteps(c, index, newsize, blocks.Length);
        MovedOthers(c, index, newsize);
        StepSum(c, op);
        var oldsize, oldp := blockSizes[index], blocks[index];
        var newp := alloc.MmRealloc(oldp, newsize);
        Record(index, newp, newsize, Step(c, op));
        delta := newsize - oldsize;
      case FreeOp(index) =>
        FreeSteps(c, index, blocks.Length);
        StepSum(c, op);
        var size, p := blockSizes[index], blocks[index];
        alloc.MmFree(p);
        FreeRecorded(c, index);
        ClientParts(Step(c, op));
        client := Step(c, op);
        delta := -size;
    }

    /** The loop of eval_mm_util. */
    method UtilAll(ops: seq<TraceOp>) returns (maxTotal: int)
      requires Sound() && Tracks(client, ops, blocks.Length) && Sum(client.pay) == 0
      requires Defined(client, ops, blocks.Length, false) && Accepted(client, ops, blocks.Length, false)
      modifies this`client, alloc, alloc.mem`brk, alloc.mem.data, blocks, blockSizes
      ensures Sound() && client == old(Final(client, ops, blocks.Length, false))
      ensures maxTotal == old(Peak(client, ops, blocks.Length)) && maxTotal >= 0
    {
      hide Inv, Rep, ClientInv, Step, HasRoom, CanStep, CopyInside, OpOk, Accepted, Defined, Final, Peak, Tracks,
           Sum, Sound;
      ghost var n, c0 := blocks.Length, client;
      var total := 0;
      maxTotal := 0;
      PeakStep(c0, ops, n);
      assert ops[0..] == ops;
      for i := 0 to |ops|
        invariant Sound() && Tracks(client, ops[i..], n)
        invariant SameVerdict(c0, ops, client, ops[i..], n, false) && Accepted(c0, ops, n, false)
        invariant total == Sum(client.pay) && 0 <= total <= maxTotal
        invariant Max(maxTotal, Peak(client, ops[i..], n)) == Peak(c0, ops, n)
      {
        ghost var c, rest := client, ops[i..];
        TracksFirst(c, rest, n, false);
        assert rest[0] == ops[i] && rest[1..] == ops[i + 1..];
        PeakStep(c, rest, n);
        var delta := UtilOp(ops[i]);
        RunStep(c, rest, n, false);
        PeakStep(client, rest[1..], n);
        UtilNatural(client);
        total := total + delta;
        if !ops[i].FreeOp? {
          maxTotal := Max(total, maxTotal);
        }
      }
      assert ops[|ops|..] == [];
      RunDone(client, n, false);
      PeakStep(client, [], n);
    }

    /** eval_mm_util on a trace that does not run out of room: the peak of the live request
        sizes over the final heap size, which is at most 1. */
    method EvalMmUtil(ops: seq<TraceOp>) returns (util: real)
      requires Apart() && alloc.mem.Valid() && WellFormed(ops, {}, blocks.Length)
      requires FIRST + CHUNKSIZE <= alloc.mem.maxAddr
      requires TraceDefined(alloc.mem.maxAddr, ops, blocks.Length, false)
      requires TraceAccepted(alloc.mem.maxAddr, ops, blocks.Length, false)
      modifies this`client, alloc, alloc.mem`brk, alloc.mem.data, blocks, blockSizes
      ensures Sound() && FinalClient(client, alloc.mem.maxAddr, ops, blocks.Length, false)
      ensures alloc.mem.brk > 0
      ensures util == PeakOf(alloc.mem.maxAddr, ops, blocks.Length) as real / alloc.mem.brk as real
      ensures forall cs :: Path(Clients.Start(alloc.mem.maxAddr), ops, cs, false) ==>
        HighWater(cs, PeakOf(alloc.mem.maxAddr, ops, blocks.Length))
      ensures 0.0 <= util <= 1.0
    {
      hide Inv, Rep, ClientInv, Accepted, Defined, Final, Peak, Tracks, Sum, Initial, Path, HighWater;
      ghost var max, n := alloc.mem.maxAddr, blocks.Length;
      ghost var c0 := Clients.Start(max);
      StartTracks(max, ops, n);
      StartSum(max);
      alloc.mem.ResetBrk();
      var r := alloc.MmInit();
      client := c0;
      var maxTotal := UtilAll(ops);
      PeakBelowBreak(c0, ops, n);
      forall cs | Path(c0, ops, cs, false) ensures HighWater(cs, PeakOf(max, ops, n)) {
        PeakOfExact(max, ops, n, cs);
      }
      util := maxTotal as real / alloc.mem.HeapSize() as real;
      Ratio(maxTotal, alloc.mem.HeapSize());
    }
  }
}
