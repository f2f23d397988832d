/** Whole runs of a trace, seen as sequences of clients: what eval_mm_valid and eval_mm_util
    answer, without their loops. */
module Traces {
  import opened Words
  import opened Heaps
  import opened Sums
  import opened Laws
  import opened Clients

  // ---------- well-formed traces ----------

  ghost predicate FreedIn(ops: seq<TraceOp>, from: int, to: int, id: int)
    requires 0 <= from && to <= |ops|
  {
    exists m :: from <= m < to && ops[m] == FreeOp(id)
  }

  /** At operation i the id is live: it was live at the start or some operation before i gave
      it a block, and none has freed it since. */
  ghost predicate LiveAt(ops: seq<TraceOp>, live: set<int>, i: int, id: int)
    requires 0 <= i <= |ops|
  {
    || (id in live && !FreedIn(ops, 0, i, id))
    || exists j :: 0 <= j < i && !ops[j].FreeOp? && ops[j].index == id && !FreedIn(ops, j + 1, i, id)
  }

  lemma FreedInRest(ops: seq<TraceOp>, from: int, to: int, id: int)
    requires ops != [] && 1 <= from && to <= |ops|
    ensures FreedIn(ops, from, to, id) <==> FreedIn(ops[1..], from - 1, to - 1, id)
  {
    if FreedIn(ops, from, to, id) {
      var m :| from <= m < to && ops[m] == FreeOp(id);
      assert ops[1..][m - 1] == FreeOp(id);
    }
    if FreedIn(ops[1..], from - 1, to - 1, id) {
      var m :| from - 1 <= m < to - 1 && ops[1..][m] == FreeOp(id);
      assert ops[m + 1] == FreeOp(id);
    }
  }

  lemma FreedInFirst(ops: seq<TraceOp>, to: int, id: int)
    requires ops != [] && 1 <= to <= |ops|
    ensures FreedIn(ops, 0, to, id) <==> ops[0] == FreeOp(id) || FreedIn(ops, 1, to, id)
  {
  }

  lemma LiveAtRest(ops: seq<TraceOp>, live: set<int>, i: int, id: int)
    requires ops != [] && 1 <= i <= |ops|
    ensures LiveAt(ops, live, i, id) <==> LiveAt(ops[1..], LiveAfter(ops[0], live), i - 1, id)
  {
    hide FreedIn;
    var rest, after := ops[1..], LiveAfter(ops[0], live);
    FreedInFirst(ops, i, id);
    FreedInRest(ops, 1, i, id);
    if j :| 0 <= j < i && !ops[j].FreeOp? && ops[j].index == id && !FreedIn(ops, j + 1, i, id) {
      if j > 0 {
        FreedInRest(ops, j + 1, i, id);
        assert !rest[j - 1].FreeOp? && rest[j - 1].index == id && !FreedIn(rest, j - 1 + 1, i - 1, id);
      }
    }
    if j :| 0 <= j < i - 1 && !rest[j].FreeOp? && rest[j].index == id && !FreedIn(rest, j + 1, i - 1, id) {
      FreedInRest(ops, j + 2, i, id);
      assert !ops[j + 1].FreeOp? && ops[j + 1].index == id && !FreedIn(ops, j + 1 + 1, i, id);
    }
  }

  lemma WellFormedSplit(ops: seq<TraceOp>, live: set<int>, numIds: int)
    requires ops != []
    ensures WellFormed(ops, live, numIds) <==>
      OpOk(ops[0], live, numIds) && WellFormed(ops[1..], LiveAfter(ops[0], live), numIds)
  {
  }

  /** A trace is well formed exactly when every operation names one of the ids, asks for a
      size that has a bucket, and frees or resizes only an id that is live there. */
  lemma {:induction false} WellFormedExact(ops: seq<TraceOp>, live: set<int>, numIds: int)
    ensures WellFormed(ops, live, numIds) <==>
      forall i :: 0 <= i < |ops| ==>
        && 0 <= ops[i].index < numIds
        && (ops[i].FreeOp? || Request(ops[i].size))
        && (ops[i].AllocOp? || LiveAt(ops, live, i, ops[i].index))
  {
    if ops == [] {
    } else {
      var rest, after := ops[1..], LiveAfter(ops[0], live);
      WellFormedExact(rest, after, numIds);
      assert LiveAt(ops, live, 0, ops[0].index) <==> ops[0].index in live;
      forall i | 1 <= i < |ops|
        ensures ops[i] == rest[i - 1]
        ensures LiveAt(ops, live, i, ops[i].index) <==> LiveAt(rest, after, i - 1, rest[i - 1].index)
      {
        LiveAtRest(ops, live, i, ops[i].index);
      }
      WellFormedSplit(ops, live, numIds);
    }
  }

  // ---------- the clients of a run ----------

  /** One operation passes every check of eval_mm_valid and leads from c to d. */
  ghost predicate Leads(c: Client, op: TraceOp, d: Client, signed: bool) {
    CanStep(c, op) && d == Step(c, op) && (op.ReallocOp? && signed ==> op.index % 0x100 < 0x80)
  }

  /** The clients before, between and after the operations of a run from c that passes. */
  ghost predicate Path(c: Client, ops: seq<TraceOp>, cs: seq<Client>, signed: bool) {
    && |cs| == |ops| + 1 && cs[0] == c
    && forall i, j :: 0 <= i < |ops| && j == i + 1 ==> Leads(cs[i], ops[i], cs[j], signed)
  }

  /** When a client can take a step, in terms of its free blocks and the room above the break. */
  lemma CanStepExact(c: Client, op: TraceOp, numIds: int)
    requires ClientInv(c) && OpOk(op, c.ids.Keys, numIds)
    ensures CanStep(c, op) <==>
      op.FreeOp? || (0 < op.size && ((exists x :: Fits(c.heap, x, Need(op.size)))
                                     || c.heap.brk + Max(Need(op.size), CHUNKSIZE) <= c.heap.max))
  {
    hide Inv, Malloc, Fits, PayOk, IdsOk;
    if !op.FreeOp? {
      MallocOutcome(c.heap, op.size);
    }
  }

  lemma PathRest(c: Client, ops: seq<TraceOp>, cs: seq<Client>, signed: bool)
    requires ops != [] && Path(c, ops, cs, signed)
    ensures CanStep(c, ops[0]) && Path(Step(c, ops[0]), ops[1..], cs[1..], signed)
    ensures ops[0].ReallocOp? && signed ==> ops[0].index % 0x100 < 0x80
  {
    hide CanStep, Step;
    assert Leads(cs[0], ops[0], cs[1], signed);
    forall i, j | 0 <= i < |ops| - 1 && j == i + 1 ensures Leads(cs[1..][i], ops[1..][i], cs[1..][j], signed) {
      assert Leads(cs[i + 1], ops[i + 1], cs[j + 1], signed);
    }
  }

  lemma PathCons(c: Client, ops: seq<TraceOp>, cs: seq<Client>, signed: bool)
    requires ops != [] && CanStep(c, ops[0]) && Path(Step(c, ops[0]), ops[1..], cs, signed)
    requires ops[0].ReallocOp? && signed ==> ops[0].index % 0x100 < 0x80
    ensures Path(c, ops, [c] + cs, signed)
  {
    hide CanStep, Step;
    var ds := [c] + cs;
    forall i, j | 0 <= i < |ops| && j == i + 1 ensures Leads(ds[i], ops[i], ds[j], signed) {
      if i > 0 {
        assert Leads(cs[i - 1], ops[1..][i - 1], cs[j - 1], signed);
      }
    }
  }

  lemma FirstOfAccepted(c: Client, ops: seq<TraceOp>, numIds: int, signed: bool)
    requires Tracks(c, ops, numIds) && Accepted(c, ops, numIds, signed) && ops != []
    ensures CanStep(c, ops[0]) && Tracks(Step(c, ops[0]), ops[1..], numIds)
    ensures Accepted(Step(c, ops[0]), ops[1..], numIds, signed)
    ensures Final(c, ops, numIds, signed) == Final(Step(c, ops[0]), ops[1..], numIds, signed)
    ensures ops[0].ReallocOp? && signed ==> ops[0].index % 0x100 < 0x80
  {
    hide Inv, Step, HasRoom;
    TracksStep(c, ops, numIds);
  }

  /** An accepted run has such a sequence ... */
  lemma {:induction false} AcceptedHasPath(c: Client, ops: seq<TraceOp>, numIds: int, signed: bool)
    returns (cs: seq<Client>)
    requires Tracks(c, ops, numIds) && Accepted(c, ops, numIds, signed)
    ensures Path(c, ops, cs, signed)
    decreases |ops|
  {
    hide Inv, Step, CanStep, HasRoom, Tracks;
    if ops == [] {
      cs := [c];
    } else {
      FirstOfAccepted(c, ops, numIds, signed);
      cs := AcceptedHasPath(Step(c, ops[0]), ops[1..], numIds, signed);
      PathCons(c, ops, cs, signed);
      cs := [c] + cs;
    }
  }

  lemma PassesWhenLed(c: Client, ops: seq<TraceOp>, numIds: int, signed: bool)
    requires Tracks(c, ops, numIds) && ops != [] && CanStep(c, ops[0])
    requires ops[0].ReallocOp? && signed ==> ops[0].index % 0x100 < 0x80
    ensures Inv(c.heap) && Passes(c, ops[0], signed)
  {
    hide Inv;
  }

  /** ... and a run that has one is accepted, and ends where the sequence ends. */
  lemma {:induction false} PathAccepted(c: Client, ops: seq<TraceOp>, numIds: int, signed: bool, cs: seq<Client>)
    requires Tracks(c, ops, numIds) && Path(c, ops, cs, signed)
    ensures Accepted(c, ops, numIds, signed) && Final(c, ops, numIds, signed) == cs[|ops|]
    decreases |ops|
  {
    hide Inv, Step, Tracks, Leads, ClientInv, HasRoom;
    if ops == [] {
      RunDone(c, numIds, signed);
    } else {
      PathRest(c, ops, cs, signed);
      PassesWhenLed(c, ops, numIds, signed);
      FirstPasses(c, ops, numIds, signed);
      PathAccepted(Step(c, ops[0]), ops[1..], numIds, signed, cs[1..]);
      FirstOfAccepted(c, ops, numIds, signed);
    }
  }

  /** The sequence is the only one. */
  lemma {:induction false} PathUnique(c: Client, ops: seq<TraceOp>, cs: seq<Client>, ds: seq<Client>, signed: bool)
    requires Path(c, ops, cs, signed) && Path(c, ops, ds, signed)
    ensures cs == ds
    decreases |ops|
  {
    hide CanStep, Step, Leads;
    if ops == [] {
      assert cs == [c] == ds;
    } else {
      PathRest(c, ops, cs, signed);
      PathRest(c, ops, ds, signed);
      PathUnique(Step(c, ops[0]), ops[1..], cs[1..], ds[1..], signed);
      assert cs == [c] + cs[1..] && ds == [c] + ds[1..];
    }
  }

  // ---------- eval_mm_valid ----------

  /** The verdict: a trace is accepted exactly when each of its operations passes in turn. */
  lemma TraceAcceptedExact(max: int, ops: seq<TraceOp>, numIds: int, signed: bool)
    requires FIRST <= max <= TWO31 && WellFormed(ops, {}, numIds)
    ensures TraceAccepted(max, ops, numIds, signed) <==> exists cs :: Path(Start(max), ops, cs, signed)
  {
    hide Inv, ClientInv, Path, Accepted, Initial, WellFormed, Tracks;
    StartTracks(max, ops, numIds);
    if TraceAccepted(max, ops, numIds, signed) {
      var cs := AcceptedHasPath(Start(max), ops, numIds, signed);
    }
    if cs :| Path(Start(max), ops, cs, signed) {
      PathAccepted(Start(max), ops, numIds, signed, cs);
    }
  }

  /** The final client is the last of the sequence. */
  lemma FinalClientExact(d: Client, max: int, ops: seq<TraceOp>, numIds: int, signed: bool)
    requires FIRST <= max <= TWO31 && WellFormed(ops, {}, numIds)
    ensures FinalClient(d, max, ops, numIds, signed) <==>
      exists cs :: Path(Start(max), ops, cs, signed) && cs[|ops|] == d
  {
    hide Inv, ClientInv, Accepted, Final, Initial, WellFormed, Tracks, Leads;
    StartTracks(max, ops, numIds);
    if FinalClient(d, max, ops, numIds, signed) {
      var cs := AcceptedHasPath(Start(max), ops, numIds, signed);
      PathAccepted(Start(max), ops, numIds, signed, cs);
    }
    if cs :| Path(Start(max), ops, cs, signed) && cs[|ops|] == d {
      PathAccepted(Start(max), ops, numIds, signed, cs);
    }
  }

  /** Every well-formed trace of positive sizes that stays within the budget is accepted, and
      its run is defined in C. */
  lemma BudgetAccepted(max: int, ops: seq<TraceOp>, numIds: int, signed: bool)
    requires FIRST <= max <= TWO31 && WellFormed(ops, {}, numIds)
    requires FIRST + CHUNKSIZE + Budget(ops) + 8 <= max
    requires forall i :: 0 <= i < |ops| && !ops[i].FreeOp? ==> 0 < ops[i].size
    requires forall i :: 0 <= i < |ops| && ops[i].ReallocOp? && signed ==> ops[i].index % 0x100 < 0x80
    ensures TraceAccepted(max, ops, numIds, signed) && TraceDefined(max, ops, numIds, signed)
  {
    hide Inv, ClientInv, Accepted, Defined, WellFormed, Tracks, Budget;
    BudgetNotNegative(ops);
    StartTracks(max, ops, numIds);
    StartBreak(max);
    BudgetSuffices(Start(max), ops, numIds, signed);
  }

  /** What C asks of a resize: a positive size finds its block, and the copy ends in the
      buffer. */
  ghost predicate ResizeDefined(c: Client, op: TraceOp) {
    op.ReallocOp? && 0 < op.size ==>
      Inv(c.heap) && op.index in c.ids && HasRoom(c, op) && CopyInside(c.heap, c.ids[op.index], op.size)
  }

  /** Every resize that a passing part of the trace leads to is defined. */
  ghost predicate AllDefined(c: Client, ops: seq<TraceOp>, signed: bool) {
    forall k, cs :: 0 <= k < |ops| && Path(c, ops[..k], cs, signed) ==> ResizeDefined(cs[k], ops[k])
  }

  lemma TracksParts(c: Client, ops: seq<TraceOp>, numIds: int)
    requires Tracks(c, ops, numIds) && ops != []
    ensures Inv(c.heap) && OpOk(ops[0], c.ids.Keys, numIds)
  {
  }

  lemma NothingDefined(c: Client, signed: bool)
    ensures AllDefined(c, [], signed)
  {
  }

  lemma PathOfNothing(c: Client, cs: seq<Client>, signed: bool)
    ensures Path(c, [], cs, signed) <==> cs == [c]
  {
  }

  /** A first operation that passes leaves the rest to be defined. */
  lemma AllDefinedCons(c: Client, ops: seq<TraceOp>, signed: bool)
    requires ops != [] && CanStep(c, ops[0]) && (ops[0].ReallocOp? && signed ==> ops[0].index % 0x100 < 0x80)
    ensures AllDefined(c, ops, signed) <==>
      ResizeDefined(c, ops[0]) && AllDefined(Step(c, ops[0]), ops[1..], signed)
  {
    hide CanStep, Step, ResizeDefined, Leads;
    var d, rest := Step(c, ops[0]), ops[1..];
    PathOfNothing(c, [c], signed);
    assert ops[..0] == [];
    if AllDefined(c, ops, signed) {
      assert ResizeDefined([c][0], ops[0]);
      forall k, cs | 0 <= k < |rest| && Path(d, rest[..k], cs, signed) ensures ResizeDefined(cs[k], rest[k]) {
        assert ops[..k + 1][1..] == rest[..k] && ops[..k + 1][0] == ops[0];
        PathCons(c, ops[..k + 1], cs, signed);
        assert ResizeDefined(([c] + cs)[k + 1], ops[k + 1]);
      }
    }
    if ResizeDefined(c, ops[0]) && AllDefined(d, rest, signed) {
      forall k, cs | 0 <= k < |ops| && Path(c, ops[..k], cs, signed) ensures ResizeDefined(cs[k], ops[k]) {
        if k == 0 {
          PathOfNothing(c, cs, signed);
        } else {
          assert ops[..k][1..] == rest[..k - 1] && ops[..k][0] == ops[0];
          PathRest(c, ops[..k], cs, signed);
          assert ResizeDefined(cs[1..][k - 1], rest[k - 1]);
        }
      }
    }
  }

  /** After a first operation that does not pass nothing more is reached. */
  lemma AllDefinedStops(c: Client, ops: seq<TraceOp>, signed: bool)
    requires ops != [] && !(CanStep(c, ops[0]) && (ops[0].ReallocOp? && signed ==> ops[0].index % 0x100 < 0x80))
    ensures AllDefined(c, ops, signed) <==> ResizeDefined(c, ops[0])
  {
    hide CanStep, Step, ResizeDefined, Leads;
    PathOfNothing(c, [c], signed);
    assert ops[..0] == [];
    if AllDefined(c, ops, signed) {
      assert ResizeDefined([c][0], ops[0]);
    }
    if ResizeDefined(c, ops[0]) {
      forall k, cs | 0 <= k < |ops| && Path(c, ops[..k], cs, signed) ensures ResizeDefined(cs[k], ops[k]) {
        if k == 0 {
          PathOfNothing(c, cs, signed);
        } else {
          PathRest(c, ops[..k], cs, signed);
        }
      }
    }
  }

  lemma {:induction false} DefinedExact(c: Client, ops: seq<TraceOp>, numIds: int, signed: bool)
    requires Tracks(c, ops, numIds)
    ensures Defined(c, ops, numIds, signed) <==> AllDefined(c, ops, signed)
    decreases |ops|
  {
    hide Inv, ClientInv, Step, HasRoom, CopyInside, Path, AllDefined, WellFormed;
    if ops == [] {
      NothingDefined(c, signed);
    } else {
      TracksParts(c, ops, numIds);
      if Passes(c, ops[0], signed) {
        TracksStep(c, ops, numIds);
        DefinedExact(Step(c, ops[0]), ops[1..], numIds, signed);
        AllDefinedCons(c, ops, signed);
      } else {
        AllDefinedStops(c, ops, signed);
      }
    }
  }

  /** The whole run of eval_mm_valid is defined in C exactly when every resize it reaches is. */
  lemma TraceDefinedExact(max: int, ops: seq<TraceOp>, numIds: int, signed: bool)
    requires FIRST <= max <= TWO31 && WellFormed(ops, {}, numIds)
    ensures TraceDefined(max, ops, numIds, signed) <==> AllDefined(Start(max), ops, signed)
  {
    hide Inv, ClientInv, Defined, Initial, WellFormed, Tracks, AllDefined;
    StartTracks(max, ops, numIds);
    DefinedExact(Start(max), ops, numIds, signed);
  }

  // ---------- eval_mm_util ----------

  /** v is the largest total of live request sizes over the clients of a run. */
  ghost predicate HighWater(cs: seq<Client>, v: int) {
    && (forall i :: 0 <= i < |cs| ==> Sum(cs[i].pay) <= v)
    && exists i :: 0 <= i < |cs| && Sum(cs[i].pay) == v
  }

  lemma HighWaterOne(cs: seq<Client>)
    requires |cs| == 1
    ensures HighWater(cs, Sum(cs[0].pay))
  {
    hide Sum;
  }

  lemma HighWaterCons(cs: seq<Client>, v: int)
    requires cs != [] && HighWater(cs[1..], v)
    ensures HighWater(cs, Max(Sum(cs[0].pay), v))
  {
    hide Sum;
    var i :| 0 <= i < |cs[1..]| && Sum(cs[1..][i].pay) == v;
    assert cs[1..][i] == cs[i + 1];
    forall j | 1 <= j < |cs| ensures Sum(cs[j].pay) <= v {
      assert cs[j] == cs[1..][j - 1];
    }
    assert Sum(cs[0].pay) == Max(Sum(cs[0].pay), v) || Sum(cs[i + 1].pay) == Max(Sum(cs[0].pay), v);
  }

  lemma {:induction false} PeakExact(c: Client, ops: seq<TraceOp>, numIds: int, cs: seq<Client>)
    requires Tracks(c, ops, numIds) && Accepted(c, ops, numIds, false) && Path(c, ops, cs, false)
    ensures HighWater(cs, Peak(c, ops, numIds))
    decreases |ops|
  {
    hide Inv, Step, Tracks, Leads, ClientInv, Accepted, Peak, Sum, HighWater;
    PeakStep(c, ops, numIds);
    if ops == [] {
      HighWaterOne(cs);
    } else {
      PathRest(c, ops, cs, false);
      PeakExact(Step(c, ops[0]), ops[1..], numIds, cs[1..]);
      HighWaterCons(cs, Peak(Step(c, ops[0]), ops[1..], numIds));
    }
  }

  /** The peak that eval_mm_util divides by the heap size is the high-water mark of the run. */
  lemma PeakOfExact(max: int, ops: seq<TraceOp>, numIds: int, cs: seq<Client>)
    requires FIRST <= max <= TWO31 && WellFormed(ops, {}, numIds)
    requires TraceAccepted(max, ops, numIds, false) && Path(Start(max), ops, cs, false)
    ensures HighWater(cs, PeakOf(max, ops, numIds))
  {
    hide Inv, ClientInv, Accepted, Initial, WellFormed, Tracks, Peak, Path, HighWater;
    StartTracks(max, ops, numIds);
    PeakExact(Start(max), ops, numIds, cs);
  }
}
