/** What eval_mm_valid's checks rest on: the range list mirrors the live payloads, and every
    payload that an id owns holds that id's low byte. */
module Payloads {
  import opened Words
  import opened Heaps
  import opened MemLib
  import opened Layout
  import opened Ranges
  import opened MmSteps
  import opened Clients

  /** The range list is the set of live payloads. */
  ghost predicate Matches(rs: seq<Range>, pay: map<int, int>) {
    && (forall i :: 0 <= i < |rs| ==> rs[i].lo in pay && rs[i].hi == rs[i].lo + pay[rs[i].lo] - 1)
    && (forall p :: p in pay ==> exists i :: 0 <= i < |rs| && rs[i].lo == p)
    && (forall i, j :: 0 <= i < j < |rs| ==> rs[i].lo != rs[j].lo)
  }

  lemma MatchesAdd(rs: seq<Range>, pay: map<int, int>, p: int, n: int)
    requires Matches(rs, pay) && p !in pay
    ensures Matches([Range(p, p + n - 1)] + rs, pay[p := n])
  {
    var ts, more := [Range(p, p + n - 1)] + rs, pay[p := n];
    forall q | q in more ensures exists i :: 0 <= i < |ts| && ts[i].lo == q {
      if q == p {
        assert ts[0].lo == q;
      } else {
        var i :| 0 <= i < |rs| && rs[i].lo == q;
        assert ts[i + 1].lo == q;
      }
    }
  }

  lemma AtWithout(rs: seq<Range>, k: nat, i: nat)
    requires k < |rs| && i < |rs| - 1
    ensures (rs[..k] + rs[k + 1..])[i] == rs[if i < k then i else i + 1]
  {
  }

  lemma StillApart(rs: seq<Range>, pay: map<int, int>, k: nat, ts: seq<Range>)
    requires Matches(rs, pay) && k < |rs| && |ts| == |rs| - 1
    requires forall i :: 0 <= i < |ts| ==> ts[i] == rs[if i < k then i else i + 1]
    ensures forall i :: 0 <= i < |ts| ==> ts[i].lo != rs[k].lo
    ensures forall i :: 0 <= i < |ts| ==> ts[i].lo in pay && ts[i].hi == ts[i].lo + pay[ts[i].lo] - 1
    ensures forall i, j :: 0 <= i < j < |ts| ==> ts[i].lo != ts[j].lo
  {
  }

  lemma StillListed(rs: seq<Range>, pay: map<int, int>, k: nat, q: int, ts: seq<Range>)
    requires Matches(rs, pay) && k < |rs| && q in pay && q != rs[k].lo && |ts| == |rs| - 1
    requires forall i :: 0 <= i < |ts| ==> ts[i] == rs[if i < k then i else i + 1]
    ensures exists i :: 0 <= i < |ts| && ts[i].lo == q
  {
    var i :| 0 <= i < |rs| && rs[i].lo == q;
    var j := if i < k then i else i - 1;
    assert ts[j] == rs[i];
  }

  lemma MatchesDrop(rs: seq<Range>, pay: map<int, int>, p: int)
    requires Matches(rs, pay) && p in pay
    ensures Matches(Drop(rs, p), pay - {p})
  {
    hide Drop;
    var k :| 0 <= k < |rs| && rs[k].lo == p;
    DropAt(rs, p, k);
    var ts := Drop(rs, p);
    forall i | 0 <= i < |ts| ensures ts[i] == rs[if i < k then i else i + 1] {
      AtWithout(rs, k, i);
    }
    forall q | q in pay - {p} ensures exists i :: 0 <= i < |ts| && ts[i].lo == q {
      StillListed(rs, pay, k, q, ts);
    }
    StillApart(rs, pay, k, ts);
  }

  /** A new payload passes add_range: it is aligned, inside the heap and apart from every
      range already listed. */
  lemma NewRangeAcceptable(rs: seq<Range>, h: Heap, pay: map<int, int>, p: int, n: int)
    requires Inv(h) && PayOk(h, pay) && Matches(rs, pay)
    requires p !in pay && IsLive(h, p - DSIZE) && 0 < n && n + OVERHEAD <= h.blocks[p - DSIZE].size
    ensures Acceptable(rs, p, p + n - 1, h.brk)
  {
    hide Listed, Coalesced, Tiled;
    BlockEnds(h, p - DSIZE);
    SumOf8(p - DSIZE, DSIZE);
    forall r | r in rs ensures !EndpointIn(r, p, p + n - 1) {
      var i :| 0 <= i < |rs| && rs[i] == r;
      assert r.lo - DSIZE in Live(h);
      Disjoint(h, p - DSIZE, r.lo - DSIZE);
      Disjoint(h, r.lo - DSIZE, p - DSIZE);
    }
  }

  /** add_range accepts what mm_malloc returned, and the list then matches. */
  lemma NewRange(rs: seq<Range>, h: Heap, pay: map<int, int>, p: int, n: int)
    requires Inv(h) && PayOk(h, pay[p := n]) && Matches(rs, pay) && p !in pay
    ensures Acceptable(rs, p, p + n - 1, h.brk) && Matches([Range(p, p + n - 1)] + rs, pay[p := n])
  {
    hide Inv, Matches, Acceptable;
    var more := pay[p := n];
    assert p in more && p - DSIZE in Live(h);
    assert PayOk(h, pay) by {
      forall q | q in pay
        ensures q - DSIZE in Live(h) && 0 < pay[q] && pay[q] + OVERHEAD <= Live(h)[q - DSIZE]
      {
        assert q in more && more[q] == pay[q];
      }
    }
    NewRangeAcceptable(rs, h, pay, p, n);
    MatchesAdd(rs, pay, p, n);
  }

  /** Every payload that a live id owns holds the low byte of that id. */
  ghost predicate Filled(m: seq<Word>, ids: map<int, int>, pay: map<int, int>)
    requires IdsOk(ids, pay)
  {
    forall i, a {:trigger i in ids, ByteAt(m, a)} ::
      i in ids && ids[i] <= a < ids[i] + pay[ids[i]] ==> ByteAt(m, a) == i % 0x100
  }

  /** Kept blocks keep their payload bytes. */
  lemma FilledKept(m: seq<Word>, n: seq<Word>, h: Heap, live: map<int, int>, ids: map<int, int>, pay: map<int, int>)
    requires Inv(h) && PayOk(h, pay) && IdsOk(ids, pay) && Filled(m, ids, pay) && Keeps(m, n, live)
    requires forall i :: i in ids ==> ids[i] - DSIZE in live && live[ids[i] - DSIZE] == Live(h)[ids[i] - DSIZE]
    ensures Filled(n, ids, pay)
  {
    hide ByteAt, Load, Tiled, Listed, Coalesced, Keeps;
    forall i, a | i in ids && ids[i] <= a < ids[i] + pay[ids[i]] ensures ByteAt(n, a) == i % 0x100 {
      var p := ids[i];
      assert p in pay && p - DSIZE in Live(h);
      BlockEnds(h, p - DSIZE);
      KeepsByte(m, n, live, p - DSIZE, a);
      assert ByteAt(m, a) == i % 0x100;
    }
  }

  /** memset of one payload fills it and no other. */
  lemma FilledSet(m: seq<Word>, n: seq<Word>, h: Heap, ids: map<int, int>, pay: map<int, int>, id: int, p: int, k: int)
    requires Inv(h) && PayOk(h, pay) && IdsOk(ids, pay) && id in ids && ids[id] == p && pay[p] == k
    requires Filled(m, ids - {id}, pay)
    requires forall a :: ByteAt(n, a) == if p <= a < p + k then id % 0x100 else ByteAt(m, a)
    ensures Filled(n, ids, pay)
  {
    hide ByteAt, Load, Tiled, Listed, Coalesced;
    forall i, a | i in ids && ids[i] <= a < ids[i] + pay[ids[i]] ensures ByteAt(n, a) == i % 0x100 {
      if i != id {
        var q := ids[i];
        assert q in pay && p in pay && q != p;
        assert q - DSIZE in Live(h) && p - DSIZE in Live(h);
        Disjoint(h, p - DSIZE, q - DSIZE);
        Disjoint(h, q - DSIZE, p - DSIZE);
        assert i in ids - {id} && ByteAt(m, a) == i % 0x100;
      }
    }
  }

  /** Ids other than id keep what they own, so they keep their bytes. */
  lemma FilledOthers(m: seq<Word>, ids: map<int, int>, pay: map<int, int>, ids2: map<int, int>,
                     pay2: map<int, int>, id: int)
    requires IdsOk(ids, pay) && Filled(m, ids, pay) && IdsOk(ids2, pay2)
    requires forall i :: i in ids2 && i != id ==> i in ids && ids2[i] == ids[i] && pay2[ids[i]] == pay[ids[i]]
    ensures IdsOk(ids2 - {id}, pay2) && Filled(m, ids2 - {id}, pay2)
  {
  }

  /** Ids other than id own what they owned. */
  ghost predicate OthersSame(c: Client, d: Client, id: int) {
    && IdsOk(c.ids, c.pay) && IdsOk(d.ids, d.pay)
    && forall i :: i in d.ids && i != id ==>
         i in c.ids && d.ids[i] == c.ids[i] && d.pay[d.ids[i]] == c.pay[d.ids[i]]
  }

  lemma ClientParts(c: Client)
    requires ClientInv(c)
    ensures Inv(c.heap) && IdsOk(c.ids, c.pay)
  {
  }

  lemma ClientTiled(c: Client)
    requires ClientInv(c)
    ensures Tiled(c.heap)
  {
  }

  lemma OwnersLive(c: Client)
    requires ClientInv(c)
    ensures forall i :: i in c.ids ==> c.ids[i] - DSIZE in Live(c.heap)
  {
  }

  lemma AllocOthers(c: Client, index: int, size: int)
    requires CanStep(c, AllocOp(index, size))
    ensures OthersSame(c, Step(c, AllocOp(index, size)), index)
  {
    hide Inv, Malloc;
    StepAlloc(c, index, size);
    StepKeeps(c, AllocOp(index, size));
  }

  /** The checks on the payload p of id index will pass: the list rs accepts its range and then
      mirrors the client, and the other ids' bytes are there. */
  ghost predicate Admissible(m: seq<Word>, rs: seq<Range>, d: Client, index: int, p: int, size: int) {
    && index in d.ids && d.ids[index] == p && p in d.pay && d.pay[p] == size
    && Acceptable(rs, p, p + size - 1, d.heap.brk) && Matches([Range(p, p + size - 1)] + rs, d.pay)
    && IdsOk(d.ids - {index}, d.pay) && Filled(m, d.ids - {index}, d.pay)
  }

  lemma CanStepParts(c: Client, op: TraceOp)
    requires CanStep(c, op)
    ensures ClientInv(c) && IdsOk(c.ids, c.pay) && ClientInv(Step(c, op))
  {
    hide Inv, PayOk, HasRoom, OpOk, Step;
    StepKeeps(c, op);
  }

  /** The other ids keep their bytes through mm_malloc. */
  lemma AllocFilled(m: seq<Word>, n: seq<Word>, c: Client, index: int, d: Client)
    requires ClientInv(c) && ClientInv(d) && OthersSame(c, d, index)
    requires Filled(m, c.ids, c.pay) && Keeps(m, n, Live(c.heap))
    ensures IdsOk(d.ids - {index}, d.pay) && Filled(n, d.ids - {index}, d.pay)
  {
    hide Inv, Keeps, PayOk, Filled, Load, ByteAt, IdsOk, Live;
    ClientParts(c);
    ClientParts(d);
    OwnersLive(c);
    FilledKept(m, n, c.heap, Live(c.heap), c.ids, c.pay);
    FilledOthers(n, c.ids, c.pay, d.ids, d.pay, index);
  }

  /** After mm_malloc the new payload passes. */
  lemma AllocReady(m: seq<Word>, n: seq<Word>, rs: seq<Range>, c: Client, index: int, size: int, d: Client, p: int)
    requires CanStep(c, AllocOp(index, size)) && Matches(rs, c.pay)
    requires Filled(m, c.ids, c.pay) && Keeps(m, n, Live(c.heap))
    requires d == Step(c, AllocOp(index, size)) && p !in c.pay
    requires d.ids == c.ids[index := p] && d.pay == c.pay[p := size]
    ensures Admissible(n, rs, d, index, p, size)
  {
    hide Inv, Keeps, PayOk, Matches, Filled, Acceptable, Step, IdsOk, CanStep, Live, OthersSame;
    CanStepParts(c, AllocOp(index, size));
    AllocOthers(c, index, size);
    AllocFilled(m, n, c, index, d);
    NewRange(rs, d.heap, c.pay, p, size);
  }

  lemma MovedBytes(m: seq<Word>, n: seq<Word>, c: Client, index: int, p: int, k: int, j: int)
    requires IdsOk(c.ids, c.pay) && index in c.ids && Filled(m, c.ids, c.pay)
    requires Moved(m, n, c.ids[index], p, k) && j <= k && j <= c.pay[c.ids[index]]
    ensures forall a :: p <= a < p + j ==> ByteAt(n, a) == index % 0x100
  {
  }

  /** After mm_realloc the new payload passes against the list without the old range, and the
      copied bytes are the id's low byte. */
  lemma MovedReady(m: seq<Word>, n: seq<Word>, rs: seq<Range>, c: Client, index: int, size: int)
    requires CanStep(c, ReallocOp(index, size)) && index in c.ids && Matches(rs, c.pay) && Filled(m, c.ids, c.pay)
    requires c.ids[index] - DSIZE in c.heap.blocks
    requires Keeps(m, n, Live(c.heap) - {c.ids[index] - DSIZE})
    requires index in Step(c, ReallocOp(index, size)).ids
    requires Moved(m, n, c.ids[index], Step(c, ReallocOp(index, size)).ids[index],
                   Min(size, c.heap.blocks[c.ids[index] - DSIZE].size - 16))
    ensures var d, q := Step(c, ReallocOp(index, size)), c.ids[index];
      var p := d.ids[index];
      && Admissible(n, Drop(rs, q), d, index, p, size)
      && q in c.pay && forall a :: p <= a < p + Min(size, c.pay[q]) ==> ByteAt(n, a) == index % 0x100
  {
    hide Inv, Keeps, Malloc, Realloc, PayOk, Matches, Filled, Load, ByteAt, Acceptable, Moved, Step;
    ReallocSteps(c, index, size, index + 1);
    ClientParts(c);
    var d, q := Step(c, ReallocOp(index, size)), c.ids[index];
    ClientParts(d);
    var p := d.ids[index];
    MatchesDrop(rs, c.pay, q);
    assert (c.pay - {q})[p := size] == d.pay;
    NewRange(Drop(rs, q), d.heap, c.pay - {q}, p, size);
    MovedBytes(m, n, c, index, p, Min(size, c.heap.blocks[q - DSIZE].size - 16), Min(size, c.pay[q]));
    FilledOthers(m, c.ids, c.pay, c.ids, c.pay, index);
    OwnersLive(c);
    FilledKept(m, n, c.heap, Live(c.heap) - {q - DSIZE}, c.ids - {index}, c.pay);
    FilledOthers(n, c.ids - {index}, c.pay, d.ids, d.pay, index);
    assert d.ids - {index} - {index} == d.ids - {index};
  }

  lemma MovedOthers(c: Client, index: int, size: int)
    requires CanStep(c, ReallocOp(index, size))
    ensures OthersSame(c, Step(c, ReallocOp(index, size)), index)
  {
    hide Inv, Malloc, Realloc, Step;
    ReallocSteps(c, index, size, index + 1);
    ClientParts(c);
    ClientParts(Step(c, ReallocOp(index, size)));
  }

  /** After mm_free: list and bytes without the freed id. */
  lemma ReleasedReady(m: seq<Word>, n: seq<Word>, rs: seq<Range>, c: Client, index: int)
    requires CanStep(c, FreeOp(index)) && index in c.ids && Matches(rs, c.pay) && Filled(m, c.ids, c.pay)
    requires Keeps(m, n, Live(Step(c, FreeOp(index)).heap))
    ensures var d := Step(c, FreeOp(index));
      Matches(Drop(rs, c.ids[index]), d.pay) && Filled(n, d.ids, d.pay)
  {
    hide Inv, Keeps, FreeStep, PayOk, Matches, Filled, Load, ByteAt, Step;
    FreeSteps(c, index, index + 1);
    ClientParts(c);
    var d, q := Step(c, FreeOp(index)), c.ids[index];
    MatchesDrop(rs, c.pay, q);
    FilledOthers(m, c.ids, c.pay, c.ids, c.pay, index);
    OwnersLive(c);
    FilledKept(m, n, c.heap, Live(d.heap), c.ids - {index}, c.pay);
    ClientParts(d);
    FilledOthers(n, c.ids - {index}, c.pay, d.ids, d.pay, index);
    assert d.ids - {index} == d.ids;
  }

  lemma StartChecked(m: seq<Word>, max: int)
    requires FIRST <= max <= TWO31
    ensures var c := Clients.Start(max);
      ClientInv(c) && Filled(m, c.ids, c.pay) && Matches([], c.pay)
  {
    StartTracks(max, [], 0);
  }

  lemma FreeRecorded(c: Client, index: int)
    requires CanStep(c, FreeOp(index))
    ensures OthersSame(c, Step(c, FreeOp(index)), index)
  {
  }

  lemma Ratio(a: int, b: int)
    requires 0 <= a <= b && 0 < b
    ensures 0.0 <= a as real / b as real <= 1.0
  {
  }
}
