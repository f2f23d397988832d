/** memlib.c: the simulated break over one buffer. Addresses are offsets from the start of
    the buffer, so 0 is both mem_heap_lo and the null pointer. */
module MemLib {
  import opened Words

  /** MAX_HEAP of config.h. */
  const MAX_HEAP := 20 * 0x10_0000

  /** mem_sbrk's parameter is an int: larger words arrive negative. */
  function AsInt(w: Word): int {
    if w < TWO31 then w else w - 0x1_0000_0000
  }

  /** The word at address a; 0 when a is not the address of a word of the buffer. */
  function Load(m: seq<Word>, a: int): Word {
    if a % 4 == 0 && 0 <= a < 4 * |m| then m[a / 4] else 0
  }

  /** The byte at address a. */
  function ByteAt(m: seq<Word>, a: int): Byte {
    ByteOf(Load(m, a - a % 4), a % 4)
  }

  /** Memory n is m with the k bytes from src copied to dst. */
  ghost predicate Copied(m: seq<Word>, n: seq<Word>, dst: int, src: int, k: int) {
    forall i :: ByteAt(n, i) == ByteAt(m, if dst <= i < dst + k then src + (i - dst) else i)
  }

  lemma CopyStep(l: seq<Word>, m: seq<Word>, n: seq<Word>, dst: int, src: int, k: nat)
    requires Copied(l, m, dst, src, k) && (dst + k < src || src + k < dst)
    requires forall i :: ByteAt(n, i) == if i == dst + k then ByteAt(m, src + k) else ByteAt(m, i)
    ensures Copied(l, n, dst, src, k + 1)
  {
  }

  /** Memory n is m with v stored at address a. */
  ghost predicate Stored(m: seq<Word>, n: seq<Word>, a: int, v: Word) {
    |n| == |m| && forall b :: Load(n, b) == if b == a then v else Load(m, b)
  }

  lemma StoredWord(m: seq<Word>, a: int, v: Word)
    requires a % 4 == 0 && 0 <= a < 4 * |m|
    ensures Stored(m, m[a / 4 := v], a, v)
  {
  }

  /** Storing a word with one byte changed stores that byte. */
  lemma ByteStored(m: seq<Word>, n: seq<Word>, a: int, v: Byte)
    requires WithByte(Load(m, a - a % 4), a % 4, v) < 0x1_0000_0000
    requires Stored(m, n, a - a % 4, WithByte(Load(m, a - a % 4), a % 4, v))
    ensures forall i :: ByteAt(n, i) == if i == a then v else ByteAt(m, i)
  {
    hide Load, WithByte, ByteOf;
    forall i ensures ByteAt(n, i) == if i == a then v else ByteAt(m, i) {
      WithByteAt(Load(m, a - a % 4), a % 4, v, i % 4);
    }
  }

  lemma WordCount(limit: int)
    requires limit % 8 == 0
    ensures 4 * (limit / 4) == limit
  {
  }

  class MemSystem {
    const data: array<Word>
    const maxAddr: int
    var brk: int

    ghost predicate Valid()
      reads this
    {
      && FIRST <= maxAddr <= TWO31 && maxAddr % 8 == 0 && 4 * data.Length == maxAddr
      && 0 <= brk <= maxAddr
    }

    /** mem_init: the buffer's contents are arbitrary. The repository's limit is MAX_HEAP;
        any multiple of 8 with room for the bucket words and the prologue will do. */
    constructor (limit: int)
      requires FIRST <= limit <= TWO31 && limit % 8 == 0
      ensures Valid() && fresh(data) && maxAddr == limit && brk == 0
    {
      WordCount(limit);
      data := new Word[limit / 4];
      maxAddr := limit;
      brk := 0;
    }

    /** mem_reset_brk */
    method ResetBrk()
      requires Valid()
      modifies this`brk
      ensures Valid() && brk == 0
    {
      brk := 0;
    }

    /** mem_sbrk: the old break, or -1 when incr is negative as an int or the buffer ends. */
    method Sbrk(incr: Word) returns (r: int)
      requires Valid()
      modifies this`brk
      ensures Valid()
      ensures AsInt(incr) < 0 || old(brk) + incr > maxAddr ==> r == -1 && brk == old(brk)
      ensures AsInt(incr) >= 0 && old(brk) + incr <= maxAddr ==> r == old(brk) && brk == old(brk) + incr
    {
      var i := AsInt(incr);
      if i < 0 || brk + i > maxAddr {
        return -1;
      }
      r := brk;
      brk := brk + i;
    }

    /** mem_heap_hi */
    function HeapHi(): int
      reads this
    {
      brk - 1
    }

    /** mem_heapsize */
    function HeapSize(): int
      reads this
    {
      brk
    }

    /** GET */
    function Get(a: int): (w: Word)
      requires a % 4 == 0 && 0 <= a < 4 * data.Length
      reads data
      ensures w == Load(data[..], a)
    {
      data[a / 4]
    }

    /** PUT */
    method Put(a: int, v: Word)
      requires a % 4 == 0 && 0 <= a < 4 * data.Length
      modifies data
      ensures Stored(old(data[..]), data[..], a, v)
    {
      StoredWord(data[..], a, v);
      data[a / 4] := v;
      assert data[..] == old(data[..])[a / 4 := v];
    }

    function GetByte(a: int): (v: Byte)
      requires 0 <= a < 4 * data.Length
      reads data
      ensures v == ByteAt(data[..], a)
    {
      ByteOf(data[a / 4], a % 4)
    }

    method PutByte(a: int, v: Byte)
      requires 0 <= a < 4 * data.Length
      modifies data
      ensures |data[..]| == |old(data[..])|
      ensures forall b :: b != a - a % 4 ==> Load(data[..], b) == old(Load(data[..], b))
      ensures forall i :: ByteAt(data[..], i) == if i == a then v else old(ByteAt(data[..], i))
    {
      ghost var m := data[..];
      var c := a - a % 4;
      WithByteIsWord(Get(c), a % 4, v);
      Put(c, WithByte(Get(c), a % 4, v));
      ByteStored(m, data[..], a, v);
    }

    /** memset of the C library: n bytes from p. */
    method MemSet(p: int, v: Byte, n: nat)
      requires 0 <= p && p + n <= 4 * data.Length
      modifies data
      ensures |data[..]| == |old(data[..])|
      ensures forall i :: ByteAt(data[..], i) == if p <= i < p + n then v else old(ByteAt(data[..], i))
      ensures forall a :: a + 4 <= p || p + n <= a ==> Load(data[..], a) == old(Load(data[..], a))
    {
      hide Load, ByteAt;
      for k := 0 to n
        invariant forall i :: ByteAt(data[..], i) == if p <= i < p + k then v else old(ByteAt(data[..], i))
        invariant forall a :: a + 4 <= p || p + k <= a ==> Load(data[..], a) == old(Load(data[..], a))
      {
        PutByte(p + k, v);
      }
    }

    /** memcpy of the C library: the ranges may not overlap. */
    method MemCpy(dst: int, src: int, n: nat)
      requires 0 <= dst && dst + n <= 4 * data.Length && 0 <= src && src + n <= 4 * data.Length
      requires dst + n <= src || src + n <= dst
      modifies data
      ensures |data[..]| == |old(data[..])|
      ensures Copied(old(data[..]), data[..], dst, src, n)
      ensures forall a :: a + 4 <= dst || dst + n <= a ==> Load(data[..], a) == old(Load(data[..], a))
    {
      hide Load, ByteAt;
      for k := 0 to n
        invariant Copied(old(data[..]), data[..], dst, src, k)
        invariant forall a :: a + 4 <= dst || dst + k <= a ==> Load(data[..], a) == old(Load(data[..], a))
      {
        ghost var m := data[..];
        PutByte(dst + k, GetByte(src + k));
        CopyStep(old(data[..]), m, data[..], dst, src, k);
      }
    }
  }
}
