/** Machine words, boundary tags and bytes: the macros at the top of mm.c. */
module Words {
  type Word = x: int | 0 <= x < 0x1_0000_0000

  type Byte = x: int | 0 <= x < 0x100

  /** Largest size find_bucket has a bucket for: `1 << 31` read as an unsigned word. */
  const TWO31 := 0x8000_0000

  /** First block pointer: behind 32 bucket words, padding, prologue and one header. */
  const FIRST := 144

  const WSIZE := 4

  const DSIZE := 8

  const CHUNKSIZE := 4096

  const OVERHEAD := 32

  /** GET_SIZE: the word with its three low bits cleared. */
  function SizeOf(w: int): int {
    w - w % 8
  }

  /** GET_ALLOC: bit 0 of the word, read off its three low bits. */
  predicate IsAlloc(w: int) {
    w % 8 % 2 == 1
  }

  /** PACK: a size that is a multiple of 8 with the allocated bit in bit 0. */
  function Pack(size: int, alloc: bool): (w: int)
    ensures size % 8 == 0 ==> SizeOf(w) == size && IsAlloc(w) == alloc
  {
    assert size % 8 == 0 ==> size == 8 * (size / 8);
    size + if alloc then 1 else 0
  }

  /** ALIGN: the least multiple of 8 that is not below n. */
  function Align(n: int): (r: int)
    ensures r % 8 == 0 && n <= r < n + 8
  {
    (n + 7) - (n + 7) % 8
  }

  function Max(a: int, b: int): int {
    if a > b then a else b
  }

  function Min(a: int, b: int): int {
    if a < b then a else b
  }

  /** Byte k of a word, least significant first. */
  function ByteOf(w: nat, k: nat): Byte {
    if k == 0 then w % 0x100 else ByteOf(w / 0x100, k - 1)
  }

  /** The word that differs from w in byte k only. */
  function WithByte(w: nat, k: nat, v: Byte): nat {
    if k == 0 then w / 0x100 * 0x100 + v else WithByte(w / 0x100, k - 1, v) * 0x100 + w % 0x100
  }

  lemma DivModOf(q: nat, r: Byte)
    ensures (q * 0x100 + r) / 0x100 == q && (q * 0x100 + r) % 0x100 == r
  {
  }

  lemma {:induction false} WithByteAt(w: nat, k: nat, v: Byte, j: nat)
    ensures ByteOf(WithByte(w, k, v), j) == if j == k then v else ByteOf(w, j)
  {
    if k == 0 {
      DivModOf(w / 0x100, v);
    } else {
      DivModOf(WithByte(w / 0x100, k - 1, v), w % 0x100);
      if j == 0 {
      } else {
        WithByteAt(w / 0x100, k - 1, v, j - 1);
      }
    }
  }

  function Pow256(n: nat): nat {
    if n == 0 then 1 else 0x100 * Pow256(n - 1)
  }

  lemma {:induction false} WithByteBound(w: nat, k: nat, v: Byte, n: nat)
    requires k < n && w < Pow256(n)
    ensures WithByte(w, k, v) < Pow256(n)
  {
    assert w / 0x100 < Pow256(n - 1);
    if k == 0 {
    } else {
      WithByteBound(w / 0x100, k - 1, v, n - 1);
    }
  }

  lemma WithByteIsWord(w: Word, k: nat, v: Byte)
    requires k < 4
    ensures WithByte(w, k, v) < 0x1_0000_0000
  {
    assert Pow256(4) == 0x1_0000_0000;
    WithByteBound(w, k, v, 4);
  }
}
