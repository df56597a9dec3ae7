/** Linear memory of the wasm32 host as the engine sees it: one buffer viewed
    through the typed arrays HEAPU8, HEAPU16, HEAPU32, HEAPF32 and HEAPF64,
    the 64-bit split/join helpers, and the stack-allocation arithmetic
    (ALIGN_ADDRESS / STACK_ALLOC).

    The buffer is kept as its sequence of little-endian 32-bit words (the
    HEAPU32 view); the byte, half-word and 64-bit views are defined on those
    words, so all views share one state exactly as the typed arrays share
    one ArrayBuffer. */
module LinearMemory {

  type Byte = b: int | 0 <= b < 256

  const TWO16: int := 0x1_0000
  const TWO31: int := 0x8000_0000
  const TWO32: int := 0x1_0000_0000
  const TWO64: int := 0x1_0000_0000_0000_0000

  /** A value that a HEAPU32 element can hold. */
  type U32 = x: int | 0 <= x < TWO32

  /** A value that a HEAPU16 element can hold. */
  type U16 = x: int | 0 <= x < TWO16

  /** Linear memory: word index -> word. Words never written read as 0
      (wasm memory starts zeroed). */
  type Memory = map<int, U32>

  function Word(m: Memory, i: int): U32
  {
    if i in m then m[i] else 0
  }

  // ---- bytes and half-words inside a word (little-endian) ------------------

  /** Byte k (0 = least significant) of a word. */
  function ByteOf(w: U32, k: int): Byte
    requires 0 <= k < 4
  {
    if k == 0 then w % 0x100
    else if k == 1 then w / 0x100 % 0x100
    else if k == 2 then w / 0x1_0000 % 0x100
    else w / 0x100_0000
  }

  /** The word with bytes b0 (lowest) to b3. */
  function Join(b0: Byte, b1: Byte, b2: Byte, b3: Byte): U32
  {
    b0 + 0x100 * b1 + 0x1_0000 * b2 + 0x100_0000 * b3
  }

  lemma JoinBytes(b0: Byte, b1: Byte, b2: Byte, b3: Byte)
    ensures ByteOf(Join(b0, b1, b2, b3), 0) == b0
    ensures ByteOf(Join(b0, b1, b2, b3), 1) == b1
    ensures ByteOf(Join(b0, b1, b2, b3), 2) == b2
    ensures ByteOf(Join(b0, b1, b2, b3), 3) == b3
  {
    var w := Join(b0, b1, b2, b3);
    assert w == b0 + 0x100 * (b1 + 0x100 * (b2 + 0x100 * b3));
    assert w / 0x100 == b1 + 0x100 * (b2 + 0x100 * b3);
    assert w / 0x1_0000 == b2 + 0x100 * b3;
    assert w / 0x100_0000 == b3;
  }

  /** The word w with byte k replaced by b. */
  function WithByte(w: U32, k: int, b: Byte): U32
    requires 0 <= k < 4
  {
    Join(if k == 0 then b else ByteOf(w, 0),
         if k == 1 then b else ByteOf(w, 1),
         if k == 2 then b else ByteOf(w, 2),
         if k == 3 then b else ByteOf(w, 3))
  }

  /** Replacing byte k changes byte k to b and no other byte. */
  lemma WithByteBytes(w: U32, k: int, b: Byte, j: int)
    requires 0 <= k < 4 && 0 <= j < 4
    ensures ByteOf(WithByte(w, k, b), j) == if j == k then b else ByteOf(w, j)
  {
    JoinBytes(if k == 0 then b else ByteOf(w, 0),
              if k == 1 then b else ByteOf(w, 1),
              if k == 2 then b else ByteOf(w, 2),
              if k == 3 then b else ByteOf(w, 3));
  }

  /** Half-word j (0 = low) of a word. */
  function HalfOf(w: U32, j: int): U16
    requires 0 <= j < 2
  {
    if j == 0 then w % TWO16 else w / TWO16
  }

  /** The word w with half-word j replaced by h. */
  function WithHalf(w: U32, j: int, h: U16): U32
  {
    if j == 0 then h + TWO16 * HalfOf(w, 1) else HalfOf(w, 0) + TWO16 * h
  }

  lemma WithHalfHalves(w: U32, j: int, h: U16, i: int)
    requires 0 <= j < 2 && 0 <= i < 2
    ensures HalfOf(WithHalf(w, j, h), i) == if i == j then h else HalfOf(w, i)
  {
  }

  // ---- typed-array views -------------------------------------------------

  /** Word index of HEAPU32[(addr >> 2) + off] (also HEAPF32). */
  function WordIndex(addr: int, off: int): int { addr / 4 + off }
  /** Byte address of HEAPU32[(addr >> 2) + off]. */
  function W32(addr: int, off: int): int { WordIndex(addr, off) * 4 }
  /** Index of HEAPU16[(addr >> 1) + off]. */
  function HalfIndex(addr: int, off: int): int { addr / 2 + off }
  /** Index of HEAPF64[(addr >> 3) + off]; it covers words 2i and 2i + 1. */
  function DoubleIndex(addr: int, off: int): int { addr / 8 + off }

  /** DEREF_U8(addr, 0) */
  function LoadU8(m: Memory, addr: int): Byte
  {
    ByteOf(Word(m, addr / 4), addr % 4)
  }
  /** DEREF_U16(addr, off) */
  function LoadU16(m: Memory, addr: int, off: int): U16
  {
    var h := HalfIndex(addr, off);
    HalfOf(Word(m, h / 2), h % 2)
  }
  /** DEREF_U32(addr, off) */
  function LoadU32(m: Memory, addr: int, off: int): U32
  {
    Word(m, WordIndex(addr, off))
  }
  /** DEREF_F32(addr, off), as an opaque bit pattern. */
  function LoadF32Bits(m: Memory, addr: int, off: int): U32
  {
    Word(m, WordIndex(addr, off))
  }
  /** DEREF_F64(addr, off), as an opaque bit pattern. */
  function LoadF64Bits(m: Memory, addr: int, off: int): nat
  {
    var d := DoubleIndex(addr, off);
    Word(m, 2 * d) + TWO32 * Word(m, 2 * d + 1)
  }

  /** A JS store into HEAPU8/HEAP8 keeps the value mod 2^8. */
  function StoreU8(m: Memory, addr: int, v: int): Memory
  {
    m[addr / 4 := WithByte(Word(m, addr / 4), addr % 4, v % 0x100)]
  }
  /** A JS store into HEAPU16 keeps the value mod 2^16. */
  function StoreU16(m: Memory, addr: int, off: int, v: int): Memory
  {
    var h := HalfIndex(addr, off);
    m[h / 2 := WithHalf(Word(m, h / 2), h % 2, v % TWO16)]
  }
  /** A JS store into HEAPU32 keeps the value mod 2^32. */
  function StoreU32(m: Memory, addr: int, off: int, v: int): Memory
  {
    m[WordIndex(addr, off) := v % TWO32]
  }
  function StoreF32Bits(m: Memory, addr: int, off: int, bits: int): Memory
  {
    m[WordIndex(addr, off) := bits % TWO32]
  }
  function StoreF64Bits(m: Memory, addr: int, off: int, bits: int): Memory
  {
    var d := DoubleIndex(addr, off);
    var b := bits % TWO64;
    m[2 * d := b % TWO32][2 * d + 1 := b / TWO32]
  }

  lemma U8RoundTrip(m: Memory, addr: int, v: int)
    ensures LoadU8(StoreU8(m, addr, v), addr) == v % 256
  {
    WithByteBytes(Word(m, addr / 4), addr % 4, v % 0x100, addr % 4);
  }

  /** A byte store leaves every other byte alone. */
  lemma U8OtherByte(m: Memory, addr: int, v: int, addr2: int)
    requires addr != addr2
    ensures LoadU8(StoreU8(m, addr, v), addr2) == LoadU8(m, addr2)
  {
    if addr / 4 == addr2 / 4 {
      WithByteBytes(Word(m, addr / 4), addr % 4, v % 0x100, addr2 % 4);
    }
  }

  lemma U16RoundTrip(m: Memory, addr: int, off: int, v: int)
    ensures LoadU16(StoreU16(m, addr, off, v), addr, off) == v % TWO16
  {
    var h := HalfIndex(addr, off);
    WithHalfHalves(Word(m, h / 2), h % 2, v % TWO16, h % 2);
  }

  lemma U32RoundTrip(m: Memory, addr: int, off: int, v: int)
    ensures LoadU32(StoreU32(m, addr, off, v), addr, off) == v % TWO32
  {
  }

  /** Storing a value that already fits in 32 bits keeps it exactly. */
  lemma U32RoundTripExact(m: Memory, addr: int, off: int, v: int)
    requires 0 <= v < TWO32
    ensures LoadU32(StoreU32(m, addr, off, v), addr, off) == v
  {
  }

  lemma F32RoundTrip(m: Memory, addr: int, off: int, bits: int)
    ensures LoadF32Bits(StoreF32Bits(m, addr, off, bits), addr, off) == bits % TWO32
  {
  }

  lemma F64RoundTrip(m: Memory, addr: int, off: int, bits: int)
    ensures LoadF64Bits(StoreF64Bits(m, addr, off, bits), addr, off) == bits % TWO64
  {
    var b := bits % TWO64;
    assert b == b % TWO32 + TWO32 * (b / TWO32);
  }

  /** A HEAPU32 store leaves every other HEAPU32 element unchanged. */
  lemma U32OtherWord(m: Memory, addr: int, off: int, v: int, addr2: int, off2: int)
    requires W32(addr, off) != W32(addr2, off2)
    ensures LoadU32(StoreU32(m, addr, off, v), addr2, off2) == LoadU32(m, addr2, off2)
  {
  }

  /** m1 and m2 agree on every word from index top up. */
  ghost predicate SameFrom(m1: Memory, m2: Memory, top: int)
  {
    forall w :: w >= top ==> Word(m1, w) == Word(m2, w)
  }

  lemma SameFromTrans(m1: Memory, m2: Memory, m3: Memory, top1: int, top2: int)
    requires SameFrom(m1, m2, top1) && SameFrom(m2, m3, top2) && top1 <= top2
    ensures SameFrom(m1, m3, top2)
  {
  }

  /** m1 and m2 agree on every byte in [lo, hi). */
  ghost predicate SameBytes(m1: Memory, m2: Memory, lo: int, hi: int)
  {
    forall a :: lo <= a < hi ==> LoadU8(m1, a) == LoadU8(m2, a)
  }

  /** A word is the join of its four bytes. */
  lemma WordOfBytes(w: U32)
    ensures w == Join(ByteOf(w, 0), ByteOf(w, 1), ByteOf(w, 2), ByteOf(w, 3))
  {
    var r1 := w / 0x100;
    var r2 := r1 / 0x100;
    assert w == w % 0x100 + 0x100 * r1;
    assert r1 == r1 % 0x100 + 0x100 * r2;
    assert r2 == r2 % 0x100 + 0x100 * (r2 / 0x100);
    assert r2 == w / 0x1_0000;
    assert r2 / 0x100 == w / 0x100_0000;
  }

  /** A half-word is its low byte plus 256 times its high byte. */
  lemma HalfOfBytes(w: U32, j: int)
    requires 0 <= j < 2
    ensures HalfOf(w, j) == ByteOf(w, 2 * j) + 0x100 * ByteOf(w, 2 * j + 1)
  {
    WordOfBytes(w);
  }

  /** Byte k of a word whose half-word j (not holding byte k) is replaced
      keeps its value. */
  lemma WithHalfOtherByte(w: U32, j: int, h: U16, k: int)
    requires 0 <= j < 2 && 0 <= k < 4 && k / 2 != j
    ensures ByteOf(WithHalf(w, j, h), k) == ByteOf(w, k)
  {
    var w2 := WithHalf(w, j, h);
    WordOfBytes(w);
    WordOfBytes(w2);
    HalfOfBytes(w2, 1 - j);
    HalfOfBytes(w, 1 - j);
    WithHalfHalves(w, j, h, 1 - j);
  }

  /** Two memories that agree on the four bytes of word i agree on word i. */
  lemma WordByBytes(m1: Memory, m2: Memory, i: int)
    requires SameBytes(m1, m2, 4 * i, 4 * i + 4)
    ensures Word(m1, i) == Word(m2, i)
  {
    forall k | 0 <= k < 4
      ensures ByteOf(Word(m1, i), k) == ByteOf(Word(m2, i), k)
    {
      assert (4 * i + k) / 4 == i && (4 * i + k) % 4 == k;
      assert LoadU8(m1, 4 * i + k) == LoadU8(m2, 4 * i + k);
    }
    WordOfBytes(Word(m1, i));
    WordOfBytes(Word(m2, i));
  }

  /** Two memories that agree on the two bytes of an aligned half-word
      agree on that HEAPU16 element. */
  lemma HalfByBytes(m1: Memory, m2: Memory, q: int)
    requires q % 2 == 0 && SameBytes(m1, m2, q, q + 2)
    ensures LoadU16(m1, q, 0) == LoadU16(m2, q, 0)
  {
    var h := HalfIndex(q, 0);
    var j := h % 2;
    assert q / 4 == h / 2 && q % 4 == 2 * j && (q + 1) / 4 == h / 2 && (q + 1) % 4 == 2 * j + 1;
    assert LoadU8(m1, q) == LoadU8(m2, q) && LoadU8(m1, q + 1) == LoadU8(m2, q + 1);
    HalfOfBytes(Word(m1, h / 2), j);
    HalfOfBytes(Word(m2, h / 2), j);
  }

  /** A HEAPU16 store changes only the two bytes of its element. */
  lemma U16OtherByte(m: Memory, q: int, v: int, a: int)
    requires q % 2 == 0 && a != q && a != q + 1
    ensures LoadU8(StoreU16(m, q, 0, v), a) == LoadU8(m, a)
  {
    var h := HalfIndex(q, 0);
    if a / 4 == h / 2 {
      assert (a % 4) / 2 != h % 2;
      WithHalfOtherByte(Word(m, h / 2), h % 2, v % TWO16, a % 4);
    }
  }

  // ---- 64-bit split / join (the non-BigInt64Array build) --------------------

  /** `Number(x) | 0`: ECMAScript ToInt32. */
  function ToInt32(x: int): (r: int)
    ensures -TWO31 <= r < TWO31 && r % TWO32 == x % TWO32
  {
    var u := x % TWO32;
    if u >= TWO31 then u - TWO32 else u
  }

  /** BIGINT_LOWER(x): `Number(x & 0xffffffff) | 0`. */
  function BigIntLower(x: int): int { ToInt32(x % TWO32) }

  /** BIGINT_UPPER(x): `Number(x >> 32) | 0` (BigInt shift floors). */
  function BigIntUpper(x: int): int { ToInt32(x / TWO32) }

  /** BIGINT_FROM_PAIR(lower, upper) for the HEAPU32 words it is applied to:
      the bits of lower and upper<<32 do not overlap, so `|` is a sum. */
  function BigIntFromPair(lower: U32, upper: U32): (r: int)
    ensures 0 <= r < TWO64
  {
    lower + upper * TWO32
  }

  /** LOAD_U64(addr, offset) */
  function LoadU64(m: Memory, addr: int, off: int): (r: int)
    ensures 0 <= r < TWO64
  {
    BigIntFromPair(LoadU32(m, addr, off * 2), LoadU32(m, addr, off * 2 + 1))
  }

  /** STORE_U64(addr, offset, val): lower word first, then upper word. */
  function StoreU64(m: Memory, addr: int, off: int, v: int): Memory
  {
    StoreU32(StoreU32(m, addr, off * 2, BigIntLower(v)), addr, off * 2 + 1, BigIntUpper(v))
  }

  /** Joining the two stored halves gives back the value mod 2^64. */
  lemma SplitJoin(v: int)
    ensures BigIntFromPair(BigIntLower(v) % TWO32, BigIntUpper(v) % TWO32) == v % TWO64
  {
    var lo := v % TWO32;
    var q := v / TWO32;
    var hi := q % TWO32;
    assert BigIntLower(v) % TWO32 == lo;
    assert BigIntUpper(v) % TWO32 == hi;
    assert v == q * TWO32 + lo;
    assert q == (q / TWO32) * TWO32 + hi;
    ModOfSum(v, q / TWO32, hi * TWO32 + lo);
  }

  /** v % 2^64 is the remainder r of any split v = k * 2^64 + r. */
  lemma ModOfSum(v: int, k: int, r: int)
    requires v == k * TWO64 + r && 0 <= r < TWO64
    ensures v % TWO64 == r
  {
  }

  /** STORE_U64 followed by LOAD_U64 at the same place gives back the value
      mod 2^64 (so any value below 2^64 unchanged). */
  lemma U64RoundTrip(m: Memory, addr: int, off: int, v: int)
    ensures LoadU64(StoreU64(m, addr, off, v), addr, off) == v % TWO64
  {
    SplitJoin(v);
  }

  // ---- auxiliary stack allocation ---------------------------------------

  /** The alignments STACK_ALLOC is used with (powers of two, for which
      `addr & ~(align - 1)` rounds addr down to a multiple of align). */
  predicate ValidAlign(align: int)
  {
    align == 1 || align == 2 || align == 4 || align == 8 || align == 16
  }

  /** addr is a multiple of align. Written per alignment so that every
      remainder has a literal divisor. */
  predicate Aligned(addr: int, align: int)
    requires ValidAlign(align)
  {
    if align == 1 then true
    else if align == 2 then addr % 2 == 0
    else if align == 4 then addr % 4 == 0
    else if align == 8 then addr % 8 == 0
    else addr % 16 == 0
  }

  /** ALIGN_ADDRESS(addr, align): clearing the low bits rounds down to a
      multiple of align. */
  function AlignDown(addr: int, align: int): int
    requires ValidAlign(align)
  {
    if align == 1 then addr
    else if align == 2 then addr - addr % 2
    else if align == 4 then addr - addr % 4
    else if align == 8 then addr - addr % 8
    else addr - addr % 16
  }

  /** STACK_ALLOC(stack, size, align): the new stack address. */
  function StackAlloc(stack: int, size: nat, align: int): int
    requires ValidAlign(align)
  {
    AlignDown(stack, align) - size
  }

  /** With size equal to align, STACK_ALLOC yields an aligned address whose
      slot [r, r + size) ends at or below the old stack address. */
  lemma StackAllocLayout(stack: int, align: int)
    requires ValidAlign(align)
    ensures Aligned(StackAlloc(stack, align, align), align)
    ensures StackAlloc(stack, align, align) + align <= stack
    ensures stack - 2 * align < StackAlloc(stack, align, align)
  {
    if align == 1 {
    } else if align == 2 {
      assert StackAlloc(stack, 2, 2) == (stack / 2 - 1) * 2;
    } else if align == 4 {
      assert StackAlloc(stack, 4, 4) == (stack / 4 - 1) * 4;
    } else if align == 8 {
      assert StackAlloc(stack, 8, 8) == (stack / 8 - 1) * 8;
    } else {
      assert StackAlloc(stack, 16, 16) == (stack / 16 - 1) * 16;
    }
  }

  /** On an address aligned to 4, the HEAPU32 elements are exactly the words
      at addr, addr + 4, ... (no truncation of the index). */
  lemma W32Aligned(addr: int, off: int)
    requires addr % 4 == 0
    ensures W32(addr, off) == addr + 4 * off
  {
  }

  // ---- typed loads that depend only on their bytes ----------------------------

  /** An aligned HEAPU32 / HEAPF32 element depends only on its four bytes. */
  lemma U32ByBytes(m1: Memory, m2: Memory, q: int)
    requires q % 4 == 0 && SameBytes(m1, m2, q, q + 4)
    ensures LoadU32(m1, q, 0) == LoadU32(m2, q, 0)
    ensures LoadF32Bits(m1, q, 0) == LoadF32Bits(m2, q, 0)
  {
    assert 4 * (q / 4) == q;
    WordByBytes(m1, m2, q / 4);
  }

  /** An aligned HEAPF64 element, or a 64-bit integer read as a word pair,
      depends only on its eight bytes. */
  lemma U64ByBytes(m1: Memory, m2: Memory, q: int)
    requires q % 8 == 0 && SameBytes(m1, m2, q, q + 8)
    ensures LoadU64(m1, q, 0) == LoadU64(m2, q, 0)
    ensures LoadF64Bits(m1, q, 0) == LoadF64Bits(m2, q, 0)
  {
    var d := q / 8;
    assert q == 8 * d;
    assert q / 4 == 2 * d;
    WordByBytes(m1, m2, 2 * d);
    WordByBytes(m1, m2, 2 * d + 1);
  }

  /** The two 64-bit halves of an aligned 16-byte slot depend only on its
      bytes. */
  lemma U128ByBytes(m1: Memory, m2: Memory, q: int)
    requires q % 16 == 0 && SameBytes(m1, m2, q, q + 16)
    ensures LoadU64(m1, q, 0) == LoadU64(m2, q, 0)
    ensures LoadU64(m1, q, 1) == LoadU64(m2, q, 1)
  {
    var e := q / 16;
    assert q == 16 * e;
    assert q / 4 == 4 * e;
    WordByBytes(m1, m2, 4 * e);
    WordByBytes(m1, m2, 4 * e + 1);
    WordByBytes(m1, m2, 4 * e + 2);
    WordByBytes(m1, m2, 4 * e + 3);
  }
}
