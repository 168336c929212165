/** Machine-level vocabulary shared by the allocator and the loader: the x86
    integer widths, little-endian byte order, the page size and the kernel
    base address. */
module Machine {

  type byte = x: int | 0 <= x < 0x100
  type uint16 = x: int | 0 <= x < 0x1_0000
  type uint32 = x: int | 0 <= x < 0x1_0000_0000

  /** 2^32: every `uint` expression of the kernel is computed modulo WORD. */
  const WORD: nat := 0x1_0000_0000

  /** Bytes per page (mmu.h; the allocator hands out 4096-byte pages). */
  const PGSIZE: nat := 4096

  /** The lowest kernel virtual address. memlayout.h is not part of this model;
      the proofs hold for every page-aligned value that leaves room for two
      pages between it and 2^32. */
  type KernBase = x: int | 2 * PGSIZE <= x < WORD - 2 * PGSIZE && x % PGSIZE == 0
    witness 0x8000_0000
  const KERNBASE: KernBase

  datatype Option<T> = None | Some(value: T)

  /** `a + b` evaluated as a C `uint`. */
  function Add32(a: int, b: int): (r: uint32)
    ensures 0 <= a + b < WORD ==> r == a + b
    ensures a + b >= WORD && a + b < 2 * WORD ==> r == a + b - WORD
  {
    (a + b) % WORD
  }

  /** Two `uint` additions in a row are one addition modulo 2^32. */
  lemma Add32Add32(a: uint32, b: int, c: int)
    ensures Add32(Add32(a, b), c) == Add32(a, b + c)
  {
    var q := (a + b) / WORD;
    assert Add32(a, b) == a + b - q * WORD;
    assert Add32(a, b) + c == a + b + c - q * WORD;
  }

  /** The C overflow test `a + b < a` on `uint`s holds exactly when the sum
      wraps around 2^32. */
  lemma WrapTest(a: uint32, b: uint32)
    ensures Add32(a, b) < a <==> a + b >= WORD
  {
  }

  /** `a - b` evaluated as a C `uint`. */
  function Sub32(a: int, b: int): (r: uint32)
    ensures 0 <= a - b < WORD ==> r == a - b
    ensures -(WORD as int) <= a - b < 0 ==> r == a - b + WORD
  {
    (a - b) % WORD
  }

  /** PGROUNDUP(a) of mmu.h: `(a + PGSIZE-1) & ~(PGSIZE-1)` on a `uint`. */
  function PgRoundUp(a: uint32): (r: uint32)
    ensures r % PGSIZE == 0
  {
    var t := Add32(a, PGSIZE - 1);
    t - t % PGSIZE
  }

  /** Without wrap-around, PGROUNDUP is the least page boundary at or above `a`. */
  lemma PgRoundUpBounds(a: uint32)
    requires a + PGSIZE - 1 < WORD
    ensures PgRoundUp(a) % PGSIZE == 0
    ensures a <= PgRoundUp(a) < a + PGSIZE
  {
    var t := a + PGSIZE - 1;
    assert Add32(a, PGSIZE - 1) == t;
    assert t % PGSIZE < PGSIZE;
    assert (t - t % PGSIZE) % PGSIZE == 0;
  }

  /** A page boundary at or below KERNBASE is rounded to itself, and any size
      below KERNBASE rounds up to at most KERNBASE. */
  lemma PgRoundUpBelowKernBase(a: uint32)
    requires a < KERNBASE
    ensures PgRoundUp(a) % PGSIZE == 0
    ensures a <= PgRoundUp(a) <= KERNBASE
  {
    PgRoundUpBounds(a);
  }

  /** `x & ~3` on a `uint`: clears the two low bits. */
  function AlignDown4(x: uint32): (r: uint32)
    ensures r % 4 == 0 && r <= x < r + 4
  {
    x - x % 4
  }

  // ---------------------------------------------------------------
  // Little-endian byte order (x86)

  /** The two bytes at `off`, little-endian. */
  function U16At(b: seq<byte>, off: nat): (r: uint16)
    requires off + 2 <= |b|
  {
    (b[off] as int) + 0x100 * (b[off + 1] as int)
  }

  /** The four bytes at `off`, little-endian. */
  function U32At(b: seq<byte>, off: nat): (r: uint32)
    requires off + 4 <= |b|
  {
    (b[off] as int) + 0x100 * (b[off + 1] as int) + 0x1_0000 * (b[off + 2] as int) + 0x100_0000 * (b[off + 3] as int)
  }

  function Le16(v: uint16): (b: seq<byte>)
    ensures |b| == 2
  {
    [v % 0x100, v / 0x100]
  }

  function Le32(v: uint32): (b: seq<byte>)
    ensures |b| == 4
  {
    [v % 0x100, (v / 0x100) % 0x100, (v / 0x1_0000) % 0x100, v / 0x100_0000]
  }

  lemma Le16Decode(v: uint16)
    ensures U16At(Le16(v), 0) == v
  {
  }

  lemma Le32Decode(v: uint32)
    ensures U32At(Le32(v), 0) == v
  {
    var b := Le32(v);
    var q1 := v / 0x100;
    var q2 := q1 / 0x100;
    assert v == b[0] + 0x100 * q1;
    assert q1 == b[1] + 0x100 * q2;
    assert q2 == (b[2] as int) + 0x100 * (b[3] as int);
  }

  lemma U16Encode(b: seq<byte>, off: nat)
    requires off + 2 <= |b|
    ensures Le16(U16At(b, off)) == b[off..off + 2]
  {
  }

  lemma U32Encode(b: seq<byte>, off: nat)
    requires off + 4 <= |b|
    ensures Le32(U32At(b, off)) == b[off..off + 4]
  {
    var v := U32At(b, off);
    var hi := (b[off + 1] as int) + 0x100 * (b[off + 2] as int) + 0x1_0000 * (b[off + 3] as int);
    assert v == (b[off] as int) + 0x100 * hi;
    assert v % 0x100 == b[off] && v / 0x100 == hi;
    var hi2 := (b[off + 2] as int) + 0x100 * (b[off + 3] as int);
    assert hi == (b[off + 1] as int) + 0x100 * hi2;
    assert hi % 0x100 == b[off + 1] && hi / 0x100 == hi2;
    assert v / 0x1_0000 == hi2;
    assert v / 0x100_0000 == b[off + 3];
  }

  /** Decoding four bytes is injective: two byte strings decode to the same
      word exactly when they are equal. */
  lemma U32AtInjective(a: seq<byte>, b: seq<byte>)
    requires |a| == 4 && |b| == 4
    ensures U32At(a, 0) == U32At(b, 0) <==> a == b
  {
    U32Encode(a, 0);
    U32Encode(b, 0);
    assert a[0..4] == a && b[0..4] == b;
  }
}
