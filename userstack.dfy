/** The initial user stack exec builds (exec.c:108-127): the argument
    strings pushed downward from the top of the stack page, each at a 4-byte
    aligned address, and below them the `ustack` words — a fake return PC,
    argc, the address of the argv array, the argument pointers and a null
    terminator — so that the program starts as if `main(argc, argv)` had just
    been called. Everything here is 32-bit `uint` arithmetic. */
module UserStack {
  import opened Machine

  /** `(sp - (strlen(s) + 1)) & ~3`: where `s` and its terminating NUL go. */
  function PushSp(sp: uint32, s: seq<byte>): (p: uint32)
    ensures p % 4 == 0
  {
    AlignDown4(Sub32(sp, |s| + 1))
  }

  /** The stack pointer after pushing every string of `argv` from `top`. */
  function StringsSp(top: uint32, argv: seq<seq<byte>>): uint32
    decreases |argv|
  {
    if |argv| == 0 then top
    else PushSp(StringsSp(top, argv[..|argv| - 1]), argv[|argv| - 1])
  }

  /** The address each argument string was copied to, in argument order. */
  function ArgPtrs(top: uint32, argv: seq<seq<byte>>): (ptrs: seq<uint32>)
    ensures |ptrs| == |argv|
    decreases |argv|
  {
    if |argv| == 0 then []
    else ArgPtrs(top, argv[..|argv| - 1]) + [StringsSp(top, argv)]
  }

  /** The stack pointer before argument `k` was pushed. */
  function Prev(top: uint32, argv: seq<seq<byte>>, k: nat): uint32
    requires k < |argv|
  {
    if k == 0 then top else ArgPtrs(top, argv)[k - 1]
  }

  /** `ustack[2] = sp - (argc+1)*4`: the address of the argv array. */
  function ArgvAddr(top: uint32, argv: seq<seq<byte>>): uint32
  {
    Sub32(StringsSp(top, argv), (|argv| + 1) * 4)
  }

  /** `sp -= (3+argc+1) * 4`: the stack pointer the program starts with. */
  function InitialSp(top: uint32, argv: seq<seq<byte>>): uint32
  {
    Sub32(StringsSp(top, argv), (3 + |argv| + 1) * 4)
  }

  /** The first 3+argc+1 entries of the `ustack` array. */
  function Ustack(top: uint32, argv: seq<seq<byte>>): (u: seq<uint32>)
    requires |argv| < WORD
    ensures |u| == 3 + |argv| + 1
  {
    [0xffff_ffff, |argv|, ArgvAddr(top, argv)] + ArgPtrs(top, argv) + [0]
  }

  /** An array of `uint`s as the bytes copyout writes (little-endian). */
  function Words(ws: seq<uint32>): (b: seq<byte>)
    ensures |b| == 4 * |ws|
  {
    if |ws| == 0 then [] else Le32(ws[0]) + Words(ws[1..])
  }

  // ---------------------------------------------------------------
  // Lemmas

  /** Pushing argument k extends the pushes of the first k arguments by one
      pointer, computed from the stack pointer they left. */
  lemma ArgPtrsSnoc(top: uint32, argv: seq<seq<byte>>, k: nat)
    requires k < |argv|
    ensures StringsSp(top, argv[..k + 1]) == PushSp(StringsSp(top, argv[..k]), argv[k])
    ensures ArgPtrs(top, argv[..k + 1]) == ArgPtrs(top, argv[..k]) + [StringsSp(top, argv[..k + 1])]
  {
    assert argv[..k + 1][..k] == argv[..k];
    assert argv[..k + 1][k] == argv[k];
  }

  /** The pointers of a prefix of the arguments are a prefix of the pointers. */
  lemma {:induction false} ArgPtrsPrefix(top: uint32, argv: seq<seq<byte>>, j: nat)
    requires j <= |argv|
    ensures ArgPtrs(top, argv[..j]) == ArgPtrs(top, argv)[..j]
    ensures StringsSp(top, argv[..j]) == (if j == 0 then top else ArgPtrs(top, argv)[j - 1])
    decreases |argv| - j
  {
    if j == |argv| {
      assert argv[..j] == argv;
      if j > 0 {
        assert ArgPtrs(top, argv)[j - 1] == StringsSp(top, argv);
      }
    } else {
      ArgPtrsPrefix(top, argv, j + 1);
      ArgPtrsSnoc(top, argv, j);
      assert ArgPtrs(top, argv)[..j] == ArgPtrs(top, argv)[..j + 1][..j];
      if j > 0 {
        ArgPtrsSnoc(top, argv, j - 1);
        assert argv[..j][..j - 1] == argv[..j - 1];
        assert ArgPtrs(top, argv[..j])[j - 1] == StringsSp(top, argv[..j]);
      }
    }
  }

  /** Each argument is placed at `(prev - (len+1)) & ~3`, where `prev` is the
      previous argument's address, or the top of the stack for the first. */
  lemma ArgPtrsStep(top: uint32, argv: seq<seq<byte>>, k: nat)
    requires k < |argv|
    ensures ArgPtrs(top, argv)[k] == PushSp(Prev(top, argv, k), argv[k])
  {
    ArgPtrsPrefix(top, argv, k);
    ArgPtrsPrefix(top, argv, k + 1);
    ArgPtrsSnoc(top, argv, k);
  }

  /** Every argument pointer is 4-byte aligned. */
  lemma ArgPtrsAligned(top: uint32, argv: seq<seq<byte>>, k: nat)
    requires k < |argv|
    ensures ArgPtrs(top, argv)[k] % 4 == 0
  {
    ArgPtrsStep(top, argv, k);
  }

  /** When `sp` leaves room for `s`, the string and its NUL end at or below
      `sp`, less than four bytes below it, at an address strictly below `sp`. */
  lemma PushBelow(sp: uint32, s: seq<byte>)
    requires |s| + 1 <= sp
    ensures PushSp(sp, s) + |s| + 1 <= sp < PushSp(sp, s) + |s| + 5
  {
  }

  /** The guard page at work: in a stack page [top-PGSIZE, top) with the page
      below it inaccessible, a block of `n` bytes whose address is `sp - n`
      rounded down by less than 4 can only be written when it lies inside the
      stack page, wholly below `sp`. A push that wraps below address 0 or that
      reaches into the guard page is refused. */
  lemma PushStaysInPage(top: uint32, sp: uint32, n: nat, p: uint32)
    requires 2 * PGSIZE <= top <= KERNBASE
    requires top - PGSIZE <= sp <= top
    requires Sub32(sp, n) - 3 <= p <= Sub32(sp, n)
    requires Fits(top, p, n)
    ensures p + n <= sp && top - PGSIZE <= p
  {
  }

  /** A block of `n` bytes at `va` can be written in a space that ends at
      `top` and whose only inaccessible page is the guard page
      [top-2*PGSIZE, top-PGSIZE): it ends by `top` and misses the guard page. */
  predicate Fits(top: uint32, va: nat, n: nat)
  {
    va + n <= top && (va + n <= top - 2 * PGSIZE || top - PGSIZE <= va)
  }

  /** Every string of `argv` and its NUL can be written where the argument
      loop puts it. */
  predicate StringsFit(top: uint32, argv: seq<seq<byte>>)
  {
    forall k | 0 <= k < |argv| :: Fits(top, ArgPtrs(top, argv)[k], |argv[k]| + 1)
  }

  /** Every copyout of exec.c:114-127 succeeds: each string, and then the
      3+argc+1 `ustack` words at the initial sp. */
  predicate ArgsFit(top: uint32, argv: seq<seq<byte>>)
  {
    StringsFit(top, argv) && Fits(top, InitialSp(top, argv), 4 * (3 + |argv| + 1))
  }

  /** When the strings so far fit and so does the next one, at the address
      below them, all of them fit. */
  lemma StringsFitSnoc(top: uint32, args: seq<seq<byte>>, s: seq<byte>)
    requires StringsFit(top, args)
    requires Fits(top, PushSp(StringsSp(top, args), s), |s| + 1)
    ensures StringsFit(top, args + [s])
  {
  }

  /** When argument `k` does not fit below the ones before it, the arguments
      do not all fit. */
  lemma StringsStuck(top: uint32, argv: seq<seq<byte>>, k: nat)
    requires k < |argv|
    requires !Fits(top, PushSp(StringsSp(top, argv[..k]), argv[k]), |argv[k]| + 1)
    ensures !StringsFit(top, argv)
  {
    ArgPtrsPrefix(top, argv, k);
    ArgPtrsStep(top, argv, k);
  }

  /** The fixed part of `ustack` and where the program finds it: the fake
      return PC, argc and the null terminator, the argv array right above them
      starting at esp + 12, and the argument pointers in it. */
  lemma UstackLayout(top: uint32, argv: seq<seq<byte>>)
    requires |argv| < WORD
    ensures Ustack(top, argv)[0] == 0xffff_ffff
    ensures Ustack(top, argv)[1] == |argv|
    ensures Ustack(top, argv)[2] == Add32(InitialSp(top, argv), 12)
    ensures Ustack(top, argv)[3 + |argv|] == 0
    ensures Ustack(top, argv)[3..3 + |argv|] == ArgPtrs(top, argv)
  {
    var s := StringsSp(top, argv);
    var a := (s - (|argv| + 1) * 4) % WORD;
    var e := (s - (3 + |argv| + 1) * 4) % WORD;
    assert (e + 12) % WORD == a;
  }

  /** Reading back the bytes copyout wrote: the word at byte offset 4k of
      `Words(ws)` is `ws[k]`. */
  lemma {:induction false} WordsAt(ws: seq<uint32>, k: nat)
    requires k < |ws|
    ensures U32At(Words(ws), 4 * k) == ws[k]
  {
    if k == 0 {
      Le32Decode(ws[0]);
      assert Words(ws)[0..4] == Le32(ws[0]);
    } else {
      WordsAt(ws[1..], k - 1);
      var b := Words(ws);
      assert b[4..] == Words(ws[1..]);
      assert b[4 * k .. 4 * k + 4] == Words(ws[1..])[4 * (k - 1) .. 4 * (k - 1) + 4];
    }
  }
}
