/** exec(path, argv) of exec.c: replaces the memory image of the calling
    process with the ELF program stored at `path`. The new image is built in
    a fresh page directory; the process record is changed only once every
    step that can fail has succeeded, and every failure goes through the one
    `bad:` path, which frees the new page directory and releases the inode. */
module Exec {
  import opened Machine
  import opened Elf
  import opened Fs
  import opened Uvm
  import opened UserStack

  /** Most arguments exec accepts. param.h is not part of this model; the
      proofs hold for every positive value below 4096 (xv6 uses 32). */
  type MaxArg = x: int | 0 < x < 0x1000 witness 32
  const MAXARG: MaxArg

  const SLASH: byte := 0x2F

  /** A C string, given without its terminating NUL: it holds no NUL. */
  predicate CString(s: seq<byte>)
  {
    forall i | 0 <= i < |s| :: s[i] != 0
  }

  /** The part of struct proc that exec reads and writes (proc.h is not part
      of this model): the page directory, the image size, the saved user
      `eip` and `esp` of the trap frame, and the name. */
  class Proc {
    var pgdir: nat
    var sz: uint32
    var eip: uint32
    var esp: uint32
    var name: seq<byte>
  }

  // ---------------------------------------------------------------
  // What exec reads from the file

  /** The file starts with a whole ELF header carrying ELF_MAGIC. */
  predicate HeaderOk(file: seq<byte>)
  {
    |file| >= ELFHDR_SIZE && DecodeElfHdr(file[..ELFHDR_SIZE]).magic == ELF_MAGIC
  }

  function Header(file: seq<byte>): ElfHdr
    requires |file| >= ELFHDR_SIZE
  {
    DecodeElfHdr(file[..ELFHDR_SIZE])
  }

  /** The file offset of program header `i`: `off` starts at `elf.phoff` and
      grows by sizeof(struct proghdr) per header, as a 32-bit offset. */
  function PhOff(elf: ElfHdr, i: nat): uint32
  {
    Add32(elf.phoff, PROGHDR_SIZE * i)
  }

  /** The first `n` program headers lie inside the file. */
  predicate TableInFile(file: seq<byte>, elf: ElfHdr, n: nat)
  {
    forall i | 0 <= i < n :: PhOff(elf, i) + PROGHDR_SIZE <= |file|
  }

  function Ph(file: seq<byte>, elf: ElfHdr, i: nat): ProgHdr
    requires PhOff(elf, i) + PROGHDR_SIZE <= |file|
  {
    DecodeProgHdr(file[PhOff(elf, i)..PhOff(elf, i) + PROGHDR_SIZE])
  }

  /** The first `n` program headers, decoded. */
  function Table(file: seq<byte>, elf: ElfHdr, n: nat): (t: seq<ProgHdr>)
    requires TableInFile(file, elf, n)
    ensures |t| == n
  {
    if n == 0 then [] else Table(file, elf, n - 1) + [Ph(file, elf, n - 1)]
  }

  /** The `readi` calls that fetch the first `n` program headers. */
  function PhReads(elf: ElfHdr, n: nat): (rs: seq<Read>)
    ensures |rs| == n
  {
    if n == 0 then [] else PhReads(elf, n - 1) + [Read(PhOff(elf, n - 1), PROGHDR_SIZE)]
  }

  // ---------------------------------------------------------------
  // Segments

  function End(ph: ProgHdr): (e: nat)
  {
    ph.vaddr + ph.memsz
  }

  /** The three checks exec applies to a loadable segment: the memory image
      holds the file image, `vaddr + memsz` does not wrap, and `vaddr` is page
      aligned. Other segments are not checked. */
  predicate SegmentOk(ph: ProgHdr)
  {
    ph.ptype == ELF_PROG_LOAD ==>
      ph.filesz <= ph.memsz && End(ph) < WORD && ph.vaddr % PGSIZE == 0
  }

  /** Every loadable segment passes the checks and ends below KERNBASE (the
      limit allocuvm enforces). */
  predicate Loadable(t: seq<ProgHdr>)
  {
    forall i | 0 <= i < |t| :: SegmentOk(t[i]) && (t[i].ptype == ELF_PROG_LOAD ==> End(t[i]) < KERNBASE)
  }

  /** The running size `sz` after the segment loop: each loadable segment
      raises it to its end, and other segments leave it alone. */
  function SegmentsTop(t: seq<ProgHdr>): nat
    decreases |t|
  {
    if |t| == 0 then 0
    else
      var s := SegmentsTop(t[..|t| - 1]);
      var p := t[|t| - 1];
      if p.ptype != ELF_PROG_LOAD then s else Max(s, End(p))
  }

  /** The size after the segment loop is the highest end of a loadable
      segment, or 0 when there is none. */
  lemma {:induction false} SegmentsTopIsMax(t: seq<ProgHdr>)
    ensures forall i | 0 <= i < |t| && t[i].ptype == ELF_PROG_LOAD :: End(t[i]) <= SegmentsTop(t)
    ensures SegmentsTop(t) == 0
            || exists i | 0 <= i < |t| :: t[i].ptype == ELF_PROG_LOAD && End(t[i]) == SegmentsTop(t)
    decreases |t|
  {
    if |t| > 0 {
      var u := t[..|t| - 1];
      SegmentsTopIsMax(u);
      assert forall i | 0 <= i < |u| :: u[i] == t[i];
      if SegmentsTop(t) != 0 && SegmentsTop(t) == SegmentsTop(u) {
        var i :| 0 <= i < |u| && u[i].ptype == ELF_PROG_LOAD && End(u[i]) == SegmentsTop(u);
        assert t[i] == u[i];
      }
    }
  }

  /** Segments that are not loadable do not matter: replacing one by another
      such segment leaves the size unchanged. */
  lemma {:induction false} NonLoadIgnored(t: seq<ProgHdr>, i: nat, q: ProgHdr)
    requires i < |t| && t[i].ptype != ELF_PROG_LOAD && q.ptype != ELF_PROG_LOAD
    ensures SegmentsTop(t[i := q]) == SegmentsTop(t)
    decreases |t|
  {
    var u := t[i := q];
    if i < |t| - 1 {
      NonLoadIgnored(t[..|t| - 1], i, q);
      assert u[..|u| - 1] == t[..|t| - 1][i := q];
    } else {
      assert u[..|u| - 1] == t[..|t| - 1];
    }
  }

  /** Loadability and the running size of a table grown by one header. */
  lemma TableSnoc(t: seq<ProgHdr>, p: ProgHdr)
    ensures SegmentsTop(t + [p]) == if p.ptype != ELF_PROG_LOAD then SegmentsTop(t) else Max(SegmentsTop(t), End(p))
    ensures Loadable(t + [p]) <==> Loadable(t) && Loadable([p])
  {
    assert (t + [p])[..|t|] == t;
    assert forall i | 0 <= i < |t| :: (t + [p])[i] == t[i];
  }

  /** The file image of every loadable segment lies inside the file. */
  predicate SegmentsInFile(file: seq<byte>, t: seq<ProgHdr>)
  {
    forall i | 0 <= i < |t| :: t[i].ptype == ELF_PROG_LOAD ==> t[i].off + t[i].filesz <= |file|
  }

  /** The `filesz` bytes at `off` of the file that loaduvm copies to `vaddr`. */
  function FileImage(file: seq<byte>, p: ProgHdr): (b: seq<byte>)
    requires p.off + p.filesz <= |file|
    ensures |b| == p.filesz
  {
    file[p.off..p.off + p.filesz]
  }

  /** `mem` after loaduvm has copied the file image of each loadable segment
      of `t` to its `vaddr`, in table order. */
  function LoadedMem(mem: map<nat, byte>, file: seq<byte>, t: seq<ProgHdr>): map<nat, byte>
    requires SegmentsInFile(file, t)
    decreases |t|
  {
    if |t| == 0 then mem
    else
      var u := t[..|t| - 1];
      var p := t[|t| - 1];
      assert forall i | 0 <= i < |u| :: u[i] == t[i];
      var m := LoadedMem(mem, file, u);
      if p.ptype != ELF_PROG_LOAD then m else Store(m, p.vaddr, FileImage(file, p))
  }

  /** The loaded memory of a table grown by one header. */
  lemma LoadedSnoc(mem: map<nat, byte>, file: seq<byte>, t: seq<ProgHdr>, p: ProgHdr)
    ensures SegmentsInFile(file, t + [p]) <==>
              SegmentsInFile(file, t) && (p.ptype == ELF_PROG_LOAD ==> p.off + p.filesz <= |file|)
    ensures SegmentsInFile(file, t + [p]) ==>
              LoadedMem(mem, file, t + [p])
              == if p.ptype != ELF_PROG_LOAD then LoadedMem(mem, file, t)
                 else Store(LoadedMem(mem, file, t), p.vaddr, FileImage(file, p))
  {
    assert (t + [p])[..|t|] == t;
    assert forall i | 0 <= i < |t| :: (t + [p])[i] == t[i];
    assert (t + [p])[|t|] == p;
  }

  /** Loading writes nothing at or above the end of the highest loadable
      segment: every byte it adds lies below SegmentsTop. */
  lemma {:induction false} LoadedKeys(mem: map<nat, byte>, file: seq<byte>, t: seq<ProgHdr>)
    requires SegmentsInFile(file, t) && Loadable(t)
    ensures forall a | a in LoadedMem(mem, file, t) :: a in mem || a < SegmentsTop(t)
    decreases |t|
  {
    if |t| > 0 {
      var u := t[..|t| - 1];
      var p := t[|t| - 1];
      assert forall i | 0 <= i < |u| :: u[i] == t[i];
      LoadedKeys(mem, file, u);
      assert SegmentsTop(u) <= SegmentsTop(t);
    }
  }

  /** The file image of a loadable segment is in the loaded memory unless a
      later loadable segment's file image overlaps it. */
  lemma {:induction false} LoadedHolds(mem: map<nat, byte>, file: seq<byte>, t: seq<ProgHdr>, i: nat)
    requires SegmentsInFile(file, t) && i < |t| && t[i].ptype == ELF_PROG_LOAD
    requires forall j | i < j < |t| && t[j].ptype == ELF_PROG_LOAD ::
               t[j].vaddr + t[j].filesz <= t[i].vaddr || t[i].vaddr + t[i].filesz <= t[j].vaddr
    ensures Holds(LoadedMem(mem, file, t), t[i].vaddr, FileImage(file, t[i]))
    decreases |t|
  {
    var u := t[..|t| - 1];
    var p := t[|t| - 1];
    assert forall k | 0 <= k < |u| :: u[k] == t[k];
    if i == |t| - 1 {
      StoreHolds(LoadedMem(mem, file, u), p.vaddr, FileImage(file, p));
    } else {
      LoadedHolds(mem, file, u, i);
      if p.ptype == ELF_PROG_LOAD {
        StoreKeeps(LoadedMem(mem, file, u), p.vaddr, FileImage(file, p), t[i].vaddr, FileImage(file, t[i]));
      }
    }
  }

  // ---------------------------------------------------------------
  // Program name

  /** The index just after the last '/' of `path`, or 0 if it has none. */
  function NameStart(path: seq<byte>): (k: nat)
    ensures k <= |path|
    decreases |path|
  {
    if |path| == 0 then 0
    else if path[|path| - 1] == SLASH then |path|
    else NameStart(path[..|path| - 1])
  }

  /** The recorded name is the suffix of `path` after its last '/': it holds
      no '/', and it is either the whole path or follows a '/'. These two facts
      single out NameStart(path) among all indices. */
  lemma {:induction false} NameIsAfterLastSlash(path: seq<byte>)
    ensures SLASH !in path[NameStart(path)..]
    ensures NameStart(path) == 0 || path[NameStart(path) - 1] == SLASH
    ensures forall k | 0 <= k <= |path| && SLASH !in path[k..] && (k == 0 || path[k - 1] == SLASH)
              :: k == NameStart(path)
    decreases |path|
  {
    if |path| > 0 && path[|path| - 1] != SLASH {
      var u := path[..|path| - 1];
      NameIsAfterLastSlash(u);
      assert path[NameStart(path)..] == u[NameStart(u)..] + [path[|path| - 1]];
      forall k | 0 <= k <= |path| && SLASH !in path[k..] && (k == 0 || path[k - 1] == SLASH)
        ensures k == NameStart(path)
      {
        if k < |path| {
          assert u[k..] + [path[|path| - 1]] == path[k..];
          assert SLASH !in u[k..];
          assert k == 0 || u[k - 1] == SLASH;
        }
      }
    } else if |path| > 0 {
      forall k | 0 <= k <= |path| && SLASH !in path[k..] && (k == 0 || path[k - 1] == SLASH)
        ensures k == NameStart(path)
      {
        if k < |path| {
          assert path[k..][|path| - 1 - k] == SLASH;
        }
      }
    }
  }

  /** The loop `for(last=s=path; *s; s++) if(*s == '/') last = s+1;`. */
  method ProgramName(path: seq<byte>) returns (last: nat)
    ensures last == NameStart(path)
  {
    last := 0;
    var s := 0;
    while s < |path|
      invariant s <= |path|
      invariant last == NameStart(path[..s])
    {
      assert path[..s + 1][..s] == path[..s];
      if path[s] == SLASH {
        last := s + 1;
      }
      s := s + 1;
    }
    assert path[..s] == path;
  }

  // ---------------------------------------------------------------
  // The argument strings on the stack

  /** The strings of `args` sit on the stack page below `top`, each with its
      NUL at the address exec computed for it, inside the stack page and
      wholly below the string pushed before it. */
  ghost predicate StringsAt(mem: map<nat, byte>, top: uint32, args: seq<seq<byte>>)
    decreases |args|
  {
    |args| == 0
    || (var init := args[..|args| - 1];
        var s := args[|args| - 1];
        var p := StringsSp(top, args);
        StringsAt(mem, top, init)
        && top - PGSIZE <= p && p + |s| + 1 <= StringsSp(top, init)
        && Holds(mem, p, s + [0]))
  }

  /** Argument k of `args` is at ArgPtrs(top, args)[k], inside the stack
      page, NUL-terminated, and ends at or below the address of argument k-1
      (the top of the stack for the first). */
  ghost predicate StringAt(mem: map<nat, byte>, top: uint32, args: seq<seq<byte>>, k: nat)
    requires k < |args|
  {
    var p := ArgPtrs(top, args)[k];
    top - PGSIZE <= p && p + |args[k]| + 1 <= Prev(top, args, k) && Holds(mem, p, args[k] + [0])
  }

  /** Pushing more arguments leaves where the earlier ones are. */
  lemma StringAtPrefix(mem: map<nat, byte>, top: uint32, args: seq<seq<byte>>, k: nat)
    requires k + 1 < |args|
    ensures StringAt(mem, top, args[..|args| - 1], k) == StringAt(mem, top, args, k)
  {
    var init := args[..|args| - 1];
    ArgPtrsPrefix(top, args, |args| - 1);
    assert init[k] == args[k];
    assert ArgPtrs(top, init)[k] == ArgPtrs(top, args)[k];
    if k > 0 {
      assert ArgPtrs(top, init)[k - 1] == ArgPtrs(top, args)[k - 1];
    }
  }

  /** The last argument's place is the last step of StringsAt. */
  lemma StringAtLast(mem: map<nat, byte>, top: uint32, args: seq<seq<byte>>)
    requires |args| > 0
    ensures StringAt(mem, top, args, |args| - 1) <==>
              (var p := StringsSp(top, args); var s := args[|args| - 1];
               top - PGSIZE <= p && p + |s| + 1 <= StringsSp(top, args[..|args| - 1]) && Holds(mem, p, s + [0]))
  {
    ArgPtrsPrefix(top, args, |args| - 1);
  }

  /** So the strings are disjoint and strictly descending, each in its place. */
  lemma {:induction false} StringsAtMeans(mem: map<nat, byte>, top: uint32, args: seq<seq<byte>>)
    ensures StringsAt(mem, top, args) <==> forall k | 0 <= k < |args| :: StringAt(mem, top, args, k)
    decreases |args|
  {
    if |args| > 0 {
      var n := |args|;
      var init := args[..n - 1];
      StringsAtMeans(mem, top, init);
      StringAtLast(mem, top, args);
      forall k | 0 <= k < n - 1
        ensures StringAt(mem, top, init, k) == StringAt(mem, top, args, k)
      {
        StringAtPrefix(mem, top, args, k);
      }
    }
  }

  /** The strings all lie between the last stack pointer and `top`: each
      argument's address is at or above StringsSp, and its NUL below `top`. */
  lemma {:induction false} StringsAbove(mem: map<nat, byte>, top: uint32, args: seq<seq<byte>>)
    requires StringsAt(mem, top, args)
    ensures StringsSp(top, args) <= top
    ensures forall k | 0 <= k < |args| ::
              StringsSp(top, args) <= ArgPtrs(top, args)[k] && ArgPtrs(top, args)[k] + |args[k]| + 1 <= top
    decreases |args|
  {
    if |args| > 0 {
      var init := args[..|args| - 1];
      StringsAbove(mem, top, init);
      assert ArgPtrs(top, args) == ArgPtrs(top, init) + [StringsSp(top, args)];
      assert forall k | 0 <= k < |init| :: init[k] == args[k];
    }
  }

  /** The whole initial stack: the strings, and the `ustack` words at `sp`,
      right below them and inside the stack page. */
  ghost predicate StackBuilt(mem: map<nat, byte>, top: uint32, argv: seq<seq<byte>>, sp: uint32)
  {
    |argv| < WORD
    && top - PGSIZE <= sp
    && sp + 4 * (3 + |argv| + 1) == StringsSp(top, argv)
    && Holds(mem, sp, Words(Ustack(top, argv)))
    && StringsAt(mem, top, argv)
  }

  /** A write that ends at or below the last string keeps them all. */
  lemma {:induction false} StringsAtKeep(mem: map<nat, byte>, top: uint32, args: seq<seq<byte>>, va: nat, bytes: seq<byte>)
    requires StringsAt(mem, top, args)
    requires va + |bytes| <= StringsSp(top, args)
    ensures StringsAt(Store(mem, va, bytes), top, args)
    decreases |args|
  {
    if |args| > 0 {
      var init := args[..|args| - 1];
      var s := args[|args| - 1];
      StringsAtKeep(mem, top, init, va, bytes);
      StoreKeeps(mem, va, bytes, StringsSp(top, args), s + [0]);
    }
  }

  /** Pushing one more string below the others. */
  lemma PushKeeps(mem: map<nat, byte>, top: uint32, args: seq<seq<byte>>, s: seq<byte>, p: uint32)
    requires StringsAt(mem, top, args)
    requires p == PushSp(StringsSp(top, args), s)
    requires p + |s| + 1 <= StringsSp(top, args) && top - PGSIZE <= p
    ensures StringsAt(Store(mem, p, s + [0]), top, args + [s])
    ensures StringsSp(top, args + [s]) == p
  {
    var a := args + [s];
    assert a[..|a| - 1] == args;
    StringsAtKeep(mem, top, args, p, s + [0]);
    StoreHolds(mem, p, s + [0]);
  }

  /** The strings of `args` have been pushed from `top`, leaving `sp` below
      all of them and inside the stack page. */
  ghost predicate Pushed(mem: map<nat, byte>, top: uint32, args: seq<seq<byte>>, sp: uint32)
  {
    sp == StringsSp(top, args)
    && top - PGSIZE <= sp <= top
    && StringsAt(mem, top, args)
  }

  /** What one push of `s` from `sp` down to `p` does to the memory below
      `top`: the strings now include `s` at `p`, and nothing below the guard
      page changed. */
  lemma PushedStep(mem: map<nat, byte>, top: uint32, args: seq<seq<byte>>, s: seq<byte>, sp: uint32, p: uint32)
    requires 2 * PGSIZE <= top <= KERNBASE
    requires Pushed(mem, top, args, sp)
    requires p == PushSp(sp, s)
    requires p + |s| + 1 <= sp && top - PGSIZE <= p
    ensures Pushed(Store(mem, p, s + [0]), top, args + [s], p)
    ensures ArgPtrs(top, args + [s]) == ArgPtrs(top, args) + [p]
    ensures Below(Store(mem, p, s + [0]), top - 2 * PGSIZE) == Below(mem, top - 2 * PGSIZE)
  {
    PushKeeps(mem, top, args, s, p);
    StoreAbove(mem, p, s + [0], top - 2 * PGSIZE);
    ArgPtrsSnoc(top, args + [s], |args|);
    assert (args + [s])[..|args|] == args;
    assert (args + [s])[..|args| + 1] == args + [s];
  }

  /** The first k + 1 elements are the first k and then element k. */
  lemma PrefixSnoc<T>(s: seq<T>, k: nat)
    requires k < |s|
    ensures s[..k + 1] == s[..k] + [s[k]]
  {
  }

  /** In a space whose only inaccessible page is the guard page below its
      stack page, copyout succeeds exactly on the blocks that fit. */
  lemma AccessibleFits(s: Space, va: nat, n: nat)
    requires 2 * PGSIZE <= s.top < WORD && s.noUser == {s.top - 2 * PGSIZE}
    ensures Accessible(s, va, n) <==> Fits(s.top, va, n)
  {
  }

  /** One turn of the argument loop, past the MAXARG test (exec.c:114-116):
      copy `s` and its NUL to the next aligned address below `sp`. */
  method PushString(vm: Vm, pgdir: nat, top: uint32, ghost args: seq<seq<byte>>, s: seq<byte>, sp: uint32)
    returns (ok: bool, p: uint32)
    requires pgdir in vm.spaces
    requires 2 * PGSIZE <= top <= KERNBASE
    requires vm.spaces[pgdir].top == top && vm.spaces[pgdir].noUser == {top - 2 * PGSIZE}
    requires Pushed(vm.spaces[pgdir].mem, top, args, sp)
    modifies vm
    ensures vm.next == old(vm.next) && vm.active == old(vm.active)
    ensures SameMapping(old(vm.spaces), vm.spaces, pgdir)
    ensures p == PushSp(sp, s) && (ok <==> Fits(top, p, |s| + 1))
    ensures ok ==> Pushed(vm.spaces[pgdir].mem, top, args + [s], p)
    ensures ok ==> ArgPtrs(top, args + [s]) == ArgPtrs(top, args) + [p]
    ensures Below(vm.spaces[pgdir].mem, top - 2 * PGSIZE) == Below(old(vm.spaces[pgdir].mem), top - 2 * PGSIZE)
  {
    p := AlignDown4(Sub32(sp, |s| + 1));
    ghost var mem := vm.spaces[pgdir].mem;
    AccessibleFits(vm.spaces[pgdir], p, |s| + 1);
    var rc := vm.CopyOut(pgdir, p, s + [0]);
    if rc < 0 {
      return false, p;
    }
    PushStaysInPage(top, sp, |s| + 1, p);
    PushedStep(mem, top, args, s, sp, p);
    ok := true;
  }

  /** The argument loop of exec.c:111-119 and the `ustack` copy of
      exec.c:119-127, on a space whose stack page is [top-PGSIZE, top) and
      whose guard page is the one below it. */
  method PushArgs(vm: Vm, pgdir: nat, top: uint32, argv: seq<seq<byte>>) returns (ok: bool, sp: uint32)
    requires pgdir in vm.spaces
    requires 2 * PGSIZE <= top <= KERNBASE
    requires vm.spaces[pgdir].top == top && vm.spaces[pgdir].noUser == {top - 2 * PGSIZE}
    modifies vm
    ensures vm.next == old(vm.next) && vm.active == old(vm.active)
    ensures SameMapping(old(vm.spaces), vm.spaces, pgdir)
    ensures ok <==> |argv| <= MAXARG && ArgsFit(top, argv)
    ensures ok ==> sp == InitialSp(top, argv)
    ensures ok ==> StackBuilt(vm.spaces[pgdir].mem, top, argv, sp)
    ensures Below(vm.spaces[pgdir].mem, top - 2 * PGSIZE) == Below(old(vm.spaces[pgdir].mem), top - 2 * PGSIZE)
  {
    var ustack := new uint32[3 + MAXARG + 1];
    ok, sp := PushStrings(vm, pgdir, top, argv, ustack);
    if !ok {
      return;
    }
    ok, sp := PushUstack(vm, pgdir, top, argv, ustack, sp);
  }

  /** The argument loop of exec.c:111-119: push each string of `argv` below
      the last, recording its address in `ustack`. */
  method PushStrings(vm: Vm, pgdir: nat, top: uint32, argv: seq<seq<byte>>, ustack: array<uint32>)
    returns (ok: bool, sp: uint32)
    requires pgdir in vm.spaces
    requires 2 * PGSIZE <= top <= KERNBASE
    requires vm.spaces[pgdir].top == top && vm.spaces[pgdir].noUser == {top - 2 * PGSIZE}
    requires ustack.Length == 3 + MAXARG + 1
    modifies vm, ustack
    ensures vm.next == old(vm.next) && vm.active == old(vm.active)
    ensures SameMapping(old(vm.spaces), vm.spaces, pgdir)
    ensures ok <==> |argv| <= MAXARG && StringsFit(top, argv)
    ensures ok ==> ustack[3..3 + |argv|] == ArgPtrs(top, argv)
    ensures ok ==> Pushed(vm.spaces[pgdir].mem, top, argv, sp)
    ensures Below(vm.spaces[pgdir].mem, top - 2 * PGSIZE) == Below(old(vm.spaces[pgdir].mem), top - 2 * PGSIZE)
  {
    var argc := 0;
    sp := top;
    while argc < |argv|
      invariant argc <= |argv| && argc <= MAXARG
      invariant vm.next == old(vm.next) && vm.active == old(vm.active)
      invariant pgdir in vm.spaces && SameMapping(old(vm.spaces), vm.spaces, pgdir)
      invariant ustack[3..3 + argc] == ArgPtrs(top, argv[..argc])
      invariant StringsFit(top, argv[..argc])
      invariant Pushed(vm.spaces[pgdir].mem, top, argv[..argc], sp)
      invariant Below(vm.spaces[pgdir].mem, top - 2 * PGSIZE) == Below(old(vm.spaces[pgdir].mem), top - 2 * PGSIZE)
    {
      if argc >= MAXARG {
        ok := false;
        return;
      }
      ok, sp := PushArg(vm, pgdir, top, argv, argc, ustack, sp);
      if !ok {
        return;
      }
      argc := argc + 1;
    }
    assert argv[..argc] == argv;
    ok := true;
  }

  /** One turn of the argument loop (exec.c:114-117) for argument `argc`:
      push it below the ones before it and record its address in `ustack`.
      Failing means the arguments do not all fit. */
  method PushArg(vm: Vm, pgdir: nat, top: uint32, argv: seq<seq<byte>>, argc: nat, ustack: array<uint32>, sp: uint32)
    returns (ok: bool, p: uint32)
    requires pgdir in vm.spaces
    requires 2 * PGSIZE <= top <= KERNBASE
    requires vm.spaces[pgdir].top == top && vm.spaces[pgdir].noUser == {top - 2 * PGSIZE}
    requires argc < |argv| && argc < MAXARG && ustack.Length == 3 + MAXARG + 1
    requires ustack[3..3 + argc] == ArgPtrs(top, argv[..argc])
    requires StringsFit(top, argv[..argc])
    requires Pushed(vm.spaces[pgdir].mem, top, argv[..argc], sp)
    modifies vm, ustack
    ensures vm.next == old(vm.next) && vm.active == old(vm.active)
    ensures SameMapping(old(vm.spaces), vm.spaces, pgdir)
    ensures !ok ==> !StringsFit(top, argv)
    ensures ok ==> ustack[3..3 + argc + 1] == ArgPtrs(top, argv[..argc + 1])
    ensures ok ==> StringsFit(top, argv[..argc + 1])
    ensures ok ==> Pushed(vm.spaces[pgdir].mem, top, argv[..argc + 1], p)
    ensures Below(vm.spaces[pgdir].mem, top - 2 * PGSIZE) == Below(old(vm.spaces[pgdir].mem), top - 2 * PGSIZE)
  {
    ok, p := PushString(vm, pgdir, top, argv[..argc], argv[argc], sp);
    if !ok {
      StringsStuck(top, argv, argc);
      return;
    }
    StringsFitSnoc(top, argv[..argc], argv[argc]);
    ustack[3 + argc] := p;
    assert ustack[3..3 + argc + 1] == ustack[3..3 + argc] + [p];
    PrefixSnoc(argv, argc);
  }

  /** exec.c:119-123: complete `ustack` after the pointers of the strings
      pushed from `top` down to `sp`. */
  method FillUstack(ustack: array<uint32>, top: uint32, argv: seq<seq<byte>>, sp: uint32)
    requires |argv| <= MAXARG && ustack.Length == 3 + MAXARG + 1
    requires ustack[3..3 + |argv|] == ArgPtrs(top, argv)
    requires sp == StringsSp(top, argv)
    modifies ustack
    ensures ustack[..3 + |argv| + 1] == Ustack(top, argv)
  {
    var argc := |argv|;
    ghost var ptrs := ustack[3..3 + argc];
    ustack[3 + argc] := 0;
    ustack[0] := 0xffff_ffff;
    ustack[1] := argc;
    ustack[2] := Sub32(sp, (argc + 1) * 4);
    assert ustack[3..3 + argc] == ptrs;
    assert ustack[..3 + argc + 1] == [ustack[0], ustack[1], ustack[2]] + ustack[3..3 + argc] + [ustack[3 + argc]];
  }

  /** The end of the argument loop and exec.c:119-127: complete `ustack` and
      copy it right below the strings pushed from `top` down to `sp`. */
  method PushUstack(vm: Vm, pgdir: nat, top: uint32, argv: seq<seq<byte>>, ustack: array<uint32>, sp: uint32)
    returns (ok: bool, esp: uint32)
    requires pgdir in vm.spaces
    requires 2 * PGSIZE <= top <= KERNBASE
    requires vm.spaces[pgdir].top == top && vm.spaces[pgdir].noUser == {top - 2 * PGSIZE}
    requires |argv| <= MAXARG && ustack.Length == 3 + MAXARG + 1
    requires ustack[3..3 + |argv|] == ArgPtrs(top, argv)
    requires Pushed(vm.spaces[pgdir].mem, top, argv, sp)
    modifies vm, ustack
    ensures vm.next == old(vm.next) && vm.active == old(vm.active)
    ensures SameMapping(old(vm.spaces), vm.spaces, pgdir)
    ensures esp == InitialSp(top, argv) && (ok <==> Fits(top, esp, 4 * (3 + |argv| + 1)))
    ensures ok ==> StackBuilt(vm.spaces[pgdir].mem, top, argv, esp)
    ensures Below(vm.spaces[pgdir].mem, top - 2 * PGSIZE) == Below(old(vm.spaces[pgdir].mem), top - 2 * PGSIZE)
  {
    FillUstack(ustack, top, argv, sp);
    ok, esp := CopyUstack(vm, pgdir, top, argv, ustack[..3 + |argv| + 1], sp);
  }

  /** exec.c:125-127: copy the words `u` of `ustack` right below the strings
      pushed from `top` down to `sp`. */
  method CopyUstack(vm: Vm, pgdir: nat, top: uint32, argv: seq<seq<byte>>, u: seq<uint32>, sp: uint32)
    returns (ok: bool, esp: uint32)
    requires pgdir in vm.spaces
    requires 2 * PGSIZE <= top <= KERNBASE
    requires vm.spaces[pgdir].top == top && vm.spaces[pgdir].noUser == {top - 2 * PGSIZE}
    requires |argv| <= MAXARG && u == Ustack(top, argv)
    requires Pushed(vm.spaces[pgdir].mem, top, argv, sp)
    modifies vm
    ensures vm.next == old(vm.next) && vm.active == old(vm.active)
    ensures SameMapping(old(vm.spaces), vm.spaces, pgdir)
    ensures esp == InitialSp(top, argv) && (ok <==> Fits(top, esp, 4 * (3 + |argv| + 1)))
    ensures ok ==> StackBuilt(vm.spaces[pgdir].mem, top, argv, esp)
    ensures Below(vm.spaces[pgdir].mem, top - 2 * PGSIZE) == Below(old(vm.spaces[pgdir].mem), top - 2 * PGSIZE)
  {
    esp := Sub32(sp, (3 + |argv| + 1) * 4);
    ghost var mem := vm.spaces[pgdir].mem;
    AccessibleFits(vm.spaces[pgdir], esp, 4 * (3 + |argv| + 1));
    var rc := vm.CopyOut(pgdir, esp, Words(u));
    if rc < 0 {
      return false, esp;
    }
    PushStaysInPage(top, sp, 4 * (3 + |argv| + 1), esp);
    StringsAtKeep(mem, top, argv, esp, Words(u));
    StoreHolds(mem, esp, Words(u));
    StoreAbove(mem, esp, Words(u), top - 2 * PGSIZE);
    ok := true;
  }

  // ---------------------------------------------------------------
  // The segment loop

  /** Reading header `i` extends the table, the reads and the offset by one. */
  lemma TableStep(file: seq<byte>, elf: ElfHdr, i: nat)
    requires TableInFile(file, elf, i) && PhOff(elf, i) + PROGHDR_SIZE <= |file|
    ensures TableInFile(file, elf, i + 1)
    ensures Table(file, elf, i + 1) == Table(file, elf, i) + [Ph(file, elf, i)]
  {
  }

  /** The body of the segment loop for one program header `ph` (exec.c:72-86),
      with `sz` the size mapped so far: a segment that is not loadable is
      skipped; a loadable one is checked, mapped up to its end and loaded. */
  method LoadSegment(vm: Vm, file: seq<byte>, pgdir: nat, ph: ProgHdr, sz: uint32) returns (ok: bool, nsz: uint32)
    requires pgdir in vm.spaces && vm.spaces[pgdir].top == sz && sz < KERNBASE
    modifies vm
    ensures vm.next == old(vm.next) && vm.active == old(vm.active)
    ensures Others(old(vm.spaces), vm.spaces, pgdir)
    ensures vm.spaces[pgdir].noUser == old(vm.spaces[pgdir].noUser)
    ensures ok ==> Loadable([ph]) && nsz < KERNBASE && nsz == vm.spaces[pgdir].top
    ensures ok ==> nsz == if ph.ptype != ELF_PROG_LOAD then sz else Max(sz, End(ph))
    ensures ph.ptype != ELF_PROG_LOAD ==> ok && nsz == sz && vm.spaces == old(vm.spaces)
    ensures ok && ph.ptype == ELF_PROG_LOAD ==>
              ph.off + ph.filesz <= |file|
              && vm.spaces[pgdir].mem == Store(old(vm.spaces[pgdir].mem), ph.vaddr, FileImage(file, ph))
  {
    nsz := sz;
    if ph.ptype != ELF_PROG_LOAD {
      return true, nsz;
    }
    if ph.memsz < ph.filesz {
      return false, nsz;
    }
    WrapTest(ph.vaddr, ph.memsz);
    if Add32(ph.vaddr, ph.memsz) < ph.vaddr {
      return false, nsz;
    }
    nsz := vm.AllocUvm(pgdir, nsz, Add32(ph.vaddr, ph.memsz));
    if nsz == 0 {
      return false, nsz;
    }
    if ph.vaddr % PGSIZE != 0 {
      return false, nsz;
    }
    var rc := vm.LoadUvm(pgdir, ph.vaddr, file, ph.off, ph.filesz);
    if rc < 0 {
      return false, nsz;
    }
    ok := true;
  }

  /** The first `i` program headers have been read from `file` and handled,
      leaving the running size `sz` and the memory `mem`. */
  ghost predicate Scanned(file: seq<byte>, elf: ElfHdr, i: nat, sz: uint32, mem: map<nat, byte>)
  {
    TableInFile(file, elf, i)
    && Loadable(Table(file, elf, i))
    && sz == SegmentsTop(Table(file, elf, i))
    && sz < KERNBASE
    && SegmentsInFile(file, Table(file, elf, i))
    && mem == LoadedMem(map[], file, Table(file, elf, i))
  }

  /** One turn of the segment loop: read program header `i` at its offset and
      handle it. */
  method NextSegment(vm: Vm, fs: FileSystem, path: seq<byte>, pgdir: nat, elf: ElfHdr, i: nat, off: uint32, sz: uint32)
    returns (ok: bool, nsz: uint32)
    requires path in fs.files && off == PhOff(elf, i)
    requires pgdir in vm.spaces && vm.spaces[pgdir].top == sz
    requires Scanned(fs.files[path], elf, i, sz, vm.spaces[pgdir].mem)
    modifies vm, fs
    ensures fs.files == old(fs.files) && fs.held == old(fs.held) && fs.puts == old(fs.puts) && fs.ops == old(fs.ops)
    ensures fs.readLog == old(fs.readLog) + [Read(PhOff(elf, i), PROGHDR_SIZE)]
    ensures vm.next == old(vm.next) && vm.active == old(vm.active)
    ensures Others(old(vm.spaces), vm.spaces, pgdir)
    ensures vm.spaces[pgdir].noUser == old(vm.spaces[pgdir].noUser)
    ensures ok ==> Scanned(fs.files[path], elf, i + 1, nsz, vm.spaces[pgdir].mem) && vm.spaces[pgdir].top == nsz
  {
    var file := fs.files[path];
    var rd := fs.ReadI(path, off, PROGHDR_SIZE);
    if rd.None? {
      return false, sz;
    }
    TableStep(file, elf, i);
    var ph := DecodeProgHdr(rd.value);
    TableSnoc(Table(file, elf, i), ph);
    LoadedSnoc(map[], file, Table(file, elf, i), ph);
    ok, nsz := LoadSegment(vm, file, pgdir, ph, sz);
  }

  /** The loop of exec.c:68-87 over the program headers of `elf`, into the
      fresh space `pgdir`. */
  method LoadSegments(vm: Vm, fs: FileSystem, path: seq<byte>, pgdir: nat, elf: ElfHdr)
    returns (ok: bool, sz: uint32)
    requires path in fs.files
    requires pgdir in vm.spaces && vm.spaces[pgdir] == Space(0, {}, map[])
    modifies vm, fs
    ensures fs.files == old(fs.files) && fs.held == old(fs.held) && fs.puts == old(fs.puts) && fs.ops == old(fs.ops)
    ensures vm.next == old(vm.next) && vm.active == old(vm.active)
    ensures Others(old(vm.spaces), vm.spaces, pgdir) && vm.spaces[pgdir].noUser == {}
    ensures ok ==> TableInFile(fs.files[path], elf, elf.phnum)
    ensures ok ==> fs.readLog == old(fs.readLog) + PhReads(elf, elf.phnum)
    ensures ok ==> Loadable(Table(fs.files[path], elf, elf.phnum))
    ensures ok ==> sz == SegmentsTop(Table(fs.files[path], elf, elf.phnum)) == vm.spaces[pgdir].top
    ensures ok ==> sz < KERNBASE
    ensures ok ==> SegmentsInFile(fs.files[path], Table(fs.files[path], elf, elf.phnum))
                   && vm.spaces[pgdir].mem == LoadedMem(map[], fs.files[path], Table(fs.files[path], elf, elf.phnum))
  {
    sz := 0;
    var i := 0;
    var off: uint32 := elf.phoff;
    while i < elf.phnum
      invariant i <= elf.phnum && off == PhOff(elf, i)
      invariant fs.files == old(fs.files) && fs.held == old(fs.held) && fs.puts == old(fs.puts) && fs.ops == old(fs.ops)
      invariant fs.readLog == old(fs.readLog) + PhReads(elf, i)
      invariant vm.next == old(vm.next) && vm.active == old(vm.active)
      invariant pgdir in vm.spaces && Others(old(vm.spaces), vm.spaces, pgdir) && vm.spaces[pgdir].noUser == {}
      invariant Scanned(fs.files[path], elf, i, sz, vm.spaces[pgdir].mem) && vm.spaces[pgdir].top == sz
    {
      ghost var before := vm.spaces;
      ok, sz := NextSegment(vm, fs, path, pgdir, elf, i, off, sz);
      OthersTrans(old(vm.spaces), before, vm.spaces, pgdir);
      if !ok {
        return;
      }
      assert fs.readLog == old(fs.readLog) + (PhReads(elf, i) + [Read(PhOff(elf, i), PROGHDR_SIZE)]);
      Add32Add32(elf.phoff, PROGHDR_SIZE * i, PROGHDR_SIZE);
      i := i + 1;
      off := Add32(off, PROGHDR_SIZE);
    }
    ok := true;
  }

  // ---------------------------------------------------------------
  // exec

  /** What the segment loop has checked of `file`, whose header is `elf`:
      the program header table lies in the file, every loadable segment passes
      the checks, all of them end below KERNBASE, and their file images lie in
      the file. */
  ghost predicate SegmentsLoaded(file: seq<byte>, elf: ElfHdr)
  {
    TableInFile(file, elf, elf.phnum)
    && Loadable(Table(file, elf, elf.phnum))
    && SegmentsTop(Table(file, elf, elf.phnum)) < KERNBASE
    && SegmentsInFile(file, Table(file, elf, elf.phnum))
  }

  /** The program as loaded: the file image of each loadable segment at its
      `vaddr`, and nothing else. */
  ghost function SegmentsImage(file: seq<byte>, elf: ElfHdr): map<nat, byte>
    requires SegmentsLoaded(file, elf)
  {
    LoadedMem(map[], file, Table(file, elf, elf.phnum))
  }

  /** The size of the new image: the segments rounded up to a page, then the
      guard page and the stack page. */
  function ImageSize(file: seq<byte>, elf: ElfHdr): nat
    requires TableInFile(file, elf, elf.phnum) && SegmentsTop(Table(file, elf, elf.phnum)) < KERNBASE
  {
    PgRoundUp(SegmentsTop(Table(file, elf, elf.phnum))) + 2 * PGSIZE
  }

  /** The loaded segments all lie below the guard page of the new image. */
  lemma SegmentsImageBelow(file: seq<byte>, elf: ElfHdr)
    requires SegmentsLoaded(file, elf)
    ensures Below(SegmentsImage(file, elf), ImageSize(file, elf) - 2 * PGSIZE) == SegmentsImage(file, elf)
  {
    var t := Table(file, elf, elf.phnum);
    LoadedKeys(map[], file, t);
    PgRoundUpBelowKernBase(SegmentsTop(t));
    BelowAll(SegmentsImage(file, elf), PgRoundUp(SegmentsTop(t)));
  }

  /** The new space `s` of size `sz` has its guard page at sz - 2*PGSIZE and
      holds the initial stack for `argv`, which starts at `sp`. */
  ghost predicate StackImage(s: Space, argv: seq<seq<byte>>, sz: uint32, sp: uint32)
  {
    s.top == sz && s.noUser == {sz - 2 * PGSIZE}
    && |argv| <= MAXARG && sp == InitialSp(sz, argv)
    && StackBuilt(s.mem, sz, argv, sp)
  }

  /** The `bad:` label: free the new page directory if one was made, and
      release the inode if it is still held. */
  method Bad(vm: Vm, fs: FileSystem, path: seq<byte>, pgdir: nat, held: bool) returns (r: int)
    requires pgdir != 0 ==> pgdir in vm.spaces
    requires held ==> fs.held > 0 && fs.ops > 0
    modifies vm, fs
    ensures r == -1
    ensures vm.spaces == (if pgdir != 0 then old(vm.spaces) - {pgdir} else old(vm.spaces))
    ensures vm.next == old(vm.next) && vm.active == old(vm.active)
    ensures fs.files == old(fs.files) && fs.readLog == old(fs.readLog)
    ensures fs.held == old(fs.held) - (if held then 1 else 0)
    ensures fs.ops == old(fs.ops) - (if held then 1 else 0)
    ensures fs.puts == old(fs.puts) + (if held then 1 else 0)
  {
    if pgdir != 0 {
      vm.FreeVm(pgdir);
    }
    if held {
      fs.IUnlockPut(path);
      fs.EndOp();
    }
    r := -1;
  }

  /** exec.c:58-61: read the ELF header and check its magic number. */
  method ReadHeader(fs: FileSystem, path: seq<byte>) returns (ok: bool, elf: ElfHdr)
    requires path in fs.files
    modifies fs
    ensures fs.files == old(fs.files) && fs.held == old(fs.held) && fs.puts == old(fs.puts) && fs.ops == old(fs.ops)
    ensures fs.readLog == old(fs.readLog) + [Read(0, ELFHDR_SIZE)]
    ensures !HeaderOk(fs.files[path]) ==> !ok
    ensures ok ==> HeaderOk(fs.files[path]) && elf == Header(fs.files[path])
  {
    var hdr := fs.ReadI(path, 0, ELFHDR_SIZE);
    if hdr.None? {
      return false, ElfHdr(0, seq(12, _ => 0), 0, 0, 0, 0, 0, 0, 0, 0, 0, 0, 0, 0, 0);
    }
    elf := DecodeElfHdr(hdr.value);
    assert hdr.value == fs.files[path][..ELFHDR_SIZE];
    ok := elf.magic == ELF_MAGIC;
  }

  /** exec.c:104-108: two pages at the next page boundary above the
      segments, the lower one made inaccessible as a guard page. */
  method AllocStack(vm: Vm, pgdir: nat, sz: uint32) returns (ok: bool, nsz: uint32)
    requires pgdir in vm.spaces && vm.spaces[pgdir].top == sz && sz < KERNBASE
    requires vm.spaces[pgdir].noUser == {}
    modifies vm
    ensures vm.next == old(vm.next) && vm.active == old(vm.active)
    ensures Others(old(vm.spaces), vm.spaces, pgdir)
    ensures ok ==> nsz == PgRoundUp(sz) + 2 * PGSIZE && nsz < KERNBASE
    ensures ok ==> vm.spaces[pgdir].top == nsz && vm.spaces[pgdir].noUser == {nsz - 2 * PGSIZE}
    ensures vm.spaces[pgdir].mem == old(vm.spaces[pgdir].mem)
  {
    PgRoundUpBelowKernBase(sz);
    nsz := PgRoundUp(sz);
    nsz := vm.AllocUvm(pgdir, nsz, Add32(nsz, 2 * PGSIZE));
    if nsz == 0 {
      return false, nsz;
    }
    vm.ClearPteu(pgdir, nsz - 2 * PGSIZE);
    ok := true;
  }

  /** exec.c:104-127: the stack and guard pages above the segments of size
      `sz`, then the argument strings and the `ustack` words on the stack. */
  method BuildStack(vm: Vm, pgdir: nat, sz: uint32, argv: seq<seq<byte>>) returns (ok: bool, nsz: uint32, sp: uint32)
    requires pgdir in vm.spaces && vm.spaces[pgdir].top == sz && sz < KERNBASE
    requires vm.spaces[pgdir].noUser == {}
    modifies vm
    ensures vm.next == old(vm.next) && vm.active == old(vm.active)
    ensures Others(old(vm.spaces), vm.spaces, pgdir)
    ensures |argv| > MAXARG ==> !ok
    ensures ok ==> nsz == PgRoundUp(sz) + 2 * PGSIZE && StackImage(vm.spaces[pgdir], argv, nsz, sp)
    ensures ok ==> Below(vm.spaces[pgdir].mem, PgRoundUp(sz)) == Below(old(vm.spaces[pgdir].mem), PgRoundUp(sz))
  {
    sp := 0;
    ok, nsz := AllocStack(vm, pgdir, sz);
    if !ok {
      return;
    }
    ok, sp := PushArgs(vm, pgdir, nsz, argv);
  }

  /** exec.c:63-127, after the header check: a fresh page directory, the
      segments, the stack and the arguments. On failure it reports the page
      directory to free (0 if none) and whether the inode is still held. */
  method BuildImage(vm: Vm, fs: FileSystem, path: seq<byte>, elf: ElfHdr, argv: seq<seq<byte>>)
    returns (ok: bool, pgdir: nat, sz: uint32, sp: uint32, held: bool)
    requires path in fs.files && fs.held > 0 && fs.ops > 0 && vm.Valid()
    modifies vm, fs
    ensures vm.Valid() && vm.active == old(vm.active)
    ensures fs.files == old(fs.files)
    ensures held ==> fs.held == old(fs.held) && fs.ops == old(fs.ops) && fs.puts == old(fs.puts)
    ensures !held ==> fs.held == old(fs.held) - 1 && fs.ops == old(fs.ops) - 1 && fs.puts == old(fs.puts) + 1
    ensures pgdir == 0 ==> vm.spaces == old(vm.spaces) && held
    ensures pgdir != 0 ==> pgdir == old(vm.next) && pgdir in vm.spaces && vm.spaces - {pgdir} == old(vm.spaces)
    ensures |argv| > MAXARG ==> !ok
    ensures ok ==> pgdir != 0 && !held
    ensures ok ==> fs.readLog == old(fs.readLog) + PhReads(elf, elf.phnum)
    ensures ok ==> SegmentsLoaded(fs.files[path], elf) && sz == ImageSize(fs.files[path], elf)
    ensures ok ==> StackImage(vm.spaces[pgdir], argv, sz, sp)
    ensures ok ==> Below(vm.spaces[pgdir].mem, sz - 2 * PGSIZE) == SegmentsImage(fs.files[path], elf)
  {
    held := true;
    sz, sp := 0, 0;
    pgdir := vm.SetupKvm();
    if pgdir == 0 {
      return false, pgdir, sz, sp, held;
    }
    ghost var created := vm.spaces;
    ok, sz, sp, held := LoadImage(vm, fs, path, pgdir, elf, argv);
    OthersRemove(created, vm.spaces, pgdir);
  }

  /** exec.c:68-127: the segments, then the inode released, then the stack
      and the arguments, all in the fresh space `pgdir`. */
  method LoadImage(vm: Vm, fs: FileSystem, path: seq<byte>, pgdir: nat, elf: ElfHdr, argv: seq<seq<byte>>)
    returns (ok: bool, sz: uint32, sp: uint32, held: bool)
    requires path in fs.files && fs.held > 0 && fs.ops > 0
    requires pgdir in vm.spaces && vm.spaces[pgdir] == Space(0, {}, map[])
    modifies vm, fs
    ensures vm.next == old(vm.next) && vm.active == old(vm.active)
    ensures Others(old(vm.spaces), vm.spaces, pgdir)
    ensures fs.files == old(fs.files)
    ensures held ==> fs.held == old(fs.held) && fs.ops == old(fs.ops) && fs.puts == old(fs.puts)
    ensures !held ==> fs.held == old(fs.held) - 1 && fs.ops == old(fs.ops) - 1 && fs.puts == old(fs.puts) + 1
    ensures |argv| > MAXARG ==> !ok
    ensures ok ==> !held
    ensures ok ==> fs.readLog == old(fs.readLog) + PhReads(elf, elf.phnum)
    ensures ok ==> SegmentsLoaded(fs.files[path], elf) && sz == ImageSize(fs.files[path], elf)
    ensures ok ==> StackImage(vm.spaces[pgdir], argv, sz, sp)
    ensures ok ==> Below(vm.spaces[pgdir].mem, sz - 2 * PGSIZE) == SegmentsImage(fs.files[path], elf)
  {
    held := true;
    sp := 0;
    ok, sz := LoadSegments(vm, fs, path, pgdir, elf);
    if !ok {
      return;
    }
    ghost var loaded := vm.spaces;
    held := false;
    ok, sz, sp := StackImageAbove(vm, fs, path, pgdir, elf, argv, sz);
    OthersTrans(old(vm.spaces), loaded, vm.spaces, pgdir);
  }

  /** exec.c:89-127, once the segments of `elf` are in `pgdir` up to `top`:
      release the inode and end the log operation, then build the stack and
      the arguments above the segments. */
  method StackImageAbove(vm: Vm, fs: FileSystem, path: seq<byte>, pgdir: nat, elf: ElfHdr, argv: seq<seq<byte>>, top: uint32)
    returns (ok: bool, sz: uint32, sp: uint32)
    requires path in fs.files && fs.held > 0 && fs.ops > 0
    requires SegmentsLoaded(fs.files[path], elf) && top == SegmentsTop(Table(fs.files[path], elf, elf.phnum))
    requires pgdir in vm.spaces && vm.spaces[pgdir].top == top && vm.spaces[pgdir].noUser == {}
    requires vm.spaces[pgdir].mem == SegmentsImage(fs.files[path], elf)
    modifies vm, fs
    ensures vm.next == old(vm.next) && vm.active == old(vm.active)
    ensures Others(old(vm.spaces), vm.spaces, pgdir)
    ensures fs.files == old(fs.files) && fs.readLog == old(fs.readLog)
    ensures fs.held == old(fs.held) - 1 && fs.ops == old(fs.ops) - 1 && fs.puts == old(fs.puts) + 1
    ensures |argv| > MAXARG ==> !ok
    ensures ok ==> sz == ImageSize(fs.files[path], elf) && StackImage(vm.spaces[pgdir], argv, sz, sp)
    ensures ok ==> Below(vm.spaces[pgdir].mem, sz - 2 * PGSIZE) == SegmentsImage(fs.files[path], elf)
  {
    fs.IUnlockPut(path);
    fs.EndOp();
    ok, sz, sp := BuildStack(vm, pgdir, top, argv);
    if ok {
      SegmentsImageBelow(fs.files[path], elf);
    }
  }

  /** exec(path, argv) run by process `proc`. */
  method Exec(proc: Proc, vm: Vm, fs: FileSystem, path: seq<byte>, argv: seq<seq<byte>>) returns (r: int)
    requires CString(path) && forall k | 0 <= k < |argv| :: CString(argv[k])
    requires vm.Valid() && proc.pgdir in vm.spaces
    modifies proc, vm, fs
    ensures r == 0 || r == -1
    ensures vm.Valid()
    // the file system: every begin_op is ended, and the inode namei found is
    // released exactly once, on every path
    ensures fs.files == old(fs.files) && fs.held == old(fs.held) && fs.ops == old(fs.ops)
    ensures fs.puts == old(fs.puts) + (if path in old(fs.files) then 1 else 0)
    // failure changes nothing the process can see
    ensures r == -1 ==> proc.pgdir == old(proc.pgdir) && proc.sz == old(proc.sz)
                        && proc.eip == old(proc.eip) && proc.esp == old(proc.esp) && proc.name == old(proc.name)
    ensures r == -1 ==> vm.spaces == old(vm.spaces) && vm.active == old(vm.active)
    // the early failures
    ensures path !in old(fs.files) ==> r == -1 && vm.next == old(vm.next) && fs.readLog == old(fs.readLog)
    ensures path in old(fs.files) && !HeaderOk(old(fs.files)[path]) ==>
              r == -1 && vm.next == old(vm.next) && fs.readLog == old(fs.readLog) + [Read(0, ELFHDR_SIZE)]
    ensures |argv| > MAXARG ==> r == -1
    // success: what was read and checked
    ensures r == 0 ==> path in fs.files && HeaderOk(fs.files[path])
    ensures r == 0 ==> fs.readLog == old(fs.readLog) + [Read(0, ELFHDR_SIZE)]
                                     + PhReads(Header(fs.files[path]), Header(fs.files[path]).phnum)
    ensures r == 0 ==> SegmentsLoaded(fs.files[path], Header(fs.files[path]))
    // success: the committed image
    ensures r == 0 ==> proc.pgdir == old(vm.next) && proc.pgdir in vm.spaces
    ensures r == 0 ==> vm.spaces == (old(vm.spaces)[proc.pgdir := vm.spaces[proc.pgdir]]) - {old(proc.pgdir)}
    ensures r == 0 ==> vm.active == proc.pgdir
    ensures r == 0 ==> proc.sz == ImageSize(fs.files[path], Header(fs.files[path]))
    ensures r == 0 ==> proc.eip == Header(fs.files[path]).entry
    ensures r == 0 ==> StackImage(vm.spaces[proc.pgdir], argv, proc.sz, proc.esp)
    ensures r == 0 ==> Below(vm.spaces[proc.pgdir].mem, proc.sz - 2 * PGSIZE)
                       == SegmentsImage(fs.files[path], Header(fs.files[path]))
    ensures r == 0 ==> proc.name == path[NameStart(path)..]
  {
    fs.BeginOp();
    var found := fs.Namei(path);
    if !found {
      fs.EndOp();
      return -1;
    }
    r := ExecInode(proc, vm, fs, path, argv);
  }

  /** exec once namei has found the file: everything from reading the ELF
      header to the commit, with the inode held and the log operation open
      on entry, and both released on every path. */
  method ExecInode(proc: Proc, vm: Vm, fs: FileSystem, path: seq<byte>, argv: seq<seq<byte>>) returns (r: int)
    requires path in fs.files && fs.held > 0 && fs.ops > 0
    requires vm.Valid() && proc.pgdir in vm.spaces
    modifies proc, vm, fs
    ensures r == 0 || r == -1
    ensures vm.Valid()
    ensures fs.files == old(fs.files) && fs.held == old(fs.held) - 1 && fs.ops == old(fs.ops) - 1
    ensures fs.puts == old(fs.puts) + 1
    ensures r == -1 ==> proc.pgdir == old(proc.pgdir) && proc.sz == old(proc.sz)
                        && proc.eip == old(proc.eip) && proc.esp == old(proc.esp) && proc.name == old(proc.name)
    ensures r == -1 ==> vm.spaces == old(vm.spaces) && vm.active == old(vm.active)
    ensures !HeaderOk(fs.files[path]) ==>
              r == -1 && vm.next == old(vm.next) && fs.readLog == old(fs.readLog) + [Read(0, ELFHDR_SIZE)]
    ensures |argv| > MAXARG ==> r == -1
    ensures r == 0 ==> HeaderOk(fs.files[path])
    ensures r == 0 ==> fs.readLog == old(fs.readLog) + [Read(0, ELFHDR_SIZE)]
                                     + PhReads(Header(fs.files[path]), Header(fs.files[path]).phnum)
    ensures r == 0 ==> SegmentsLoaded(fs.files[path], Header(fs.files[path]))
    ensures r == 0 ==> proc.pgdir == old(vm.next) && proc.pgdir in vm.spaces
    ensures r == 0 ==> vm.spaces == (old(vm.spaces)[proc.pgdir := vm.spaces[proc.pgdir]]) - {old(proc.pgdir)}
    ensures r == 0 ==> vm.active == proc.pgdir
    ensures r == 0 ==> proc.sz == ImageSize(fs.files[path], Header(fs.files[path]))
    ensures r == 0 ==> proc.eip == Header(fs.files[path]).entry
    ensures r == 0 ==> StackImage(vm.spaces[proc.pgdir], argv, proc.sz, proc.esp)
    ensures r == 0 ==> Below(vm.spaces[proc.pgdir].mem, proc.sz - 2 * PGSIZE)
                       == SegmentsImage(fs.files[path], Header(fs.files[path]))
    ensures r == 0 ==> proc.name == path[NameStart(path)..]
  {
    var ok, elf := ReadHeader(fs, path);
    if !ok {
      r := Bad(vm, fs, path, 0, true);
      return;
    }
    var pgdir, sz, sp, held;
    ok, pgdir, sz, sp, held := BuildImage(vm, fs, path, elf, argv);
    if !ok {
      r := Bad(vm, fs, path, pgdir, held);
      return;
    }
    var last := ProgramName(path);
    assert proc.pgdir != pgdir;
    Commit(proc, vm, path[last..], pgdir, sz, elf.entry, sp);
    r := 0;
  }

  /** exec.c:133-144: record the name, switch the process to the new image
      and free the old one. */
  method Commit(proc: Proc, vm: Vm, name: seq<byte>, pgdir: nat, sz: uint32, entry: uint32, sp: uint32)
    requires pgdir in vm.spaces && proc.pgdir in vm.spaces && proc.pgdir != pgdir
    modifies proc, vm
    ensures proc.name == name && proc.pgdir == pgdir && proc.sz == sz && proc.eip == entry && proc.esp == sp
    ensures vm.spaces == old(vm.spaces) - {old(proc.pgdir)}
    ensures vm.active == pgdir && vm.next == old(vm.next)
  {
    proc.name := name;
    var oldpgdir := proc.pgdir;
    proc.pgdir := pgdir;
    proc.sz := sz;
    proc.eip := entry;
    proc.esp := sp;
    vm.SwitchUvm(pgdir);
    vm.FreeVm(oldpgdir);
  }
}
