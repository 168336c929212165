/** The physical page allocator of kalloc.c: a LIFO free list of 4096-byte
    frames. The pure step functions below say what one `kfree` or `kalloc`
    does to the allocator state; class Kmem is the global `kmem` whose methods
    perform those steps in place. */
module Kalloc {
  import opened Machine

  /** Top of physical memory (memlayout.h, not part of this model): any value. */
  const PHYSTOP: uint32

  /** `end`, the first address after the kernel image, set by the linker script
      (not part of this model). Assumed only to be above address 0. */
  type KernelEnd = x: int | 0 < x < WORD witness 1
  const KERNEL_END: KernelEnd

  /** The null pointer: the end of the list and kalloc's "no memory" result. */
  const NULL: uint32 := 0

  /** V2P of memlayout.h: a kernel virtual address minus KERNBASE, as a `uint`. */
  function V2P(v: uint32): (p: uint32)
  {
    Sub32(v, KERNBASE)
  }

  /** The frames `kfree` accepts: page-aligned, not inside the kernel image, and
      backed by installed physical memory. */
  predicate Freeable(v: uint32)
  {
    v % PGSIZE == 0 && v >= KERNEL_END && V2P(v) < PHYSTOP
  }

  lemma FreeableIsNotNull(v: uint32)
    requires Freeable(v)
    ensures v != NULL
  {
  }

  /** The allocator state: `use_lock`, the free list (head first, each entry a
      frame address) and the contents of the frames kfree has written. */
  datatype KmemState = KmemState(useLock: bool, freelist: seq<uint32>, pages: map<uint32, seq<byte>>)

  /** The value of `kmem.freelist` as a pointer. */
  function ListHead(freelist: seq<uint32>): uint32
  {
    if freelist == [] then NULL else freelist[0]
  }

  /** A frame just freed: memset filled it with 1, then kfree stored the old
      list head in its first word, the `next` field of `struct run`. */
  function FreedPage(next: uint32): (p: seq<byte>)
    ensures |p| == PGSIZE
  {
    Le32(next) + seq(PGSIZE - 4, _ => 1)
  }

  /** The allocator invariant: every listed frame is one kfree accepts, and its
      contents are a whole page. */
  predicate FramesValid(s: KmemState)
  {
    forall i | 0 <= i < |s.freelist| ::
      Freeable(s.freelist[i]) && s.freelist[i] in s.pages && |s.pages[s.freelist[i]]| == PGSIZE
  }

  /** One `kfree(v)`: None is `panic("kfree")`. */
  function KfreeStep(s: KmemState, v: uint32): (t: Option<KmemState>)
  {
    if !Freeable(v) then None
    else Some(s.(freelist := [v] + s.freelist,
                 pages := s.pages[v := FreedPage(ListHead(s.freelist))]))
  }

  /** What `kalloc()` returns, and the state it leaves. */
  datatype Alloc = Alloc(frame: uint32, state: KmemState)

  /** One `kalloc()`. */
  function KallocStep(s: KmemState): Alloc
  {
    if s.freelist == [] then Alloc(NULL, s)
    else Alloc(s.freelist[0], s.(freelist := s.freelist[1..]))
  }

  /** A series of kfree calls, in order, up to the first one that panics. */
  function FreeAll(s: KmemState, vs: seq<uint32>): KmemState
    decreases |vs|
  {
    if vs == [] then s
    else match KfreeStep(s, vs[0])
      case None => s
      case Some(s') => FreeAll(s', vs[1..])
  }

  /** `n` kalloc calls in a row: the frames they return, and the final state. */
  datatype Allocs = Allocs(frames: seq<uint32>, state: KmemState)

  function AllocN(s: KmemState, n: nat): Allocs
    decreases n
  {
    if n == 0 then Allocs([], s)
    else
      var a := KallocStep(s);
      var rest := AllocN(a.state, n - 1);
      Allocs([a.frame] + rest.frames, rest.state)
  }

  function Reversed(vs: seq<uint32>): (r: seq<uint32>)
    ensures |r| == |vs|
  {
    if vs == [] then [] else Reversed(vs[1..]) + [vs[0]]
  }

  predicate AllFreeable(vs: seq<uint32>)
  {
    forall i | 0 <= i < |vs| :: Freeable(vs[i])
  }

  predicate Distinct(vs: seq<uint32>)
  {
    forall i, j | 0 <= i < j < |vs| :: vs[i] != vs[j]
  }

  // ---------------------------------------------------------------
  // Properties of single steps

  /** kfree panics exactly when the frame is misaligned, inside the kernel
      image, or beyond PHYSTOP, and then nothing changes. */
  lemma KfreeRejects(s: KmemState, v: uint32)
    ensures KfreeStep(s, v).None? <==> (v % PGSIZE != 0 || v < KERNEL_END || V2P(v) >= PHYSTOP)
  {
  }

  /** A successful kfree pushes the frame on the list head, leaves the old list
      as its tail, fills bytes 4..4095 of the frame with 1, stores the old head
      in bytes 0..3, and changes no other frame. */
  lemma KfreeEffect(s: KmemState, v: uint32)
    requires Freeable(v)
    ensures KfreeStep(s, v).Some?
    ensures var t := KfreeStep(s, v).value;
      && t.freelist == [v] + s.freelist
      && |t.freelist| == |s.freelist| + 1
      && t.useLock == s.useLock
      && |t.pages[v]| == PGSIZE
      && (forall i | 4 <= i < PGSIZE :: t.pages[v][i] == 1)
      && U32At(t.pages[v], 0) == ListHead(s.freelist)
      && t.pages.Keys == s.pages.Keys + {v}
      && (forall u | u in s.pages && u != v :: t.pages[u] == s.pages[u])
  {
    Le32Decode(ListHead(s.freelist));
  }

  /** kalloc on a non-empty list returns the old head and keeps the old tail;
      on an empty list it returns 0 and changes nothing. */
  lemma KallocEffect(s: KmemState)
    ensures s.freelist == [] ==> KallocStep(s) == Alloc(NULL, s)
    ensures s.freelist != [] ==>
      KallocStep(s).frame == s.freelist[0]
      && KallocStep(s).state.freelist == s.freelist[1..]
      && KallocStep(s).state.pages == s.pages
      && KallocStep(s).state.useLock == s.useLock
  {
  }

  /** LIFO: kalloc right after kfree(v) returns v and restores the list. */
  lemma FreeThenAlloc(s: KmemState, v: uint32)
    requires Freeable(v)
    ensures KfreeStep(s, v).Some?
    ensures KallocStep(KfreeStep(s, v).value)
         == Alloc(v, s.(pages := s.pages[v := FreedPage(ListHead(s.freelist))]))
  {
    assert ([v] + s.freelist)[1..] == s.freelist;
  }

  /** kfree keeps the allocator invariant. */
  lemma KfreePreservesValid(s: KmemState, v: uint32)
    requires FramesValid(s)
    ensures KfreeStep(s, v).Some? ==> FramesValid(KfreeStep(s, v).value)
  {
    if Freeable(v) {
      var t := KfreeStep(s, v).value;
      forall i | 0 <= i < |t.freelist|
        ensures Freeable(t.freelist[i]) && t.freelist[i] in t.pages
             && |t.pages[t.freelist[i]]| == PGSIZE
      {
        if i > 0 {
          assert t.freelist[i] == s.freelist[i - 1];
        }
      }
    }
  }

  /** kalloc keeps the allocator invariant, reports exhaustion only on an empty
      list, and otherwise returns a frame that kfree would accept. */
  lemma KallocPreservesValid(s: KmemState)
    requires FramesValid(s)
    ensures FramesValid(KallocStep(s).state)
    ensures KallocStep(s).frame == NULL <==> s.freelist == []
    ensures KallocStep(s).frame != NULL ==> Freeable(KallocStep(s).frame)
  {
    if s.freelist != [] {
      var t := KallocStep(s).state;
      forall i | 0 <= i < |t.freelist|
        ensures Freeable(t.freelist[i]) && t.freelist[i] in t.pages
             && |t.pages[t.freelist[i]]| == PGSIZE
      {
        assert t.freelist[i] == s.freelist[i + 1];
      }
    }
  }

  /** No double allocation: when callers free only frames that are not already
      free, the list never holds a frame twice, and the frame kalloc hands out
      is no longer on the list. */
  lemma KfreeKeepsDistinct(s: KmemState, v: uint32)
    requires Distinct(s.freelist) && v !in s.freelist
    ensures KfreeStep(s, v).Some? ==> Distinct(KfreeStep(s, v).value.freelist)
  {
    if Freeable(v) {
      var l := KfreeStep(s, v).value.freelist;
      forall i, j | 0 <= i < j < |l| ensures l[i] != l[j] {
        assert l[j] == s.freelist[j - 1];
        if i > 0 {
          assert l[i] == s.freelist[i - 1];
        }
      }
    }
  }

  lemma KallocRemovesFrame(s: KmemState)
    requires Distinct(s.freelist) && s.freelist != []
    ensures Distinct(KallocStep(s).state.freelist)
    ensures KallocStep(s).frame !in KallocStep(s).state.freelist
  {
    var l := KallocStep(s).state.freelist;
    forall i, j | 0 <= i < j < |l| ensures l[i] != l[j] {
      assert l[i] == s.freelist[i + 1] && l[j] == s.freelist[j + 1];
    }
  }

  /** The list as kfree links it: the first word of each listed frame, the
      `next` field of its `struct run`, holds the next entry (0 after the
      last), so following the links from the head walks exactly the list. */
  predicate Linked(s: KmemState)
  {
    forall i | 0 <= i < |s.freelist| ::
      s.freelist[i] in s.pages && |s.pages[s.freelist[i]]| >= 4
      && U32At(s.pages[s.freelist[i]], 0) == ListHead(s.freelist[i + 1..])
  }

  /** kfree of a frame that is not already free keeps the links. */
  lemma KfreeKeepsLinked(s: KmemState, v: uint32)
    requires Linked(s) && v !in s.freelist
    ensures KfreeStep(s, v).Some? ==> Linked(KfreeStep(s, v).value)
  {
    if Freeable(v) {
      var t := KfreeStep(s, v).value;
      Le32Decode(ListHead(s.freelist));
      forall i | 0 <= i < |t.freelist|
        ensures t.freelist[i] in t.pages && |t.pages[t.freelist[i]]| >= 4
             && U32At(t.pages[t.freelist[i]], 0) == ListHead(t.freelist[i + 1..])
      {
        assert t.freelist[i + 1..] == s.freelist[i..];
        if i > 0 {
          assert t.freelist[i] == s.freelist[i - 1];
        }
      }
    }
  }

  /** On a linked list, the head kalloc leaves is the `next` field of the
      frame it returns (`kmem.freelist = r->next`), and the rest stays
      linked. */
  lemma KallocFollowsLink(s: KmemState)
    requires Linked(s)
    ensures Linked(KallocStep(s).state)
    ensures s.freelist != [] ==>
              ListHead(KallocStep(s).state.freelist) == U32At(s.pages[KallocStep(s).frame], 0)
  {
    if s.freelist != [] {
      var t := KallocStep(s).state;
      forall i | 0 <= i < |t.freelist|
        ensures t.freelist[i] in t.pages && |t.pages[t.freelist[i]]| >= 4
             && U32At(t.pages[t.freelist[i]], 0) == ListHead(t.freelist[i + 1..])
      {
        assert t.freelist[i] == s.freelist[i + 1];
        assert t.freelist[i + 1..] == s.freelist[i + 2..];
      }
    }
  }

  /** Freeing the same frame twice: its `next` field then holds its own
      address, so the list in memory is a cycle through it, while the
      sequence still ends; on an empty allocator the third kalloc follows the
      sequence to 0, where following the links would return the frame again. */
  lemma DoubleFreeCycles(s: KmemState, v: uint32)
    requires Freeable(v)
    ensures var t := FreeAll(s, [v, v]);
      && t.freelist == [v, v] + s.freelist
      && v in t.pages && |t.pages[v]| == PGSIZE
      && U32At(t.pages[v], 0) == v
      && (s.freelist == [] ==> AllocN(t, 3).frames == [v, v, NULL])
  {
    var t1 := KfreeStep(s, v).value;
    var t2 := KfreeStep(t1, v).value;
    assert [v, v][1..] == [v] && [v][1..] == [];
    assert FreeAll(s, [v, v]) == FreeAll(t1, [v]);
    assert FreeAll(t1, [v]) == FreeAll(t2, []);
    Le32Decode(v);
    assert ([v] + ([v] + s.freelist))[1..][1..] == s.freelist;
  }

  // ---------------------------------------------------------------
  // Series of calls

  lemma {:induction false} FreeAllPushes(s: KmemState, vs: seq<uint32>)
    requires AllFreeable(vs)
    ensures FreeAll(s, vs).freelist == Reversed(vs) + s.freelist
    ensures FreeAll(s, vs).useLock == s.useLock
    decreases |vs|
  {
    if vs != [] {
      var t := KfreeStep(s, vs[0]).value;
      assert AllFreeable(vs[1..]) by {
        forall i | 0 <= i < |vs[1..]| ensures Freeable(vs[1..][i]) {
          assert vs[1..][i] == vs[i + 1];
        }
      }
      FreeAllPushes(t, vs[1..]);
      assert Reversed(vs) + s.freelist == Reversed(vs[1..]) + ([vs[0]] + s.freelist);
    }
  }

  lemma {:induction false} FreeAllPreservesValid(s: KmemState, vs: seq<uint32>)
    requires FramesValid(s)
    ensures FramesValid(FreeAll(s, vs))
    decreases |vs|
  {
    if vs != [] {
      KfreePreservesValid(s, vs[0]);
      if KfreeStep(s, vs[0]).Some? {
        FreeAllPreservesValid(KfreeStep(s, vs[0]).value, vs[1..]);
      }
    }
  }

  /** FreeAll over a longer series: one more kfree after a run that did not
      panic. */
  lemma {:induction false} FreeAllSnoc(s: KmemState, vs: seq<uint32>, v: uint32)
    requires AllFreeable(vs)
    ensures FreeAll(s, vs + [v]) == match KfreeStep(FreeAll(s, vs), v)
                                    case None => FreeAll(s, vs)
                                    case Some(t) => t
    decreases |vs|
  {
    if vs == [] {
      assert [] + [v] == [v];
      assert [v][1..] == [];
    } else {
      assert (vs + [v])[0] == vs[0];
      assert (vs + [v])[1..] == vs[1..] + [v];
      assert AllFreeable(vs[1..]) by {
        forall i | 0 <= i < |vs[1..]| ensures Freeable(vs[1..][i]) {
          assert vs[1..][i] == vs[i + 1];
        }
      }
      FreeAllSnoc(KfreeStep(s, vs[0]).value, vs[1..], v);
    }
  }

  /** Pops reverse pushes: n kalloc calls on a list of at least n frames return
      its first n entries in order. */
  lemma {:induction false} AllocNPops(s: KmemState, n: nat)
    requires n <= |s.freelist|
    ensures AllocN(s, n).frames == s.freelist[..n]
    ensures AllocN(s, n).state.freelist == s.freelist[n..]
    decreases n
  {
    if n > 0 {
      var a := KallocStep(s);
      AllocNPops(a.state, n - 1);
      assert s.freelist[..n] == [s.freelist[0]] + s.freelist[1..][..n - 1];
      assert s.freelist[n..] == s.freelist[1..][n - 1..];
    }
  }

  /** A series of kfree calls of distinct frames, none of them already free,
      keeps the links. */
  lemma {:induction false} FreeAllLinked(s: KmemState, vs: seq<uint32>)
    requires Linked(s) && Distinct(vs)
    requires forall i | 0 <= i < |vs| :: vs[i] !in s.freelist
    ensures Linked(FreeAll(s, vs))
    decreases |vs|
  {
    if vs != [] {
      KfreeKeepsLinked(s, vs[0]);
      if KfreeStep(s, vs[0]).Some? {
        var t := KfreeStep(s, vs[0]).value;
        var rest := vs[1..];
        forall i, j | 0 <= i < j < |rest| ensures rest[i] != rest[j] {
          assert rest[i] == vs[i + 1] && rest[j] == vs[j + 1];
        }
        forall i | 0 <= i < |rest| ensures rest[i] !in t.freelist {
          assert rest[i] == vs[i + 1];
        }
        FreeAllLinked(t, rest);
      }
    }
  }

  /** Exhaustion: after freeing N distinct good frames into an empty
      allocator, the list is linked through the frames, N kalloc calls
      succeed, returning the frames in reverse order, and the next one
      returns 0. */
  lemma Exhaustion(s: KmemState, vs: seq<uint32>)
    requires s.freelist == [] && AllFreeable(vs) && Distinct(vs)
    ensures Linked(FreeAll(s, vs))
    ensures var a := AllocN(FreeAll(s, vs), |vs|);
      && a.frames == Reversed(vs)
      && (forall i | 0 <= i < |vs| :: a.frames[i] != NULL)
      && KallocStep(a.state).frame == NULL
  {
    FreeAllLinked(s, vs);
    FreeAllPushes(s, vs);
    var t := FreeAll(s, vs);
    assert t.freelist == Reversed(vs);
    AllocNPops(t, |vs|);
    assert t.freelist[..|vs|] == t.freelist;
    ReversedFreeable(vs);
  }

  lemma {:induction false} ReversedFreeable(vs: seq<uint32>)
    requires AllFreeable(vs)
    ensures AllFreeable(Reversed(vs))
    decreases |vs|
  {
    if vs != [] {
      assert AllFreeable(vs[1..]) by {
        forall i | 0 <= i < |vs[1..]| ensures Freeable(vs[1..][i]) {
          assert vs[1..][i] == vs[i + 1];
        }
      }
      ReversedFreeable(vs[1..]);
      var r := Reversed(vs);
      forall i | 0 <= i < |r| ensures Freeable(r[i]) {
        if i < |vs| - 1 {
          assert r[i] == Reversed(vs[1..])[i];
        } else {
          assert r[i] == vs[0];
        }
      }
    }
  }

  // ---------------------------------------------------------------
  // The global `kmem`

  class Kmem {
    var useLock: bool
    var freelist: seq<uint32>
    var pages: map<uint32, seq<byte>>

    function State(): KmemState
      reads this
    {
      KmemState(useLock, freelist, pages)
    }

    /** The zero-initialised global: locking off, empty list. */
    constructor ()
      ensures State() == KmemState(false, [], map[])
    {
      useLock := false;
      freelist := [];
      pages := map[];
    }

    /** kfree(v). A false result is `panic("kfree")`: the state is unchanged
        and the kernel stops. The spin lock is not modelled. */
    method Kfree(v: uint32) returns (ok: bool)
      requires FramesValid(State())
      modifies this
      ensures FramesValid(State())
      ensures ok <==> !(v % PGSIZE != 0 || v < KERNEL_END || V2P(v) >= PHYSTOP)
      ensures KfreeStep(old(State()), v) == if ok then Some(State()) else None
      ensures !ok ==> State() == old(State())
      ensures ok ==> freelist == [v] + old(freelist) && useLock == old(useLock)
      ensures ok ==> pages == old(pages)[v := FreedPage(ListHead(old(freelist)))]
      ensures Linked(old(State())) && v !in old(freelist) ==> Linked(State())
    {
      if v % PGSIZE != 0 || v < KERNEL_END || V2P(v) >= PHYSTOP {
        return false;
      }
      // memset(v, 1, PGSIZE)
      pages := pages[v := seq(PGSIZE, _ => 1)];
      // r->next = kmem.freelist; kmem.freelist = r
      var r := v;
      pages := pages[r := Le32(ListHead(freelist)) + pages[r][4..]];
      assert pages[r] == FreedPage(ListHead(freelist));
      KfreePreservesValid(old(State()), v);
      if Linked(old(State())) && v !in old(freelist) {
        KfreeKeepsLinked(old(State()), v);
      }
      freelist := [r] + freelist;
      assert pages == old(pages)[v := FreedPage(ListHead(old(freelist)))];
      ok := true;
    }

    /** kalloc(): pops the list head, or returns 0 when the list is empty. The
        next frame is taken from the abstract list rather than read back from
        the frame's first word. */
    method Kalloc() returns (r: uint32)
      requires FramesValid(State())
      modifies this
      ensures FramesValid(State())
      ensures KallocStep(old(State())) == Alloc(r, State())
      ensures r == NULL <==> old(freelist) == []
      ensures r != NULL ==> Freeable(r)
      ensures Linked(old(State())) ==>
                Linked(State()) && (r != NULL ==> r in old(pages) && ListHead(freelist) == U32At(old(pages)[r], 0))
    {
      KallocPreservesValid(State());
      if Linked(State()) {
        KallocFollowsLink(State());
      }
      r := ListHead(freelist);
      if r != NULL {
        freelist := freelist[1..];
      }
    }

    /** freerange (declared in kalloc.c, body not part of this model): a kfree
        of each frame of the range, in order; stops with the kernel when one of
        them panics. */
    method FreeRange(frames: seq<uint32>) returns (ok: bool)
      requires FramesValid(State())
      modifies this
      ensures FramesValid(State())
      ensures ok == AllFreeable(frames)
      ensures State() == FreeAll(old(State()), frames)
    {
      var i := 0;
      ok := true;
      while i < |frames|
        invariant 0 <= i <= |frames|
        invariant AllFreeable(frames[..i])
        invariant FramesValid(State())
        invariant State() == FreeAll(old(State()), frames[..i])
      {
        var freed := Kfree(frames[i]);
        FreeAllSnoc(old(State()), frames[..i], frames[i]);
        assert frames[..i + 1] == frames[..i] + [frames[i]];
        if !freed {
          FreeAllStops(old(State()), frames, i);
          return false;
        }
        i := i + 1;
      }
      assert frames[..i] == frames;
    }

    /** kinit1: locking off, then seed the first range. */
    method Kinit1(frames: seq<uint32>) returns (ok: bool)
      requires FramesValid(State())
      modifies this
      ensures FramesValid(State())
      ensures !useLock
      ensures ok == AllFreeable(frames)
      ensures State() == FreeAll(old(State()).(useLock := false), frames)
    {
      useLock := false;
      ok := FreeRange(frames);
      FreeAllLock(old(State()).(useLock := false), frames);
    }

    /** kinit2: seed the rest of memory, then turn locking on. */
    method Kinit2(frames: seq<uint32>) returns (ok: bool)
      requires FramesValid(State())
      modifies this
      ensures FramesValid(State())
      ensures ok ==> useLock
      ensures ok == AllFreeable(frames)
      ensures State() == FreeAll(old(State()), frames).(useLock := ok || old(useLock))
    {
      ok := FreeRange(frames);
      FreeAllLock(old(State()), frames);
      if ok {
        useLock := true;
      }
    }
  }

  /** A series of kfree calls never touches `use_lock`. */
  lemma {:induction false} FreeAllLock(s: KmemState, vs: seq<uint32>)
    ensures FreeAll(s, vs).useLock == s.useLock
    decreases |vs|
  {
    if vs != [] && KfreeStep(s, vs[0]).Some? {
      FreeAllLock(KfreeStep(s, vs[0]).value, vs[1..]);
    }
  }

  /** The first panicking kfree ends the series: a bad frame at index i after a
      good prefix makes FreeAll of the whole series that of the prefix. */
  lemma {:induction false} FreeAllStops(s: KmemState, vs: seq<uint32>, i: nat)
    requires i < |vs| && AllFreeable(vs[..i]) && !Freeable(vs[i])
    ensures FreeAll(s, vs) == FreeAll(s, vs[..i])
    ensures !AllFreeable(vs)
    decreases i
  {
    if i == 0 {
      assert vs[..0] == [];
    } else {
      assert Freeable(vs[0]) by { assert vs[..i][0] == vs[0]; }
      assert vs[1..][..i - 1] == vs[..i][1..];
      var w := vs[1..][..i - 1];
      assert AllFreeable(w) by {
        forall k | 0 <= k < |w| ensures Freeable(w[k]) {
          assert w[k] == vs[..i][k + 1];
        }
      }
      FreeAllStops(KfreeStep(s, vs[0]).value, vs[1..], i - 1);
    }
  }
}
