/** The page-table calls exec.c makes (setupkvm, allocuvm, loaduvm,
    clearpteu, copyout, switchuvm, freevm). Their implementation is not part
    of this model: a page directory is a handle to an abstract user address
    space, and each call has the small contract exec relies on. */
module Uvm {
  import opened Machine

  /** A user address space: the mapped size (every address below `top` is
      mapped), the pages whose user bit clearpteu cleared, and the bytes
      written into it. */
  datatype Space = Space(top: nat, noUser: set<nat>, mem: map<nat, byte>)

  /** `n` bytes at `va` can be written from the kernel: all below the mapped
      size and none inside a page without the user bit. */
  predicate Accessible(s: Space, va: nat, n: nat)
  {
    va + n <= s.top && forall g | g in s.noUser :: va + n <= g || g + PGSIZE <= va
  }

  /** The addresses va .. va+n-1. */
  function Range(va: nat, n: nat): (r: set<nat>)
    ensures forall a :: a in r <==> va <= a < va + n
  {
    if n == 0 then {} else Range(va, n - 1) + {va + n - 1}
  }

  /** `mem` after writing `bytes` at `va`. */
  function Store(mem: map<nat, byte>, va: nat, bytes: seq<byte>): map<nat, byte>
  {
    map a | a in mem.Keys + Range(va, |bytes|) ::
      if va <= a < va + |bytes| then bytes[a - va] else mem[a]
  }

  /** `mem` holds `bytes` at `va`. */
  predicate Holds(mem: map<nat, byte>, va: nat, bytes: seq<byte>)
  {
    forall a | va <= a < va + |bytes| :: a in mem && mem[a] == bytes[a - va]
  }

  lemma StoreHolds(mem: map<nat, byte>, va: nat, bytes: seq<byte>)
    ensures Holds(Store(mem, va, bytes), va, bytes)
  {
    var m := Store(mem, va, bytes);
    forall a | va <= a < va + |bytes| ensures a in m && m[a] == bytes[a - va] {
    }
  }

  /** A write leaves every byte string outside its range where it was. */
  lemma StoreKeeps(mem: map<nat, byte>, va: nat, bytes: seq<byte>, va2: nat, b2: seq<byte>)
    requires Holds(mem, va2, b2)
    requires va2 + |b2| <= va || va + |bytes| <= va2
    ensures Holds(Store(mem, va, bytes), va2, b2)
  {
    var m := Store(mem, va, bytes);
    forall a | va2 <= a < va2 + |b2| ensures a in m && m[a] == b2[a - va2] {
      assert a in mem && mem[a] == b2[a - va2];
    }
  }

  /** The bytes of `mem` below address `lo`. */
  function Below(mem: map<nat, byte>, lo: int): map<nat, byte>
  {
    map a | a in mem && a < lo :: mem[a]
  }

  /** A write at or above `lo` leaves every byte below `lo` as it was. */
  lemma StoreAbove(mem: map<nat, byte>, va: nat, bytes: seq<byte>, lo: int)
    requires lo <= va
    ensures Below(Store(mem, va, bytes), lo) == Below(mem, lo)
  {
    var m := Store(mem, va, bytes);
    assert Below(m, lo).Keys == Below(mem, lo).Keys;
  }

  /** Nothing is cut from a memory that lies wholly below `lo`. */
  lemma BelowAll(mem: map<nat, byte>, lo: int)
    requires forall a | a in mem :: a < lo
    ensures Below(mem, lo) == mem
  {
  }

  /** The same page directories exist, and all but `h` are untouched. */
  predicate Others(before: map<nat, Space>, after: map<nat, Space>, h: nat)
  {
    h in before && h in after && after == before[h := after[h]]
  }

  /** Besides, `h` keeps its mapping and its user bits; only the bytes of `h`
      may differ. */
  predicate SameMapping(before: map<nat, Space>, after: map<nat, Space>, h: nat)
  {
    Others(before, after, h)
    && (h in before ==> after[h].top == before[h].top && after[h].noUser == before[h].noUser)
  }

  /** Removing `h` forgets whatever was done to it. */
  lemma OthersRemove(before: map<nat, Space>, after: map<nat, Space>, h: nat)
    requires Others(before, after, h)
    ensures after - {h} == before - {h}
  {
  }

  /** Two calls that each touch only `h` together touch only `h`. */
  lemma OthersTrans(a: map<nat, Space>, b: map<nat, Space>, c: map<nat, Space>, h: nat)
    requires Others(a, b, h) && Others(b, c, h)
    ensures Others(a, c, h)
  {
    assert a[h := b[h]][h := c[h]] == a[h := c[h]];
  }

  function Max(a: int, b: int): int
  {
    if a < b then b else a
  }

  class Vm {
    /** Live page directories by handle; 0 is the null page directory. */
    var spaces: map<nat, Space>
    /** The handle the next successful setupkvm returns. */
    var next: nat
    /** The page directory installed by the last switchuvm. */
    var active: nat

    ghost predicate Valid()
      reads this
    {
      0 < next && forall h | h in spaces :: 0 < h < next
    }

    /** setupkvm(): a fresh page directory with no user mappings, or 0 when
        memory runs out. */
    method SetupKvm() returns (pgdir: nat)
      requires Valid()
      modifies this
      ensures Valid()
      ensures active == old(active)
      ensures pgdir == 0 ==> spaces == old(spaces) && next == old(next)
      ensures pgdir != 0 ==> (pgdir == old(next) && next == old(next) + 1
                              && spaces == old(spaces)[pgdir := Space(0, {}, map[])])
    {
      var fail: bool :| true;
      if fail {
        pgdir := 0;
      } else {
        pgdir := next;
        spaces := spaces[pgdir := Space(0, {}, map[])];
        next := next + 1;
      }
    }

    /** allocuvm(pgdir, oldsz, newsz): grows the space to `newsz` and returns
        the new size (the old one when `newsz` is smaller), or 0 when `newsz`
        reaches KERNBASE or memory runs out, in which case nothing stays
        mapped. */
    method AllocUvm(pgdir: nat, oldsz: uint32, newsz: uint32) returns (sz: uint32)
      requires pgdir in spaces
      modifies this
      ensures next == old(next) && active == old(active)
      ensures sz == 0 ==> spaces == old(spaces)
      ensures sz != 0 ==> (sz == Max(oldsz, newsz) && newsz < KERNBASE
                           && spaces == old(spaces)[pgdir := old(spaces[pgdir]).(top := sz)])
    {
      var fail: bool :| true;
      if fail || newsz >= KERNBASE || Max(oldsz, newsz) == 0 {
        sz := 0;
      } else {
        sz := Max(oldsz, newsz);
        spaces := spaces[pgdir := spaces[pgdir].(top := sz)];
      }
    }

    /** loaduvm(pgdir, va, ip, off, n): copies `n` file bytes at `off` to `va`.
        Its callers must pass a page-aligned, already mapped destination. It
        fails when the file is too short, and may fail otherwise. */
    method LoadUvm(pgdir: nat, va: uint32, file: seq<byte>, off: uint32, n: uint32) returns (r: int)
      requires pgdir in spaces
      requires va % PGSIZE == 0 && va + n <= spaces[pgdir].top
      modifies this
      ensures next == old(next) && active == old(active)
      ensures r == 0 || r == -1
      ensures SameMapping(old(spaces), spaces, pgdir)
      ensures off + n > |file| ==> r == -1
      ensures r == 0 ==> (off + n <= |file|
                          && spaces[pgdir].mem == Store(old(spaces[pgdir].mem), va, file[off..off + n]))
    {
      var fail: bool :| true;
      if off + n <= |file| && !fail {
        spaces := spaces[pgdir := spaces[pgdir].(mem := Store(spaces[pgdir].mem, va, file[off..off + n]))];
        r := 0;
      } else {
        r := -1;
      }
    }

    /** clearpteu(pgdir, va): clears the user bit of the mapped page at `va`. */
    method ClearPteu(pgdir: nat, va: uint32)
      requires pgdir in spaces && va + PGSIZE <= spaces[pgdir].top
      modifies this
      ensures next == old(next) && active == old(active)
      ensures spaces == old(spaces)[pgdir := old(spaces[pgdir]).(noUser := old(spaces[pgdir].noUser) + {va})]
    {
      spaces := spaces[pgdir := spaces[pgdir].(noUser := spaces[pgdir].noUser + {va})];
    }

    /** copyout(pgdir, va, bytes, n): writes into the space, and fails (with
        no write) exactly when some byte would land outside the mapped,
        user-accessible pages. */
    method CopyOut(pgdir: nat, va: uint32, bytes: seq<byte>) returns (r: int)
      requires pgdir in spaces
      modifies this
      ensures next == old(next) && active == old(active)
      ensures r == 0 || r == -1
      ensures r == 0 <==> Accessible(old(spaces[pgdir]), va, |bytes|)
      ensures r == 0 ==> spaces == old(spaces)[pgdir := old(spaces[pgdir]).(mem := Store(old(spaces[pgdir].mem), va, bytes))]
      ensures r == -1 ==> spaces == old(spaces)
    {
      if Accessible(spaces[pgdir], va, |bytes|) {
        spaces := spaces[pgdir := spaces[pgdir].(mem := Store(spaces[pgdir].mem, va, bytes))];
        r := 0;
      } else {
        r := -1;
      }
    }

    /** switchuvm: installs the page directory on this processor. */
    method SwitchUvm(pgdir: nat)
      requires pgdir in spaces
      modifies this
      ensures active == pgdir && spaces == old(spaces) && next == old(next)
    {
      active := pgdir;
    }

    /** freevm(pgdir): tears the address space down. */
    method FreeVm(pgdir: nat)
      requires pgdir in spaces
      modifies this
      ensures spaces == old(spaces) - {pgdir}
      ensures next == old(next) && active == old(active)
    {
      spaces := spaces - {pgdir};
    }
  }
}
