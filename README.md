# xv6 physical page allocator and ELF program loader

A Dafny model of three pieces of the xv6 kernel for x86, with proofs about them:

- **kalloc.c**: the physical page allocator (`kalloc.dfy`). `kmem` is a LIFO free list
  of 4096-byte frames.
  - `kfree` validates a frame, fills it with 1 (then writes its `struct run` link over
    the first word) and pushes it.
  - `kalloc` pops the head, or returns 0 when the list is empty.
  - `kinit1` and `kinit2` seed the list with a range of frames, with `use_lock` off and
    then on.

  Module `Kalloc` has two layers:
  - pure step functions (`KfreeStep`, `KallocStep`, `FreeAll`, `AllocN`) and the lemmas
    about them;
  - class `Kmem`, the global whose methods carry out those steps in place, each proved
    equal to its step function.
- **elf.h**: the ELF32 file header and program header (System V ABI / TIS ELF
  Specification 1.2, Book I, chapters 1 and 2) and their constants (`elf.dfy`).
  - Datatypes, little-endian encoders and decoders, and the round trips between them.
  - The field offsets and the sizes 52 and 32.
  - The magic number as bytes, and the flag bits.
- **exec.c**: `exec(path, argv)` (`exec.dfy`, `userstack.dfy`). The steps are:
  1. the ELF header check;
  2. the loop over the program headers, with its three segment checks and the running
     size `sz`;
  3. the stack page and the guard page at `PGROUNDUP(sz)`;
  4. the argument strings and the `ustack` words, in 32-bit pointer arithmetic;
  5. the program name after the last `/`;
  6. the commit to the process record;
  7. the single `bad:` rollback.

  The loops are `while` loops with invariants. `ustack` is an array written in place.
  The process record is a class `Proc` holding the `struct proc` fields that exec.c:133-140 writes: `name`, `pgdir`, `sz` and the trap frame's `eip` and `esp`.

The calls exec makes into the file system and the virtual-memory layer are collaborators
with small contracts. They are class `Fs.FileSystem` (`namei`, `readi`, `iunlockput`,
`begin_op`, `end_op`) and class `Uvm.Vm` (`setupkvm`, `allocuvm`, `loaduvm`,
`clearpteu`, `copyout`, `switchuvm`, `freevm`).
- A user address space is an abstract `Space`: its mapped size, the pages with the user
  bit cleared, and the bytes written into it.
- `readi`, `setupkvm`, `allocuvm` and `loaduvm` may fail for reasons the model leaves
  open (their failure is a nondeterministic choice).
- `copyout` fails exactly when a byte would land outside the accessible pages.

`Machine` holds what all of these share:
- the C integer widths;
- `uint` addition and subtraction modulo 2^32, `PGROUNDUP` and `& ~3`;
- little-endian byte order.

Headers that are not part of this model define some constants. They are left
unspecified, with only the relations the proofs need:
- `KERNBASE` is page-aligned and at least two pages away from both 0 and 2^32;
- `end` is above 0;
- `PHYSTOP` is any `uint`;
- `MAXARG` is between 1 and 4095.

Two things the model makes visible:
- **kfree's fill.** kfree does fill the whole page with 1. It then stores the old list
  head in the first four bytes, so a free frame holds 1 only in bytes 4..4095.
  `KfreeEffect` states this as the code does it.
- **An empty first LOAD segment fails.** allocuvm returns its new size, even when that
  size is 0. So a first loadable segment with `vaddr + memsz == 0` makes exec take the
  `bad:` path, as if allocuvm had failed. `Uvm.Vm.AllocUvm` keeps this case.

## Model

| member | source | states |
|---|---|---|
| Machine.Add32 | exec.c:76 | `a + b` on `uint` is the sum when it fits and the sum minus 2^32 when it wraps once |
| Machine.Add32Add32 | exec.c:69 | advancing `off` by 32 each turn gives `phoff + 32*i` modulo 2^32 |
| Machine.WrapTest | exec.c:76-77 | the test `vaddr + memsz < vaddr` holds exactly when the true sum reaches 2^32 |
| Machine.Sub32 | exec.c:114 | `a - b` on `uint` is the difference when it is not negative, plus 2^32 otherwise |
| Machine.PgRoundUp | exec.c:104 | PGROUNDUP always yields a page boundary, even when `a + PGSIZE - 1` wraps |
| Machine.PgRoundUpBounds | exec.c:104 | without wrap-around, PGROUNDUP returns the least page boundary at or above its argument |
| Machine.PgRoundUpBelowKernBase | exec.c:104-105 | a size below KERNBASE rounds up to a page boundary at most KERNBASE |
| Machine.AlignDown4 | exec.c:114 | `x & ~3` is 4-aligned, at most `x` and less than 4 below it |
| Machine.U32AtInjective | elf.h:3 | two 4-byte strings decode to the same word exactly when they are equal |
| Elf.EncodeElfHdr | elf.h:11-27 | struct elfhdr occupies exactly 52 bytes |
| Elf.EncodeProgHdr | elf.h:30-39 | struct proghdr occupies exactly 32 bytes |
| Elf.DecodeElfHdr | elf.h:11-27 | decoding 52 bytes yields a header with 12 identification bytes |
| Elf.DecodeProgHdr | elf.h:30-39 | the program header read field by field, each `uint` little-endian at offsets 0, 4, ..., 28 (its contract is ProgHdrDecodeEncode and ProgHdrEncodeDecode) |
| Elf.ElfHdrDecodeEncode | elf.h:11-27 | reading each field at its offset (magic 0, ident 4..15, entry 24, phoff 28, phnum 44, ...) recovers the header laid out in declaration order |
| Elf.ElfHdrEncodeDecode | elf.h:11-27 | every 52-byte string is the layout of the header decoded from it |
| Elf.ProgHdrDecodeEncode | elf.h:30-39 | the eight `uint` fields are read back from offsets 0, 4, ..., 28 |
| Elf.ProgHdrEncodeDecode | elf.h:30-39 | every 32-byte string is the layout of the program header decoded from it |
| Elf.MagicBytes | elf.h:3 | a header carries ELF_MAGIC exactly when the file starts with 7F 45 4C 46 |
| Elf.FlagsAreIndependentBits | elf.h:44-47 | EXEC, WRITE and READ are distinct single bits: every combination is encoded and decoded unchanged |
| Kalloc.V2P | kalloc.c:82 | V2P: a kernel address minus KERNBASE, modulo 2^32 |
| Kalloc.Freeable | kalloc.c:82-83 | the frames kfree accepts: page-aligned, at or above `end`, physically below PHYSTOP (KfreeRejects states it) |
| Kalloc.KfreeStep | kalloc.c:82-98 | one kfree: None on the panic; otherwise push the frame, whose page now holds 1s after the old head in its first word (KfreeEffect states it) |
| Kalloc.KallocStep | kalloc.c:116-123 | one kalloc: the head and the tail, or 0 and no change (KallocEffect states it) |
| Kalloc.FreeAll | kalloc.c:12 | freerange's series of kfree calls, stopping at the first panic (FreeAllPushes, FreeAllStops) |
| Kalloc.AllocN | kalloc.c:111-124 | n kalloc calls in a row (AllocNPops states them) |
| Kalloc.FramesValid | kalloc.c:82-83 | the free-list invariant: every listed frame passed kfree's test and holds a whole page (KfreePreservesValid, KallocPreservesValid and FreeAllPreservesValid keep it) |
| Kalloc.FreeableIsNotNull | kalloc.c:82-83 | a frame kfree accepts is never the null pointer kalloc uses for "no memory" |
| Kalloc.FreedPage | kalloc.c:87-97 | a freed frame's contents are a whole page |
| Kalloc.KfreeRejects | kalloc.c:82-83 | kfree panics exactly when the frame is misaligned, below `end`, or at or above PHYSTOP physically |
| Kalloc.KfreeEffect | kalloc.c:87-98 | kfree pushes the frame on the head over the old list, count + 1; bytes 4..4095 are 1 and bytes 0..3 hold the old head; no other frame changes; use_lock is untouched |
| Kalloc.KallocEffect | kalloc.c:118-123 | kalloc on a non-empty list returns the old head and leaves exactly the old tail; on an empty list it returns 0 and changes nothing |
| Kalloc.FreeThenAlloc | kalloc.c:97-98 | LIFO: kalloc right after kfree(v) returns v and restores the previous list |
| Kalloc.KfreePreservesValid | kalloc.c:82-98 | kfree keeps the invariant that every listed frame is one kfree accepts, with a whole page of contents |
| Kalloc.KallocPreservesValid | kalloc.c:116-123 | kalloc keeps the invariant, returns 0 only on an empty list, and otherwise a frame kfree accepts |
| Kalloc.KfreeKeepsDistinct | kalloc.c:94-98 | freeing a frame that is not already free keeps the list free of duplicates |
| Kalloc.KallocRemovesFrame | kalloc.c:118-120 | the frame kalloc hands out is no longer on the list, which stays free of duplicates |
| Kalloc.Linked | kalloc.c:16-18 | the `struct run` chain: the `next` word of every listed frame, written at kalloc.c:97 and read at kalloc.c:120, is the following entry, 0 after the last (KfreeKeepsLinked, KallocFollowsLink and FreeAllLinked) |
| Kalloc.KfreeKeepsLinked | kalloc.c:94-98 | freeing a frame that is not already free keeps each listed frame's `next` word equal to the following entry, 0 after the last |
| Kalloc.KallocFollowsLink | kalloc.c:118-120 | on a linked list, the head kalloc leaves is the `next` word of the frame it returns, as `kmem.freelist = r->next` reads it, and the rest stays linked |
| Kalloc.DoubleFreeCycles | kalloc.c:94-98 | freeing a frame twice stores its own address in its `next` word; on an empty allocator the model's third kalloc then returns 0 (see Left out) |
| Kalloc.FreeAllLinked | kalloc.c:12 | a series of kfree calls of distinct frames not already free keeps the list linked |
| Kalloc.FreeAllPushes | kalloc.c:12 | freeing a range of good frames pushes them in order (the last one freed on top) and leaves use_lock alone |
| Kalloc.FreeAllPreservesValid | kalloc.c:12 | a series of kfree calls keeps the invariant |
| Kalloc.FreeAllSnoc | kalloc.c:12 | one more kfree after a good series steps the series' final state |
| Kalloc.FreeAllStops | kalloc.c:82-83 | the first rejected frame ends the series: later frames are not freed |
| Kalloc.FreeAllLock | kalloc.c:89-100 | kfree never changes use_lock |
| Kalloc.AllocNPops | kalloc.c:118-120 | n kalloc calls on a list of at least n frames return its first n entries, in order, and leave the rest |
| Kalloc.Exhaustion | kalloc.c:103-124 | after freeing N distinct good frames into an empty allocator, the list is linked through the frames, N kalloc calls return them in reverse order, none 0, and the next kalloc returns 0 |
| Kalloc.ReversedFreeable | kalloc.c:118-120 | the frames popped after a series of frees are all frames kfree accepts |
| Kalloc.Kmem.constructor | kalloc.c:24-28 | the zero-initialised `kmem`: locking off, empty list |
| Kalloc.Kmem.Kfree | kalloc.c:77-101 | kfree in place: it fails exactly on the panic condition, leaving the state as it was; on success the new state is KfreeStep's; it keeps the invariant, and the links when the frame was not already free |
| Kalloc.Kmem.Kalloc | kalloc.c:111-124 | kalloc in place: the result and new state are KallocStep's; 0 exactly on an empty list; it keeps the invariant; on a linked list the new head is the returned frame's `next` word |
| Kalloc.Kmem.FreeRange | kalloc.c:12 | freerange as kfree of each frame in order: the state is FreeAll's, and it succeeds exactly when every frame is good |
| Kalloc.Kmem.Kinit1 | kalloc.c:43-50 | kinit1 turns use_lock off, then seeds the range |
| Kalloc.Kmem.Kinit2 | kalloc.c:56-61 | kinit2 seeds the range, then turns use_lock on |
| Fs.FileSystem.BeginOp | exec.c:44 | begin_op opens one log operation |
| Fs.FileSystem.EndOp | exec.c:47 | end_op closes one log operation |
| Fs.FileSystem.Namei | exec.c:46 | namei finds exactly the existing paths, taking one inode reference |
| Fs.FileSystem.ReadI | exec.c:58 | readi is logged, fails when the bytes are not all in the file, and when it succeeds returns exactly those bytes |
| Fs.FileSystem.IUnlockPut | exec.c:89 | iunlockput drops one inode reference |
| Uvm.StoreHolds | exec.c:115 | after copyout the space holds the copied bytes |
| Uvm.StoreKeeps | exec.c:126 | a copy leaves every byte string outside its range where it was |
| Uvm.StoreAbove | exec.c:115 | a copy at or above an address leaves every byte below it as it was |
| Uvm.BelowAll | exec.c:104 | a memory whose bytes all lie below an address is its own part below that address |
| Uvm.OthersRemove | exec.c:159-160 | freeing the new page directory on `bad:` undoes whatever was done to it |
| Uvm.OthersTrans | exec.c:69-87 | two calls that each touch only the new page directory together touch only it |
| Uvm.Vm.SetupKvm | exec.c:63 | setupkvm returns 0 and changes nothing, or a fresh handle to an empty space |
| Uvm.Vm.AllocUvm | exec.c:80 | allocuvm returns 0 and changes nothing, or max(oldsz, newsz), with newsz below KERNBASE, as the new mapped size |
| Uvm.Vm.LoadUvm | exec.c:85 | loaduvm fails if the file is too short; on success it stores the file bytes at `vaddr` and changes no mapping |
| Uvm.Vm.ClearPteu | exec.c:107 | clearpteu marks the page at `va` user-inaccessible |
| Uvm.Vm.CopyOut | exec.c:115 | copyout succeeds exactly when every byte lands in mapped, user-accessible memory, and then stores them |
| Uvm.Vm.SwitchUvm | exec.c:142 | switchuvm installs the page directory |
| Uvm.Vm.FreeVm | exec.c:144 | freevm removes the page directory |
| UserStack.StringsSp | exec.c:111-118 | sp after the argument loop: each string pushed at `(sp - (len+1)) & ~3` from the previous sp, starting at the stack top (ArgPtrsPrefix, ArgPtrsStep state it) |
| UserStack.ArgvAddr | exec.c:123 | `ustack[2]`: sp after the strings minus (argc+1)*4, modulo 2^32 (UstackLayout states it is final esp + 12) |
| UserStack.InitialSp | exec.c:125 | the final sp: sp after the strings minus (3+argc+1)*4, modulo 2^32 (UstackLayout) |
| UserStack.PushSp | exec.c:114 | each string's address is 4-aligned |
| UserStack.ArgPtrs | exec.c:117 | one recorded pointer per argument |
| UserStack.Ustack | exec.c:119-123 | `ustack` is 3 + argc + 1 words |
| UserStack.Words | exec.c:126 | the copied `ustack` is 4 bytes per word |
| UserStack.ArgPtrsSnoc | exec.c:114-117 | pushing argument k computes its address from the stack pointer the first k left, and appends it |
| UserStack.ArgPtrsPrefix | exec.c:111-118 | the pointers of the first j arguments are the first j pointers, and the stack pointer after them is pointer j-1 (the top for j = 0) |
| UserStack.ArgPtrsStep | exec.c:114-117 | argument k is at `(prev - (len+1)) & ~3`, with prev the previous argument's address or the stack top |
| UserStack.ArgPtrsAligned | exec.c:114 | every recorded argument pointer is 4-aligned |
| UserStack.PushBelow | exec.c:114 | when it does not wrap, a pushed string ends at or below the old sp and starts less than 4 bytes further down |
| UserStack.PushStaysInPage | exec.c:104-116 | the guard page at work: a write that copyout admits lies wholly in the stack page, below the old sp |
| UserStack.Fits | exec.c:104-108 | a block can be written in the new space: it ends by the top and misses the guard page `clearpteu` made inaccessible (AccessibleFits ties it to copyout's test) |
| UserStack.StringsFit | exec.c:111-118 | every argument string and its NUL fits where the loop puts it (StringsFitSnoc, StringsStuck; PushStrings succeeds exactly then) |
| UserStack.ArgsFit | exec.c:111-127 | every copyout of the argument phase succeeds: the strings, and the 3+argc+1 `ustack` words at the initial sp (PushArgs succeeds exactly then) |
| UserStack.StringsFitSnoc | exec.c:114-116 | when the strings so far fit and the next one fits at its address below them, they all fit |
| UserStack.StringsStuck | exec.c:114-116 | when argument k does not fit below the ones before it, the arguments do not all fit |
| UserStack.UstackLayout | exec.c:119-125 | `ustack[0]` is 0xffffffff, `[1]` is argc, `[2]` is final esp + 12, `[3..3+argc]` are the argument pointers and `[3+argc]` is 0 |
| UserStack.WordsAt | exec.c:126 | word k of the copied `ustack` is read back at byte offset 4k |
| Exec.HeaderOk | exec.c:58-61 | the header check passes: the file holds a whole 52-byte header whose magic is ELF_MAGIC (ReadHeader states it) |
| Exec.PhOff | exec.c:69-70 | the loop's `off` at turn i: `phoff + 32*i` as a `uint` (LoadSegments' invariant ties the read offset to it, TableStep reads there) |
| Exec.Table | exec.c:69-71 | the decoded table has one entry per program header read |
| Exec.PhReads | exec.c:69-70 | one `readi` per program header |
| Exec.SegmentsTopIsMax | exec.c:68-87 | the size after the loop bounds the end of every loadable segment, and is 0 or the end of one of them |
| Exec.NonLoadIgnored | exec.c:72-73 | segments that are not loadable do not change the size |
| Exec.TableSnoc | exec.c:72-80 | one more header raises the size to its end only if it is loadable, and the table stays loadable exactly when the new header passes the checks |
| Exec.TableStep | exec.c:69-70 | reading header i extends the decoded table by the header at offset `phoff + 32*i` |
| Exec.SegmentOk | exec.c:72-83 | a header passes the loop's checks: not loadable, or filesz <= memsz, vaddr + memsz without wrap-around, and a page-aligned vaddr (LoadSegment and TableSnoc state it) |
| Exec.SegmentsTop | exec.c:68-87 | the size the loop leaves: the highest `vaddr + memsz` of the loadable segments, 0 if none (SegmentsTopIsMax states it) |
| Exec.LoadedMem | exec.c:85 | the memory after loaduvm has copied each loadable segment's file bytes `[off, off+filesz)` to its `vaddr`, in table order |
| Exec.LoadedSnoc | exec.c:72-86 | one more header adds its file image at its vaddr if it is loadable and leaves the memory alone otherwise; its image is in the file exactly when it is not loadable or `off + filesz` is within the file |
| Exec.LoadedKeys | exec.c:68-87 | loading writes nothing at or above the highest segment end |
| Exec.LoadedHolds | exec.c:85 | the file image of a loadable segment is at its vaddr in the loaded memory unless a later loadable segment's image overlaps it |
| Exec.SegmentsImage | exec.c:68-87 | the program as loaded: the file image of every loadable segment at its vaddr and nothing else |
| Exec.SegmentsImageBelow | exec.c:104-108 | the loaded segments all lie below the guard page at `PGROUNDUP(sz)` |
| Exec.ImageSize | exec.c:104-105 | the final `sz`: the segment size rounded up to a page, plus the guard page and the stack page (BuildStack and Exec state it) |
| Exec.NameStart | exec.c:130-132 | the name starts within the path |
| Exec.NameIsAfterLastSlash | exec.c:130-133 | the name holds no '/', is the whole path or follows a '/', and no other index has both properties |
| Exec.ProgramName | exec.c:130-132 | the name loop finds where the suffix after the last '/' starts |
| Exec.StringAtPrefix | exec.c:111-118 | pushing later arguments leaves where the earlier ones were placed |
| Exec.StringAtLast | exec.c:114-117 | the last argument's placement is the last step of the string layout |
| Exec.StringsAtMeans | exec.c:111-118 | the strings are laid out exactly when each argument k is at its pointer, NUL-terminated, inside the stack page, and ends at or below argument k-1 |
| Exec.StringsAbove | exec.c:111-118 | every argument's address is at or above the stack pointer the loop leaves, and its NUL is below the stack top |
| Exec.StringsAtKeep | exec.c:125-127 | copying `ustack` below the strings keeps them all |
| Exec.PushKeeps | exec.c:114-116 | copying one more string below the others keeps them and places it |
| Exec.PushedStep | exec.c:114-117 | copying a string at its computed address places it below the others, appends its pointer and leaves everything below the guard page alone |
| Exec.AccessibleFits | exec.c:107-116 | in a space whose only inaccessible page is the guard page, copyout's test admits a block exactly when it fits |
| Exec.PushString | exec.c:114-117 | one turn of the argument loop: the string goes to `(sp - (len+1)) & ~3`, and the copy succeeds exactly when it fits there; on success the string is in place, below the previous one, and its pointer is appended; no mapping changes; nothing below the guard page changes |
| Exec.PushArgs | exec.c:110-127 | succeeds exactly when there are at most MAXARG arguments and they and `ustack` fit (ArgsFit); on success sp is the initial sp, the strings and `ustack` are on the stack page; no mapping changes and nothing below the guard page changes |
| Exec.PushStrings | exec.c:111-118 | succeeds exactly when there are at most MAXARG arguments and every string fits (StringsFit); on success every string is on the stack page and `ustack[3..3+argc]` holds their addresses; nothing below the guard page changes |
| Exec.PushArg | exec.c:114-117 | argument k is pushed below the first k and its address stored in `ustack[3+k]`; failure means the arguments do not all fit; nothing below the guard page changes |
| Exec.PushUstack | exec.c:119-127 | esp becomes the initial sp and the copy succeeds exactly when the 3+argc+1 words fit there; on success the completed `ustack` is copied right below the strings, which stay in place; nothing below the guard page changes |
| Exec.FillUstack | exec.c:119-123 | after the recorded pointers, `ustack` gets the terminating 0, the fake return PC, argc and the argv address: its first 3+argc+1 words are the layout UstackLayout describes |
| Exec.CopyUstack | exec.c:125-127 | esp is sp - (3+argc+1)*4 and the copy succeeds exactly when the words fit there; on success the `ustack` words are at esp, right below the strings, which stay in place; nothing below the guard page changes |
| Exec.LoadSegment | exec.c:72-86 | a non-LOAD header always succeeds and is skipped without changing `sz` or memory; a LOAD header that fails a check fails; otherwise `sz` becomes max(sz, vaddr + memsz), below KERNBASE, `off + filesz` is within the file, and the file bytes `[off, off+filesz)` are stored at `vaddr` |
| Exec.NextSegment | exec.c:69-86 | one turn of the segment loop reads header i at the loop's `off`, which is `phoff + 32*i`, and extends the scanned table by it, and the memory is the loaded memory of the longer table |
| Exec.LoadSegments | exec.c:68-87 | on success every header was read at `phoff + 32*i`, every loadable segment passed the checks, `sz` is the highest segment end, and the new space holds exactly the file image of every loadable segment at its vaddr |
| Exec.ReadHeader | exec.c:58-61 | one read of 52 bytes at 0; a short read or a wrong magic fails, otherwise the decoded header |
| Exec.AllocStack | exec.c:104-108 | two pages at PGROUNDUP(sz), the lower one made inaccessible |
| Exec.BuildStack | exec.c:104-127 | the stack, the guard page and the arguments: more than MAXARG arguments fail; on success the size is PGROUNDUP(sz) + 2*PGSIZE, the initial stack is built, and nothing below PGROUNDUP(sz) changes |
| Exec.BuildImage | exec.c:63-127 | the fresh page directory is 0 with nothing changed, or the only directory touched; the inode is released once the segments are loaded; on success the checked segments, the size, the stack, and below the guard page exactly the loaded segments |
| Exec.LoadImage | exec.c:68-127 | in the fresh space only: the inode is released once the segments are loaded; more than MAXARG arguments fail; on success the checked segments, the size PGROUNDUP(top) + 2*PGSIZE, the stack, and below the guard page exactly the loaded segments |
| Exec.StackImageAbove | exec.c:89-127 | after the segments: the inode and the log operation are released; more than MAXARG arguments fail; on success the size is PGROUNDUP(top) + 2*PGSIZE, the stack is built, and below the guard page the memory is still exactly the loaded segments |
| Exec.Bad | exec.c:158-165 | `bad:` frees the new page directory if there is one and releases the inode if it is still held |
| Exec.Commit | exec.c:133-144 | the fields of class `Proc` that exec writes: the process gets the name, new directory, size, entry point (`tf->eip`) and stack pointer (`tf->esp`); the old directory is freed |
| Exec.ExecInode | exec.c:51-165 | with the inode held: the inode and log operation are released on every path; failure changes nothing in the process or the address spaces; on success the committed image, whose memory below the guard page is exactly the loaded segments |
| Exec.Exec | exec.c:32-165 | exec: log operations and inode references balance; failure changes nothing the process or the address spaces show; a bad header fails before any page directory is made; more than MAXARG arguments fail; on success every header was read and checked, the process holds the new directory, size `PGROUNDUP(top) + 2*PGSIZE`, entry point, initial stack and the name after the last '/', its memory below the guard page is exactly the file image of every loadable segment at its vaddr, and the old directory is freed |

## Left out

- Spin locks, `acquire` and `release`: only the `use_lock` flag is modelled, because the model is sequential.
- The body of freerange, which is only declared in kalloc.c. `Kmem.FreeRange` takes the list of frames it frees, in the order it frees them.
- Kalloc.Kmem.Kalloc: the next list head is taken from the abstract list rather than read back from the link word of the frame. On a list built by kfree of frames that were not already free, the two agree (Linked, KallocFollowsLink). A double kfree makes the C list a cycle through the frame, which kalloc then hands out again and again; the model's list stays finite and its third kalloc after two kfree calls of one frame into an empty allocator returns 0 (DoubleFreeCycles).
- Kalloc.Exhaustion: stated for distinct frames only, because a frame freed twice makes the C list cyclic (above).
- Uvm.Vm.CopyOut: xv6's copyout copies page by page and can fail after writing part of the bytes; the model's copyout writes all or nothing. exec frees the whole space on that failure, so the difference cannot be seen after exec returns.
- The page-table mechanics inside setupkvm, allocuvm, loaduvm, clearpteu, copyout, switchuvm and freevm; each is a method with the small contract exec relies on.
- The file system internals behind namei, ilock, readi, iunlockput, begin_op and end_op. ilock is not modelled (locks); readi may fail nondeterministically.
- Uvm.Vm.LoadUvm: its own `readi` calls do not appear in the file system's read log, and the zero fill between `filesz` and `memsz` is not modelled.
- The memory contents of pages that allocuvm maps without writing; a space records only the bytes written into it.
- Exec.Commit: safestrcpy's truncation to `sizeof(curproc->name)`; the name is the whole suffix after the last '/'.
- Exec.ExecInode: its success clause `proc.name == path[NameStart(path)..]` inherits the missing truncation from Exec.Commit.
- Exec.Exec: its success clause `proc.name == path[NameStart(path)..]` inherits the missing truncation from Exec.Commit.
- cprintf on the failure path (console output).
- The values of KERNBASE, PHYSTOP, `end` and MAXARG, which come from headers outside this model. They are unspecified constants with the relations listed above.
- The trap frame beyond `eip` and `esp`, and `myproc()`: the process is passed in.
