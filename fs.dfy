/** The file-system calls exec.c makes (namei, readi, iunlockput, begin_op,
    end_op). Their implementation is not part of this model: each is an
    operation with a small contract that records only what exec depends on —
    which inode references are held, what was read, and whether every
    begin_op was matched by an end_op. */
module Fs {
  import opened Machine

  /** One `readi(ip, dst, off, n)` call. */
  datatype Read = Read(off: nat, n: nat)

  class FileSystem {
    /** The directory tree, flattened: file contents by path. */
    var files: map<seq<byte>, seq<byte>>
    /** Inode references taken by namei and not yet dropped by iunlockput. */
    var held: nat
    /** Number of iunlockput calls made so far. */
    var puts: nat
    /** begin_op calls not yet matched by end_op. */
    var ops: nat
    /** Every readi call, in order. */
    var readLog: seq<Read>

    method BeginOp()
      modifies this
      ensures ops == old(ops) + 1
      ensures files == old(files) && held == old(held) && puts == old(puts) && readLog == old(readLog)
    {
      ops := ops + 1;
    }

    method EndOp()
      requires ops > 0
      modifies this
      ensures ops == old(ops) - 1
      ensures files == old(files) && held == old(held) && puts == old(puts) && readLog == old(readLog)
    {
      ops := ops - 1;
    }

    /** namei(path): the inode of `path`, with a reference held, or 0. */
    method Namei(path: seq<byte>) returns (found: bool)
      modifies this
      ensures found == (path in files)
      ensures held == old(held) + (if found then 1 else 0)
      ensures files == old(files) && puts == old(puts) && ops == old(ops) && readLog == old(readLog)
    {
      found := path in files;
      if found {
        held := held + 1;
      }
    }

    /** readi(ip, dst, off, n) == n: succeeds only when the `n` bytes at `off`
        lie inside the file, and then returns exactly those bytes; it may fail
        for other reasons too. */
    method ReadI(path: seq<byte>, off: uint32, n: nat) returns (r: Option<seq<byte>>)
      requires path in files
      modifies this
      ensures files == old(files) && held == old(held) && puts == old(puts) && ops == old(ops)
      ensures readLog == old(readLog) + [Read(off, n)]
      ensures off + n > |files[path]| ==> r.None?
      ensures r.Some? ==> off + n <= |files[path]| && r.value == files[path][off..off + n]
    {
      readLog := readLog + [Read(off, n)];
      var fail: bool :| true;
      if off + n <= |files[path]| && !fail {
        r := Some(files[path][off..off + n]);
      } else {
        r := None;
      }
    }

    /** iunlockput(ip): unlock and drop the reference namei took. */
    method IUnlockPut(path: seq<byte>)
      requires held > 0
      modifies this
      ensures held == old(held) - 1 && puts == old(puts) + 1
      ensures files == old(files) && ops == old(ops) && readLog == old(readLog)
    {
      held := held - 1;
      puts := puts + 1;
    }
  }
}
