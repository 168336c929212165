/** The ELF32 file header and program header (System V ABI / TIS ELF
    Specification 1.2, Book I, chapter 1 "ELF Header" and chapter 2 "Program
    Header"), as declared in elf.h, with their little-endian layout on x86. */
module Elf {
  import opened Machine

  /** "\x7FELF" read as a little-endian `uint`. */
  const ELF_MAGIC: uint32 := 0x464C_457F

  /** Program header type of a loadable segment. */
  const ELF_PROG_LOAD: uint32 := 1

  /** Program header permission bits. */
  const ELF_PROG_FLAG_EXEC: uint32 := 1
  const ELF_PROG_FLAG_WRITE: uint32 := 2
  const ELF_PROG_FLAG_READ: uint32 := 4

  const ELFHDR_SIZE: nat := 52
  const PROGHDR_SIZE: nat := 32

  /** struct elfhdr. `etype` is the C field `type`; `ident` is `elf[12]`. */
  datatype ElfHdr = ElfHdr(
    magic: uint32,
    ident: seq<byte>,
    etype: uint16,
    machine: uint16,
    version: uint32,
    entry: uint32,
    phoff: uint32,
    shoff: uint32,
    flags: uint32,
    ehsize: uint16,
    phentsize: uint16,
    phnum: uint16,
    shentsize: uint16,
    shnum: uint16,
    shstrndx: uint16)
  {
    ghost predicate Valid() { |ident| == 12 }
  }

  /** struct proghdr. `ptype` is the C field `type`. */
  datatype ProgHdr = ProgHdr(
    ptype: uint32,
    off: uint32,
    vaddr: uint32,
    paddr: uint32,
    filesz: uint32,
    memsz: uint32,
    flags: uint32,
    align: uint32)

  // ---------------------------------------------------------------
  // Encoding: the fields one after another, in declaration order. On i386
  // every field of both structs falls on a multiple of its own size, so the
  // compiler inserts no padding and the struct is exactly this byte string.

  function EncodeElfHdr(h: ElfHdr): (b: seq<byte>)
    requires h.Valid()
    ensures |b| == ELFHDR_SIZE
  {
    Le32(h.magic) + h.ident + Le16(h.etype) + Le16(h.machine) + Le32(h.version)
    + Le32(h.entry) + Le32(h.phoff) + Le32(h.shoff) + Le32(h.flags)
    + Le16(h.ehsize) + Le16(h.phentsize) + Le16(h.phnum)
    + Le16(h.shentsize) + Le16(h.shnum) + Le16(h.shstrndx)
  }

  function EncodeProgHdr(p: ProgHdr): (b: seq<byte>)
    ensures |b| == PROGHDR_SIZE
  {
    Le32(p.ptype) + Le32(p.off) + Le32(p.vaddr) + Le32(p.paddr)
    + Le32(p.filesz) + Le32(p.memsz) + Le32(p.flags) + Le32(p.align)
  }

  // ---------------------------------------------------------------
  // Decoding: each field read at its byte offset. These are the functions the
  // loader uses on the bytes `readi` returns.

  function DecodeElfHdr(b: seq<byte>): (h: ElfHdr)
    requires |b| == ELFHDR_SIZE
    ensures h.Valid()
  {
    ElfHdr(U32At(b, 0), b[4..16], U16At(b, 16), U16At(b, 18), U32At(b, 20),
           U32At(b, 24), U32At(b, 28), U32At(b, 32), U32At(b, 36),
           U16At(b, 40), U16At(b, 42), U16At(b, 44),
           U16At(b, 46), U16At(b, 48), U16At(b, 50))
  }

  function DecodeProgHdr(b: seq<byte>): (ph: ProgHdr)
    requires |b| == PROGHDR_SIZE
  {
    ProgHdr(U32At(b, 0), U32At(b, 4), U32At(b, 8), U32At(b, 12),
            U32At(b, 16), U32At(b, 20), U32At(b, 24), U32At(b, 28))
  }

  // ---------------------------------------------------------------
  // Layout lemmas

  /** The declaration-order struct and the offset-based reader agree: magic at
      0, the identification bytes at 4..15, entry at 24, phoff at 28, phnum at
      44, and so on for every field (52 bytes in all). */
  lemma ElfHdrDecodeEncode(h: ElfHdr)
    requires h.Valid()
    ensures DecodeElfHdr(EncodeElfHdr(h)) == h
  {
    var b := EncodeElfHdr(h);
    Le32Decode(h.magic); Le32Decode(h.version); Le32Decode(h.entry);
    Le32Decode(h.phoff); Le32Decode(h.shoff); Le32Decode(h.flags);
    Le16Decode(h.etype); Le16Decode(h.machine); Le16Decode(h.ehsize);
    Le16Decode(h.phentsize); Le16Decode(h.phnum); Le16Decode(h.shentsize);
    Le16Decode(h.shnum); Le16Decode(h.shstrndx);
    assert b[0..4] == Le32(h.magic);
    assert b[4..16] == h.ident;
    assert b[16..18] == Le16(h.etype);
    assert b[18..20] == Le16(h.machine);
    assert b[20..24] == Le32(h.version);
    assert b[24..28] == Le32(h.entry);
    assert b[28..32] == Le32(h.phoff);
    assert b[32..36] == Le32(h.shoff);
    assert b[36..40] == Le32(h.flags);
    assert b[40..42] == Le16(h.ehsize);
    assert b[42..44] == Le16(h.phentsize);
    assert b[44..46] == Le16(h.phnum);
    assert b[46..48] == Le16(h.shentsize);
    assert b[48..50] == Le16(h.shnum);
    assert b[50..52] == Le16(h.shstrndx);
  }

  /** Every 52-byte string is the image of exactly the header it decodes to. */
  lemma ElfHdrEncodeDecode(b: seq<byte>)
    requires |b| == ELFHDR_SIZE
    ensures EncodeElfHdr(DecodeElfHdr(b)) == b
  {
    var h := DecodeElfHdr(b);
    // the encoding, built field by field, is b read prefix by prefix
    U32Encode(b, 0);
    var e := Le32(h.magic);
    assert e == b[0..4];
    assert h.ident == b[4..16];
    e := e + h.ident;
    assert e == b[0..16];
    U16Encode(b, 16);
    assert Le16(h.etype) == b[16..18];
    e := e + Le16(h.etype);
    assert e == b[0..18];
    U16Encode(b, 18);
    assert Le16(h.machine) == b[18..20];
    e := e + Le16(h.machine);
    assert e == b[0..20];
    U32Encode(b, 20);
    assert Le32(h.version) == b[20..24];
    e := e + Le32(h.version);
    assert e == b[0..24];
    U32Encode(b, 24);
    assert Le32(h.entry) == b[24..28];
    e := e + Le32(h.entry);
    assert e == b[0..28];
    U32Encode(b, 28);
    assert Le32(h.phoff) == b[28..32];
    e := e + Le32(h.phoff);
    assert e == b[0..32];
    U32Encode(b, 32);
    assert Le32(h.shoff) == b[32..36];
    e := e + Le32(h.shoff);
    assert e == b[0..36];
    U32Encode(b, 36);
    assert Le32(h.flags) == b[36..40];
    e := e + Le32(h.flags);
    assert e == b[0..40];
    U16Encode(b, 40);
    assert Le16(h.ehsize) == b[40..42];
    e := e + Le16(h.ehsize);
    assert e == b[0..42];
    U16Encode(b, 42);
    assert Le16(h.phentsize) == b[42..44];
    e := e + Le16(h.phentsize);
    assert e == b[0..44];
    U16Encode(b, 44);
    assert Le16(h.phnum) == b[44..46];
    e := e + Le16(h.phnum);
    assert e == b[0..46];
    U16Encode(b, 46);
    assert Le16(h.shentsize) == b[46..48];
    e := e + Le16(h.shentsize);
    assert e == b[0..48];
    U16Encode(b, 48);
    assert Le16(h.shnum) == b[48..50];
    e := e + Le16(h.shnum);
    assert e == b[0..50];
    U16Encode(b, 50);
    assert Le16(h.shstrndx) == b[50..52];
    e := e + Le16(h.shstrndx);
    assert e == b[0..52];
    assert b[0..52] == b;
    assert EncodeElfHdr(h) == e;
  }


  /** The eight `uint` fields of a program header sit at offsets 0, 4, ..., 28. */
  lemma ProgHdrDecodeEncode(p: ProgHdr)
    ensures DecodeProgHdr(EncodeProgHdr(p)) == p
  {
    var b := EncodeProgHdr(p);
    Le32Decode(p.ptype); Le32Decode(p.off); Le32Decode(p.vaddr); Le32Decode(p.paddr);
    Le32Decode(p.filesz); Le32Decode(p.memsz); Le32Decode(p.flags); Le32Decode(p.align);
    assert b[0..4] == Le32(p.ptype);
    assert b[4..8] == Le32(p.off);
    assert b[8..12] == Le32(p.vaddr);
    assert b[12..16] == Le32(p.paddr);
    assert b[16..20] == Le32(p.filesz);
    assert b[20..24] == Le32(p.memsz);
    assert b[24..28] == Le32(p.flags);
    assert b[28..32] == Le32(p.align);
  }

  lemma ProgHdrEncodeDecode(b: seq<byte>)
    requires |b| == PROGHDR_SIZE
    ensures EncodeProgHdr(DecodeProgHdr(b)) == b
  {
    U32Encode(b, 0); U32Encode(b, 4); U32Encode(b, 8); U32Encode(b, 12);
    U32Encode(b, 16); U32Encode(b, 20); U32Encode(b, 24); U32Encode(b, 28);
    assert b == b[0..4] + b[4..8] + b[8..12] + b[12..16]
              + b[16..20] + b[20..24] + b[24..28] + b[28..32];
  }

  /** A header carries ELF_MAGIC exactly when the file starts with the bytes
      7F 45 4C 46 ("\x7FELF"). */
  lemma MagicBytes(b: seq<byte>)
    requires |b| == ELFHDR_SIZE
    ensures DecodeElfHdr(b).magic == ELF_MAGIC <==> b[..4] == [0x7F, 0x45, 0x4C, 0x46]
  {
    var m: seq<byte> := [0x7F, 0x45, 0x4C, 0x46];
    assert U32At(m, 0) == ELF_MAGIC;
    assert U32At(b[..4], 0) == U32At(b, 0);
    U32AtInjective(b[..4], m);
  }

  // ---------------------------------------------------------------
  // Program header flags

  /** The permission bits a program header grants. */
  datatype Perms = Perms(exec: bool, write: bool, read: bool)

  function HasFlag(flags: uint32, bit: uint32): (on: bool)
  {
    (flags as bv32) & (bit as bv32) != 0
  }

  function PermsOf(flags: uint32): (p: Perms)
  {
    Perms(HasFlag(flags, ELF_PROG_FLAG_EXEC), HasFlag(flags, ELF_PROG_FLAG_WRITE),
          HasFlag(flags, ELF_PROG_FLAG_READ))
  }

  function FlagsOf(p: Perms): (flags: uint32)
  {
    (if p.exec then ELF_PROG_FLAG_EXEC else 0)
    + (if p.write then ELF_PROG_FLAG_WRITE else 0)
    + (if p.read then ELF_PROG_FLAG_READ else 0)
  }

  /** EXEC, WRITE and READ are three different single bits, so every
      combination of permissions is encoded and read back unchanged. */
  lemma FlagsAreIndependentBits(p: Perms)
    ensures PermsOf(FlagsOf(p)) == p
  {
    assert (1 as bv32) & (2 as bv32) == 0;
    assert (1 as bv32) & (4 as bv32) == 0;
    assert (2 as bv32) & (4 as bv32) == 0;
  }
}
