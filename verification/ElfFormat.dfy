/** The ELF structures the boot loader reads, in their 32-bit and 64-bit layouts. */
module ElfFormat {
  import opened Bytes

  const EI_NIDENT: nat := 16
  const EI_CLASS: nat := 4
  const EI_DATA: nat := 5
  const PT_LOAD: nat := 1

  datatype FileClass = Class32 | Class64 | OtherClass

  function ClassOf(b: byte): FileClass {
    if b == 1 then Class32 else if b == 2 then Class64 else OtherClass
  }

  datatype Ehdr = Ehdr(
    ident: seq<byte>, etype: nat, machine: nat, version: nat, entry: nat, phoff: nat, shoff: nat,
    flags: nat, ehsize: nat, phentsize: nat, phnum: nat, shentsize: nat, shnum: nat, shstrndx: nat)

  datatype Phdr = Phdr(
    ptype: nat, flags: nat, offset: nat, vaddr: nat, paddr: nat, filesz: nat, memsz: nat, align: nat)
  {
    predicate Loadable() { ptype == PT_LOAD }
  }

  function EhdrSize(cls: FileClass): nat { if cls == Class32 then 52 else 64 }

  function PhdrSize(cls: FileClass): nat { if cls == Class32 then 32 else 56 }

  /** The header's fields after the identity bytes. */
  function EhdrLayout(cls: FileClass): Layout {
    if cls == Class32 then [2, 2, 4, 4, 4, 4, 4, 2, 2, 2, 2, 2, 2]
    else [2, 2, 4, 8, 8, 8, 4, 2, 2, 2, 2, 2, 2]
  }

  function PhdrLayout(cls: FileClass): Layout {
    if cls == Class32 then [4, 4, 4, 4, 4, 4, 4, 4] else [4, 4, 8, 8, 8, 8, 8, 8]
  }

  lemma StructSizes(cls: FileClass)
    ensures EI_NIDENT + SizeOf(EhdrLayout(cls)) == EhdrSize(cls)
    ensures SizeOf(PhdrLayout(cls)) == PhdrSize(cls)
  {
    hide SizeOf;
    TailSizes(EhdrLayout(cls));
    TailSizes(EhdrLayout(cls)[5..]);
    TailSizes(EhdrLayout(cls)[10..]);
    TailSizes(PhdrLayout(cls));
    TailSizes(PhdrLayout(cls)[5..]);
  }

  /** Unrolls the size of a layout by up to five fields. */
  lemma TailSizes(ws: Layout)
    ensures |ws| <= 4 ==> SizeOf(ws) == (if |ws| > 0 then ws[0] else 0) + (if |ws| > 1 then ws[1] else 0)
                                        + (if |ws| > 2 then ws[2] else 0) + (if |ws| > 3 then ws[3] else 0)
    ensures |ws| >= 5 ==> SizeOf(ws) == ws[0] + ws[1] + ws[2] + ws[3] + ws[4] + SizeOf(ws[5..])
  {
  }

  function EhdrFields(h: Ehdr): seq<nat> {
    [h.etype, h.machine, h.version, h.entry, h.phoff, h.shoff, h.flags,
     h.ehsize, h.phentsize, h.phnum, h.shentsize, h.shnum, h.shstrndx]
  }

  /** The fields in file order: the 64-bit structure moves the flags up. */
  function PhdrFields(cls: FileClass, h: Phdr): seq<nat> {
    if cls == Class32
    then [h.ptype, h.offset, h.vaddr, h.paddr, h.filesz, h.memsz, h.flags, h.align]
    else [h.ptype, h.flags, h.offset, h.vaddr, h.paddr, h.filesz, h.memsz, h.align]
  }

  ghost predicate EhdrFits(cls: FileClass, h: Ehdr) {
    |h.ident| == EI_NIDENT && InRange(EhdrLayout(cls), EhdrFields(h))
  }

  ghost predicate PhdrFits(cls: FileClass, h: Phdr) {
    InRange(PhdrLayout(cls), PhdrFields(cls, h))
  }

  function EncodeEhdr(cls: FileClass, h: Ehdr): (bs: seq<byte>)
    requires |h.ident| == EI_NIDENT
    ensures |bs| == EhdrSize(cls)
  {
    StructSizes(cls);
    h.ident + Pack(EhdrLayout(cls), EhdrFields(h))
  }

  function DecodeEhdr(cls: FileClass, bs: seq<byte>): (h: Ehdr)
    requires |bs| == EhdrSize(cls)
    ensures EhdrFits(cls, h)
  {
    StructSizes(cls);
    var f := Unpack(EhdrLayout(cls), bs[EI_NIDENT..]);
    var h := Ehdr(bs[..EI_NIDENT], f[0], f[1], f[2], f[3], f[4], f[5], f[6], f[7], f[8], f[9], f[10], f[11], f[12]);
    assert EhdrFields(h) == f;
    h
  }

  function EncodePhdr(cls: FileClass, h: Phdr): (bs: seq<byte>)
    ensures |bs| == PhdrSize(cls)
  {
    StructSizes(cls);
    Pack(PhdrLayout(cls), PhdrFields(cls, h))
  }

  function DecodePhdr(cls: FileClass, bs: seq<byte>): (h: Phdr)
    requires |bs| == PhdrSize(cls)
    ensures PhdrFits(cls, h)
  {
    StructSizes(cls);
    var f := Unpack(PhdrLayout(cls), bs);
    var h := if cls == Class32 then Phdr(f[0], f[6], f[1], f[2], f[3], f[4], f[5], f[7])
             else Phdr(f[0], f[1], f[2], f[3], f[4], f[5], f[6], f[7]);
    assert PhdrFields(cls, h) == f;
    h
  }

  /** Decoding inverts encoding for every header whose fields fit their widths ... */
  lemma EhdrRoundTrip(cls: FileClass, h: Ehdr)
    requires EhdrFits(cls, h)
    ensures DecodeEhdr(cls, EncodeEhdr(cls, h)) == h
  {
    StructSizes(cls);
    var bs := EncodeEhdr(cls, h);
    assert bs[..EI_NIDENT] == h.ident && bs[EI_NIDENT..] == Pack(EhdrLayout(cls), EhdrFields(h));
    UnpackPack(EhdrLayout(cls), EhdrFields(h));
  }

  lemma PhdrRoundTrip(cls: FileClass, h: Phdr)
    requires PhdrFits(cls, h)
    ensures DecodePhdr(cls, EncodePhdr(cls, h)) == h
  {
    hide Pack, Unpack, SizeOf;
    StructSizes(cls);
    UnpackPack(PhdrLayout(cls), PhdrFields(cls, h));
  }

  /** ... and encoding inverts decoding, so no byte of a structure is ignored. */
  lemma EhdrBytes(cls: FileClass, bs: seq<byte>)
    requires |bs| == EhdrSize(cls)
    ensures EncodeEhdr(cls, DecodeEhdr(cls, bs)) == bs
  {
    hide DecodeEhdr, EhdrFields, EhdrLayout, Pack, Unpack;
    StructSizes(cls);
    DecodeEhdrFields(cls, bs);
    PackUnpack(EhdrLayout(cls), bs[EI_NIDENT..]);
    assert bs == bs[..EI_NIDENT] + bs[EI_NIDENT..];
  }

  lemma DecodeEhdrFields(cls: FileClass, bs: seq<byte>)
    requires |bs| == EhdrSize(cls) == EI_NIDENT + SizeOf(EhdrLayout(cls))
    ensures DecodeEhdr(cls, bs).ident == bs[..EI_NIDENT]
    ensures EhdrFields(DecodeEhdr(cls, bs)) == Unpack(EhdrLayout(cls), bs[EI_NIDENT..])
  {
    hide Unpack, SizeOf;
  }

  lemma PhdrBytes(cls: FileClass, bs: seq<byte>)
    requires |bs| == PhdrSize(cls)
    ensures EncodePhdr(cls, DecodePhdr(cls, bs)) == bs
  {
    hide Pack, Unpack, SizeOf;
    StructSizes(cls);
    var f := Unpack(PhdrLayout(cls), bs);
    PackUnpack(PhdrLayout(cls), bs);
    assert PhdrFields(cls, DecodePhdr(cls, bs)) == f;
  }

  /** A 32-bit program header is also a 64-bit one with the same fields. */
  lemma WidenFits(h: Phdr)
    requires PhdrFits(Class32, h)
    ensures PhdrFits(Class64, h)
  {
    Widths();
    var f, g := PhdrFields(Class32, h), PhdrFields(Class64, h);
    assert forall i :: 0 <= i < 8 ==> f[i] < 0x1_0000_0000;
    assert g[0] == f[0] && g[1] == f[6] && g[2] == f[1] && g[3] == f[2] && g[4] == f[3]
           && g[5] == f[4] && g[6] == f[5] && g[7] == f[7];
  }
}
