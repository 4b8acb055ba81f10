/** Where in the bytes of a file or buffer each field of the ELF structures lies: elf.h by literal offsets. */
module ElfBytes {
  import opened Bytes
  import opened ElfFormat
  import opened Uefi

  // ------------------------------------------------------------------ little-endian numbers

  /** Byte `at`; there are zeros behind the end. */
  function B(bs: seq<byte>, at: nat): nat { if at < |bs| then bs[at] else 0 }

  function U16(bs: seq<byte>, at: nat): nat { B(bs, at) + 0x100 * B(bs, at + 1) }

  function U32(bs: seq<byte>, at: nat): nat { U16(bs, at) + 0x1_0000 * U16(bs, at + 2) }

  function U64(bs: seq<byte>, at: nat): nat { U32(bs, at) + 0x1_0000_0000 * U32(bs, at + 4) }

  /** The little-endian number in `w` bytes. */
  function Number(bs: seq<byte>, at: nat, w: nat): nat {
    if w == 2 then U16(bs, at) else if w == 4 then U32(bs, at) else U64(bs, at)
  }

  lemma TwoMore(s: seq<byte>)
    requires |s| >= 2
    ensures FromLE(s) == U16(s, 0) + 0x1_0000 * FromLE(s[2..])
  {
    assert s[1..][1..] == s[2..];
    assert FromLE(s[1..]) == s[1] + 0x100 * FromLE(s[2..]);
  }

  lemma FourMore(s: seq<byte>)
    requires |s| >= 4
    ensures FromLE(s) == U32(s, 0) + 0x1_0000_0000 * FromLE(s[4..])
  {
    hide FromLE;
    TwoMore(s);
    TwoMore(s[2..]);
    assert s[2..][2..] == s[4..];
  }

  /** The number that a field is decoded as. */
  lemma FieldNumber(bs: seq<byte>, at: nat, w: nat)
    requires at + w <= |bs| && w in {2, 4, 8}
    ensures FromLE(bs[at..at + w]) == Number(bs, at, w)
  {
    hide FromLE;
    var s := bs[at..at + w];
    NoBytes();
    if w == 2 {
      TwoMore(s);
    } else {
      FourMore(s);
      if w == 8 { FourMore(s[4..]); }
    }
  }

  lemma NoBytes()
    ensures FromLE([]) == 0
  {
  }

  // ------------------------------------------------------------------ fields of a layout

  /** Where field `k` begins. */
  function Offset(ws: Layout, k: nat): nat
    requires k <= |ws|
  {
    if k == 0 then 0 else Offset(ws, k - 1) + ws[k - 1]
  }

  lemma {:induction false} OffsetTail(ws: Layout, k: nat)
    requires 0 < k <= |ws|
    ensures Offset(ws, k) == ws[0] + Offset(ws[1..], k - 1)
  {
    if k == 1 {
    } else {
      OffsetTail(ws, k - 1);
    }
  }

  lemma {:induction false} OffsetBound(ws: Layout, k: nat)
    requires k < |ws|
    ensures Offset(ws, k) + ws[k] <= SizeOf(ws)
  {
    if k > 0 {
      OffsetTail(ws, k);
      OffsetBound(ws[1..], k - 1);
    }
  }

  lemma SliceOfTail(bs: seq<byte>, base: nat, a: nat, w: nat)
    requires base + a + w <= |bs|
    ensures bs[base..][a..a + w] == bs[base + a..base + a + w]
  {
  }

  lemma UnpackStep(ws: Layout, bs: seq<byte>, k: nat)
    requires |bs| == SizeOf(ws) && k < |ws|
    ensures |Unpack(ws, bs)| == |ws| && SizeOf(ws) == ws[0] + SizeOf(ws[1..])
    ensures Unpack(ws, bs)[k] == if k == 0 then FromLE(bs[..ws[0]]) else Unpack(ws[1..], bs[ws[0]..])[k - 1]
  {
    hide FromLE;
  }

  lemma {:induction false} UnpackAt(ws: Layout, bs: seq<byte>, k: nat)
    requires |bs| == SizeOf(ws) && k < |ws|
    ensures Offset(ws, k) + ws[k] <= |bs| && |Unpack(ws, bs)| == |ws|
    ensures Unpack(ws, bs)[k] == FromLE(bs[Offset(ws, k)..Offset(ws, k) + ws[k]])
  {
    hide FromLE, Unpack, SizeOf;
    OffsetBound(ws, k);
    UnpackStep(ws, bs, k);
    if k > 0 {
      OffsetTail(ws, k);
      hide Offset;
      UnpackAt(ws[1..], bs[ws[0]..], k - 1);
      var a := Offset(ws[1..], k - 1);
      SliceOfTail(bs, ws[0], a, ws[k]);
    }
  }

  /** Field `k` of a structure that begins at `base` is the number at its place. */
  lemma FieldAt(ws: Layout, bs: seq<byte>, base: nat, k: nat)
    requires base + SizeOf(ws) == |bs| && k < |ws| && ws[k] in {2, 4, 8}
    ensures |Unpack(ws, bs[base..])| == |ws|
    ensures Unpack(ws, bs[base..])[k] == Number(bs, base + Offset(ws, k), ws[k])
  {
    hide Unpack, FromLE, Number, SizeOf;
    UnpackAt(ws, bs[base..], k);
    var a := Offset(ws, k);
    SliceOfTail(bs, base, a, ws[k]);
    FieldNumber(bs, base + a, ws[k]);
  }

  lemma AllFields(ws: Layout, bs: seq<byte>, base: nat)
    requires base + SizeOf(ws) == |bs| && forall k :: 0 <= k < |ws| ==> ws[k] in {2, 4, 8}
    ensures |Unpack(ws, bs[base..])| == |ws|
    ensures forall k :: 0 <= k < |ws| ==>
      Unpack(ws, bs[base..])[k] == Number(bs, base + Offset(ws, k), ws[k])
  {
    hide Unpack, FromLE, Number, SizeOf, Offset;
    forall k | 0 <= k < |ws|
      ensures Unpack(ws, bs[base..])[k] == Number(bs, base + Offset(ws, k), ws[k])
    {
      FieldAt(ws, bs, base, k);
    }
    UnpackSize(ws, bs[base..]);
  }

  lemma UnpackSize(ws: Layout, bs: seq<byte>)
    requires |bs| == SizeOf(ws)
    ensures |Unpack(ws, bs)| == |ws|
  {
  }

  // ------------------------------------------------------------------ the ELF header

  lemma HeaderOffsets()
    ensures var ws := EhdrLayout(Class64);
      && |ws| == 13
      && Offset(ws, 0) == 0 && Offset(ws, 1) == 2 && Offset(ws, 2) == 4 && Offset(ws, 3) == 8 && Offset(ws, 4) == 16
      && Offset(ws, 5) == 24 && Offset(ws, 6) == 32 && Offset(ws, 7) == 36 && Offset(ws, 8) == 38
      && Offset(ws, 9) == 40 && Offset(ws, 10) == 42 && Offset(ws, 11) == 44 && Offset(ws, 12) == 46
    ensures var ws := EhdrLayout(Class32);
      && |ws| == 13
      && Offset(ws, 0) == 0 && Offset(ws, 1) == 2 && Offset(ws, 2) == 4 && Offset(ws, 3) == 8 && Offset(ws, 4) == 12
      && Offset(ws, 5) == 16 && Offset(ws, 6) == 20 && Offset(ws, 7) == 24 && Offset(ws, 8) == 26
      && Offset(ws, 9) == 28 && Offset(ws, 10) == 30 && Offset(ws, 11) == 32 && Offset(ws, 12) == 34
  {
  }

  /** The 64-bit header: every field, by the place of its bytes. */
  lemma Header64(bs: seq<byte>)
    requires |bs| == 64
    ensures EhdrSize(Class64) == 64
    ensures DecodeEhdr(Class64, bs) == Ehdr(
              bs[..16], U16(bs, 16), U16(bs, 18), U32(bs, 20), U64(bs, 24), U64(bs, 32), U64(bs, 40), U32(bs, 48),
              U16(bs, 52), U16(bs, 54), U16(bs, 56), U16(bs, 58), U16(bs, 60), U16(bs, 62))
  {
    hide Unpack, SizeOf, Offset, U16, U32, U64;
    StructSizes(Class64);
    AllFields(EhdrLayout(Class64), bs, EI_NIDENT);
    HeaderOffsets();
  }

  lemma Header32(bs: seq<byte>)
    requires |bs| == 52
    ensures EhdrSize(Class32) == 52
    ensures DecodeEhdr(Class32, bs) == Ehdr(
              bs[..16], U16(bs, 16), U16(bs, 18), U32(bs, 20), U32(bs, 24), U32(bs, 28), U32(bs, 32), U32(bs, 36),
              U16(bs, 40), U16(bs, 42), U16(bs, 44), U16(bs, 46), U16(bs, 48), U16(bs, 50))
  {
    hide Unpack, SizeOf, Offset, U16, U32, U64;
    StructSizes(Class32);
    AllFields(EhdrLayout(Class32), bs, EI_NIDENT);
    HeaderOffsets();
  }

  // ------------------------------------------------------------------ program headers

  lemma EntryOffsets()
    ensures var ws := PhdrLayout(Class64);
      && |ws| == 8
      && Offset(ws, 0) == 0 && Offset(ws, 1) == 4 && Offset(ws, 2) == 8 && Offset(ws, 3) == 16
      && Offset(ws, 4) == 24 && Offset(ws, 5) == 32 && Offset(ws, 6) == 40 && Offset(ws, 7) == 48
    ensures var ws := PhdrLayout(Class32);
      && |ws| == 8
      && Offset(ws, 0) == 0 && Offset(ws, 1) == 4 && Offset(ws, 2) == 8 && Offset(ws, 3) == 12
      && Offset(ws, 4) == 16 && Offset(ws, 5) == 20 && Offset(ws, 6) == 24 && Offset(ws, 7) == 28
  {
  }

  /** The 64-bit program header: type, flags, offset, addresses, sizes, alignment. */
  lemma Entry64(bs: seq<byte>)
    requires |bs| == 56
    ensures PhdrSize(Class64) == 56
    ensures DecodePhdr(Class64, bs) == Phdr(
              U32(bs, 0), U32(bs, 4), U64(bs, 8), U64(bs, 16), U64(bs, 24), U64(bs, 32), U64(bs, 40), U64(bs, 48))
    ensures DecodePhdr(Class64, bs).Loadable() <==> U32(bs, 0) == 1
  {
    hide Unpack, SizeOf, Offset, U16, U32, U64;
    StructSizes(Class64);
    assert bs[0..] == bs;
    AllFields(PhdrLayout(Class64), bs, 0);
    EntryOffsets();
  }

  /** The 32-bit program header has its flags behind the sizes. */
  lemma Entry32(bs: seq<byte>)
    requires |bs| == 32
    ensures PhdrSize(Class32) == 32
    ensures DecodePhdr(Class32, bs) == Phdr(
              U32(bs, 0), U32(bs, 24), U32(bs, 4), U32(bs, 8), U32(bs, 12), U32(bs, 16), U32(bs, 20), U32(bs, 28))
    ensures DecodePhdr(Class32, bs).Loadable() <==> U32(bs, 0) == 1
  {
    hide Unpack, SizeOf, Offset, U16, U32, U64;
    StructSizes(Class32);
    assert bs[0..] == bs;
    AllFields(PhdrLayout(Class32), bs, 0);
    EntryOffsets();
  }

  // ------------------------------------------------------------------ encoded structures

  /** What an encoded header has at which place. */
  lemma EncodedHeader(h: Ehdr)
    ensures EhdrFits(Class64, h) ==>
      var bs := EncodeEhdr(Class64, h);
      && bs[..16] == h.ident && U64(bs, 24) == h.entry && U64(bs, 32) == h.phoff
      && U16(bs, 54) == h.phentsize && U16(bs, 56) == h.phnum
    ensures EhdrFits(Class32, h) ==>
      var bs := EncodeEhdr(Class32, h);
      && bs[..16] == h.ident && U32(bs, 24) == h.entry && U32(bs, 28) == h.phoff
      && U16(bs, 42) == h.phentsize && U16(bs, 44) == h.phnum
  {
    hide DecodeEhdr, EncodeEhdr, U16, U32, U64;
    if EhdrFits(Class64, h) {
      EhdrRoundTrip(Class64, h);
      Header64(EncodeEhdr(Class64, h));
    }
    if EhdrFits(Class32, h) {
      EhdrRoundTrip(Class32, h);
      Header32(EncodeEhdr(Class32, h));
    }
  }

  /** What an encoded program header has at which place. */
  lemma EncodedEntry(h: Phdr)
    ensures PhdrFits(Class64, h) ==>
      var bs := EncodePhdr(Class64, h);
      && U32(bs, 0) == h.ptype && U32(bs, 4) == h.flags && U64(bs, 8) == h.offset && U64(bs, 16) == h.vaddr
      && U64(bs, 24) == h.paddr && U64(bs, 32) == h.filesz && U64(bs, 40) == h.memsz && U64(bs, 48) == h.align
    ensures PhdrFits(Class32, h) ==>
      var bs := EncodePhdr(Class32, h);
      && U32(bs, 0) == h.ptype && U32(bs, 4) == h.offset && U32(bs, 8) == h.vaddr && U32(bs, 12) == h.paddr
      && U32(bs, 16) == h.filesz && U32(bs, 20) == h.memsz && U32(bs, 24) == h.flags && U32(bs, 28) == h.align
  {
    hide DecodePhdr, EncodePhdr, PhdrFits, U16, U32, U64;
    if PhdrFits(Class64, h) {
      PhdrRoundTrip(Class64, h);
      Entry64(EncodePhdr(Class64, h));
    }
    if PhdrFits(Class32, h) {
      PhdrRoundTrip(Class32, h);
      Entry32(EncodePhdr(Class32, h));
    }
  }

  // ------------------------------------------------------------------ memory descriptors

  lemma DescriptorOffsets()
    ensures var ws := DESCRIPTOR;
      && |ws| == 6 && Offset(ws, 0) == 0 && Offset(ws, 2) == 8 && Offset(ws, 4) == 24
  {
  }

  /** The descriptor of section 7.2 of the UEFI Specification: type, physical start and number of pages. */
  lemma DescriptorFields(bs: seq<byte>)
    requires |bs| == 40
    ensures DecodeDescriptor(bs) == Descriptor(U32(bs, 0), U64(bs, 8), U64(bs, 24))
  {
    hide Unpack, SizeOf, Offset, U16, U32, U64;
    DescriptorSize();
    assert bs[0..] == bs;
    AllFields(DESCRIPTOR, bs, 0);
    DescriptorOffsets();
  }
}
