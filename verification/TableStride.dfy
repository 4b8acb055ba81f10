/** The header a file carries, and when the code reads the program header table it announces. */
module TableStride {
  import opened Bytes
  import opened ElfFormat
  import opened Uefi
  import opened ElfReader

  /** The file has these bytes at this offset. */
  predicate Contains(file: seq<byte>, offset: nat, bytes: seq<byte>) {
    offset + |bytes| <= |file| && file[offset..offset + |bytes|] == bytes
  }

  /** An identity that passes validation, for a file of class `cls`. */
  predicate IdentityOf(id: seq<byte>, cls: FileClass) {
    |id| == EI_NIDENT && ValidateIdentity(id) == EFI_SUCCESS && ClassOf(id[EI_CLASS]) == cls
  }

  /** A header of a supported class that passes validation. */
  ghost predicate GoodHeader(cls: FileClass, e: Ehdr) {
    cls != OtherClass && EhdrFits(cls, e) && IdentityOf(e.ident, cls)
  }

  /** The file starts with this header. */
  ghost predicate CarriesHeader(file: seq<byte>, cls: FileClass, e: Ehdr) {
    GoodHeader(cls, e) && Contains(file, 0, EncodeEhdr(cls, e))
  }

  lemma HeaderParts(cls: FileClass, e: Ehdr)
    requires GoodHeader(cls, e)
    ensures |e.ident| == EI_NIDENT && cls != OtherClass
  {
  }

  lemma ContainsPeek(file: seq<byte>, offset: nat, bytes: seq<byte>)
    requires Contains(file, offset, bytes)
    ensures Peek(file, offset, |bytes|) == bytes
  {
  }

  /** A file that carries a header is read as having it. */
  lemma HeaderRead(file: seq<byte>, cls: FileClass, e: Ehdr)
    requires CarriesHeader(file, cls, e)
    ensures ClassOfFile(file) == cls && FileHeader(file) == e && EhdrSize(cls) <= |file|
  {
    hide DecodeEhdr, ValidateIdentity;
    var bs := EncodeEhdr(cls, e);
    assert bs[..EI_NIDENT] == e.ident;
    ContainsPeek(file, 0, bs);
    PeekPeek(file, 0, EhdrSize(cls), 0, EI_NIDENT);
    assert Peek(bs, 0, EI_NIDENT) == e.ident;
    EhdrRoundTrip(cls, e);
  }

  // ------------------------------------------------------------------ the table that is read

  /** The program headers the code reads from a file: at its own stride. */
  function CodeEntries(file: seq<byte>): seq<Phdr> {
    var cls, e := ClassOfFile(file), FileHeader(file);
    Table(cls, file, e.phoff, PhdrSize(cls), e.phnum)
  }

  /** The file is long enough for the table at either stride. */
  predicate RoomForTable(file: seq<byte>, cls: FileClass, e: Ehdr) {
    Place(e.phoff, PhdrSize(cls) + e.phentsize, e.phnum) <= |file|
  }

  /** The last byte of the second entry, at the larger stride: it lies behind the header. */
  function ProbedByte(cls: FileClass, e: Ehdr): (p: nat)
    ensures e.phentsize != PhdrSize(cls) ==> p >= EhdrSize(cls)
  {
    e.phoff + (if e.phentsize < PhdrSize(cls) then PhdrSize(cls) else e.phentsize) + PhdrSize(cls) - 1
  }

  /** A file with this header, and zeros behind it except for one byte. */
  function Probe(cls: FileClass, e: Ehdr, b: byte): seq<byte>
    requires |e.ident| == EI_NIDENT
  {
    var n := ProbedByte(cls, e) + Place(e.phoff, PhdrSize(cls) + e.phentsize, e.phnum) + EhdrSize(cls);
    EncodeEhdr(cls, e) + seq<byte>(n, i requires 0 <= i => if EhdrSize(cls) + i == ProbedByte(cls, e) then b else 0)
  }

  /** The probe is a file with this header and room for its table. */
  lemma ProbeCarries(cls: FileClass, e: Ehdr, b: byte)
    requires GoodHeader(cls, e)
    ensures CarriesHeader(Probe(cls, e, b), cls, e) && RoomForTable(Probe(cls, e, b), cls, e)
  {
    HeaderParts(cls, e);
    hide EncodeEhdr, Place, GoodHeader;
    assert Probe(cls, e, b)[..EhdrSize(cls)] == EncodeEhdr(cls, e);
  }

  /** The second entry at stride `stride` of two probes. */
  lemma ProbesCompared(cls: FileClass, e: Ehdr, stride: nat)
    requires e.phentsize != PhdrSize(cls) && e.phnum > 1
    requires stride == PhdrSize(cls) || stride == e.phentsize
    requires |e.ident| == EI_NIDENT
    ensures var hs := Table(cls, Probe(cls, e, 0), e.phoff, stride, e.phnum);
      var hs' := Table(cls, Probe(cls, e, 1), e.phoff, stride, e.phnum);
      hs[1] == hs'[1] <==> stride < PhdrSize(cls) || stride < e.phentsize
  {
    hide DecodePhdr, EncodePhdr, EncodeEhdr, GoodHeader;
    var f, g := Probe(cls, e, 0), Probe(cls, e, 1);
    var a := Place(e.phoff, stride, 1);
    assert a == e.phoff + stride;
    var x, y := Peek(f, a, PhdrSize(cls)), Peek(g, a, PhdrSize(cls));
    var p := ProbedByte(cls, e);
    assert f[p] == 0 && g[p] == 1 && forall i :: 0 <= i < |f| && i != p ==> f[i] == g[i];
    if stride >= PhdrSize(cls) && stride >= e.phentsize {
      assert x[PhdrSize(cls) - 1] != y[PhdrSize(cls) - 1];
      PhdrBytes(cls, x);
      PhdrBytes(cls, y);
    } else {
      assert x == y;
    }
  }

  /**
   The code strides by the size of its structure and not by the header's entry size.  For a header that
   passes validation, it reads the right table from every file that carries the header if and only if
   the two sizes agree or there is no second entry.
   */
  lemma StrideExactly(cls: FileClass, e: Ehdr)
    requires GoodHeader(cls, e)
    ensures (forall file: seq<byte> :: CarriesHeader(file, cls, e) && RoomForTable(file, cls, e) ==>
               CodeEntries(file) == FileEntries(file))
            <==> StrideRight(cls, e.phentsize, e.phnum)
  {
    HeaderParts(cls, e);
    hide Table, FileHeader, ClassOfFile, CarriesHeader, RoomForTable, GoodHeader, Probe;
    if StrideRight(cls, e.phentsize, e.phnum) {
      forall file: seq<byte> | CarriesHeader(file, cls, e) && RoomForTable(file, cls, e)
        ensures CodeEntries(file) == FileEntries(file)
      {
        HeaderRead(file, cls, e);
        TableStrides(cls, file, e.phoff, e.phentsize, e.phnum);
      }
    } else {
      var f, g := Probe(cls, e, 0), Probe(cls, e, 1);
      ProbeCarries(cls, e, 0);
      ProbeCarries(cls, e, 1);
      HeaderRead(f, cls, e);
      HeaderRead(g, cls, e);
      ProbesCompared(cls, e, PhdrSize(cls));
      ProbesCompared(cls, e, e.phentsize);
      assert CodeEntries(f) != FileEntries(f) || CodeEntries(g) != FileEntries(g);
    }
  }
}
