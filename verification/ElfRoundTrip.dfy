/** From an encoded image to the kernel in memory, and the tables that can never load. */
module ElfRoundTrip {
  import opened Bytes
  import opened ElfFormat
  import opened Uefi
  import opened Frames
  import opened Segment
  import opened SegmentList
  import opened ProgramSegments
  import opened ElfReader
  import opened TableStride
  import opened KernelImage

  /** The file holds the encodings of a header and, where it says, of the program headers it announces. */
  ghost predicate Encodes(file: seq<byte>, cls: FileClass, e: Ehdr, hs: seq<Phdr>) {
    && CarriesHeader(file, cls, e)
    && e.phnum == |hs| && e.phoff + EntryOffset(cls, |hs|) <= |file| && StrideRight(cls, e.phentsize, e.phnum)
    && forall j :: 0 <= j < |hs| ==>
      PhdrFits(cls, hs[j]) && Contains(file, Place(e.phoff, e.phentsize, j), EncodePhdr(cls, hs[j]))
  }

  lemma EntriesDecoded(file: seq<byte>, cls: FileClass, e: Ehdr, hs: seq<Phdr>)
    requires Encodes(file, cls, e, hs)
    ensures FileEntries(file) == hs
  {
    HeaderRead(file, cls, e);
    hide DecodePhdr, EncodePhdr, FileHeader, ClassOfFile, PhdrFits, Peek, Contains;
    hide DecodeEhdr, EhdrFits, IdentityOf, EncodeEhdr, StrideRight, Place;
    forall j | 0 <= j < |hs|
      ensures DecodePhdr(cls, Peek(file, Place(e.phoff, e.phentsize, j), PhdrSize(cls))) == hs[j]
    {
      ContainsPeek(file, Place(e.phoff, e.phentsize, j), EncodePhdr(cls, hs[j]));
      PhdrRoundTrip(cls, hs[j]);
    }
    assert FileEntries(file) == Table(cls, file, e.phoff, e.phentsize, e.phnum);
  }

  /** Memory holds this payload at the segment's address, followed by zeros. */
  ghost predicate HasImage(m: Machine, h: Phdr, payload: seq<byte>) {
    h.filesz <= h.memsz && Peek(m.mem, h.paddr, h.memsz) == payload + seq(h.memsz - h.filesz, _ => 0)
  }

  /** The payload is the segment's part of the file. */
  predicate PayloadOf(file: seq<byte>, h: Phdr, payload: seq<byte>) {
    |payload| == h.filesz && (h.filesz > 0 ==> Contains(file, h.offset, payload))
  }

  /**
   Round trip.  Whatever header, program headers and payloads are encoded in a file, in either class,
   a load that does not fail finds the same headers, returns the header's entry point and leaves
   every payload, followed by zeros, at its segment's address.
   */
  lemma RoundTrip(m: Machine, cls: FileClass, e: Ehdr, hs: seq<Phdr>, payloads: seq<seq<byte>>)
    requires m.Valid() && Encodes(m.file, cls, e, hs) && AllConfined(hs) && |payloads| == |hs|
    requires forall j :: 0 <= j < |hs| && hs[j].Loadable() ==> PayloadOf(m.file, hs[j], payloads[j])
    ensures FileHeader(m.file) == e && FileEntries(m.file) == hs
    ensures var r := LoadKernelOf(m);
      r.Done? ==>
        && r.value == e.entry
        && forall j :: 0 <= j < |hs| && hs[j].Loadable() && hs[j].memsz > 0 ==> HasImage(r.m, hs[j], payloads[j])
  {
    hide LoadKernelOf, FileHeader, FileEntries, ClassOfFile, Encodes, Machine.Valid, Grows, InPlace;
    hide PayloadOf, HasImage, StrideRight, ChangesConfined, NewSizes, KernelBuffers;
    FitsFile(m.file, cls, e, hs);
    HeaderRead(m.file, cls, e);
    EntriesDecoded(m.file, cls, e, hs);
    LoadedKernel(m);
    var r := LoadKernelOf(m);
    if r.Done? {
      GrowsSame(m, r.m);
      forall j | 0 <= j < |hs| && hs[j].Loadable() && hs[j].memsz > 0
        ensures HasImage(r.m, hs[j], payloads[j])
      {
        SegmentImage(r.m, hs[j], payloads[j]);
      }
    }
  }

  lemma FitsFile(file: seq<byte>, cls: FileClass, e: Ehdr, hs: seq<Phdr>)
    requires Encodes(file, cls, e, hs)
    ensures CarriesHeader(file, cls, e) && EhdrSize(cls) <= |file|
    ensures e.phoff + EntryOffset(cls, e.phnum) <= |file| && StrideRight(cls, e.phentsize, e.phnum)
  {
  }

  lemma SegmentImage(m: Machine, h: Phdr, payload: seq<byte>)
    requires InPlace(m, h) && Confined(h) && h.memsz > 0 && PayloadOf(m.file, h, payload)
    ensures HasImage(m, h, payload)
  {
  }

  // ------------------------------------------------------------------ tables that cannot load

  /** Two loadable segments with a page in common never load, whatever their order and place. */
  lemma OverlapNeverLoads(m: Machine, i: nat, j: nat, p: nat)
    requires m.Valid() && WellFormed(m.file)
    ensures var hs := FileEntries(m.file);
      && i < |hs| && j < |hs| && i != j && hs[i].Loadable() && hs[j].Loadable()
      && InPages(hs[i], p) && InPages(hs[j], p)
      ==> LoadKernelOf(m).Failed?
  {
    hide LoadKernelOf, FileHeader, FileEntries, InPages, Grows, WellFormed;
    LoadedKernel(m);
  }

  /** Nor does a segment with a page that is already owned. */
  lemma OwnedNeverLoads(m: Machine, i: nat, p: nat)
    requires m.Valid() && WellFormed(m.file)
    ensures var hs := FileEntries(m.file);
      i < |hs| && hs[i].Loadable() && InPages(hs[i], p) && p in m.pages ==> LoadKernelOf(m).Failed?
  {
    hide LoadKernelOf, FileHeader, FileEntries, InPages, Grows, WellFormed;
    LoadedKernel(m);
  }
}
