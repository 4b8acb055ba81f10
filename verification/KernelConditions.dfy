/** Exactly when a kernel image loads, for a firmware that cooperates. */
module KernelConditions {
  import opened Bytes
  import opened ElfFormat
  import opened Uefi
  import opened Frames
  import opened Segment
  import opened SegmentList
  import opened ProgramSegments
  import opened LoadConditions
  import opened LoadStatus
  import opened ImageStatuses
  import opened ElfReader
  import opened KernelImage

  /** The firmware refuses nothing up to the check of the identity, and has room for its buffer. */
  ghost predicate IdentityServed(m: Machine) {
    NoRefusal(m, 4) && m.PoolFits(m.answers(m.tick + 2).address, EI_NIDENT, LOADER_DATA)
  }

  /** The firmware refuses nothing before segments are loaded, and has room for the three buffers. */
  ghost predicate PrepareServed(m: Machine) {
    var cls, e := ClassOfFile(m.file), FileHeader(m.file);
    var header := m.answers(m.tick + 5).address;
    && NoRefusal(m, 10) && IdentityServed(m)
    && m.PoolFits(header, EhdrSize(cls), LOADER_DATA)
    && m.(pools := m.pools[header := Pool(EhdrSize(cls), LOADER_DATA)])
         .PoolFits(m.answers(m.tick + 8).address, EntryOffset(cls, e.phnum), LOADER_DATA)
  }

  lemma StartServed(m: Machine)
    requires PrepareServed(m)
    ensures IdentityServed(m)
  {
  }

  /** With room and without refusals, the status depends on the identity only. */
  lemma ServedIdentity(m: Machine)
    requires IdentityServed(m)
    ensures IdentifyStatus(m) == ValidateIdentity(Peek(m.file, 0, EI_NIDENT))
    ensures m.Open().Done? && ReadIdentityOf(m.Open().m).Status() == EFI_SUCCESS
    ensures ReadIdentityOf(m.Open().m).value == m.answers(m.tick + 2).address
  {
    hide Machine.PoolFits, ReadIdentityOf, ValidateIdentity, Peek;
    assert m.answers(m.tick).refusal.None?;
    IdentityStatusExactly(m.Open().m);
    FitsSame(m, m.Open().m, m.answers(m.tick + 2).address, EI_NIDENT, LOADER_DATA);
  }

  /**
   An image whose identity is not accepted never loads, whatever else it holds and whatever the firmware
   does; memory in use is kept and no page changes hands.  Unless the firmware gets in the way before,
   the status is the one that the identity deserves, and the file is left open and the identity's buffer
   allocated.
   */
  lemma RejectedNeverLoads(m: Machine)
    requires m.Valid() && EI_NIDENT <= |m.file| && !IdentityAccepted(m.file)
    ensures var r := LoadKernelOf(m);
      && r.Failed? && r.m.pages == m.pages && r.m.Valid() && Grows(m, r.m) && r.error == IdentifyStatus(m)
      && (IdentityServed(m) ==>
            && r.error == ValidateIdentity(Peek(m.file, 0, EI_NIDENT)) && r.m.open
            && r.m.pools == m.pools[m.answers(m.tick + 2).address := Pool(EI_NIDENT, LOADER_DATA)])
  {
    hide ReadIdentityOf, ReadElfOf, ValidateIdentity, Machine.FreePool, Machine.Valid, Machine.InUse, Grows, Peek;
    hide IdentityServed, Machine.Open, Finish, IdentifyStatus;
    IdentityRead(m);
    IdentifyStatusExactly(m);
    RejectionIsError(Peek(m.file, 0, EI_NIDENT));
    if IdentityServed(m) { ServedIdentity(m); }
  }

  lemma ServedHeaders(m: Machine)
    requires PrepareServed(m) && ClassOfFile(m.file) != OtherClass && FileHeader(m.file).phoff <= |m.file|
    ensures HeadersStatus(m.(tick := m.tick + 4), ClassOfFile(m.file)) == EFI_SUCCESS
  {
    hide Machine.PoolFits, DecodeEhdr, EntryOffset, Peek;
    var m4, cls, e := m.(tick := m.tick + 4), ClassOfFile(m.file), FileHeader(m.file);
    var header := m.answers(m.tick + 5).address;
    FitsSame(m, m4, header, EhdrSize(cls), LOADER_DATA);
    FitsSame(m.(pools := m.pools[header := Pool(EhdrSize(cls), LOADER_DATA)]),
             m4.(pools := m4.pools[header := Pool(EhdrSize(cls), LOADER_DATA)]),
             m.answers(m.tick + 8).address, EntryOffset(cls, e.phnum), LOADER_DATA);
  }

  lemma WellFormedParts(file: seq<byte>)
    requires WellFormed(file)
    ensures EhdrSize(ClassOfFile(file)) <= |file| && EI_NIDENT <= |file| && FileHeader(file).phoff <= |file|
  {
    hide FileHeader, ClassOfFile, AllConfined;
  }

  lemma AcceptedClass(file: seq<byte>)
    ensures var status := ValidateIdentity(Peek(file, 0, EI_NIDENT));
      if IdentityAccepted(file) then status == EFI_SUCCESS && ClassOfFile(file) != OtherClass else IsError(status)
  {
    hide Peek;
    RejectionIsError(Peek(file, 0, EI_NIDENT));
  }

  /** With room and without refusals, everything before the segments depends on the identity only. */
  lemma PreparesExactly(m: Machine)
    requires m.Valid() && WellFormed(m.file) && PrepareServed(m)
    ensures Prepare(m).Done? <==> IdentityAccepted(m.file)
  {
    hide Prepare, IdentifyStatus, HeadersStatus, ValidateIdentity, Machine.Valid, Peek, PrepareServed, FileEntries;
    hide IdentityServed, FileHeader, WellFormed, IdentityAccepted, ClassOfFile;
    WellFormedParts(m.file);
    StartServed(m);
    ServedIdentity(m);
    PrepareStatusExactly(m);
    AcceptedClass(m.file);
    if IdentityAccepted(m.file) { ServedHeaders(m); }
  }

  /** The firmware cooperates with the whole load, and the file has all payloads. */
  ghost predicate KernelServed(m: Machine) {
    var hs := FileEntries(m.file);
    && PrepareServed(m)
    && (forall j :: 0 <= j < |hs| && hs[j].Loadable() ==> InFile(hs[j], |m.file|))
    && (Prepare(m).Done? ==> Obliges(Prepare(m).m, hs, 0))
  }

  /** The status that loading an image deserves. */
  ghost function ServedStatus(m: Machine): Status {
    var hs := FileEntries(m.file);
    if !IdentityAccepted(m.file) then ValidateIdentity(Peek(m.file, 0, EI_NIDENT))
    else if |hs| == 0 then EFI_INVALID_PARAMETER
    else if CountLoadable(hs, 0, |hs|) > 0 && Disjoint(hs, 0, |hs|) && AllFree(Prepare(m).m, hs, 0) then EFI_SUCCESS
    else EFI_NOT_FOUND
  }

  /**
   For a firmware that cooperates, an image that is well formed if its identity is accepted: it loads
   exactly if its identity is accepted, it has a loadable segment, and its segments are pairwise disjoint
   and lie in pages that are free once the header and table buffers are in place.  Otherwise the status
   is that of the identity, of an empty table or of segments that cannot be found or placed.
   */
  lemma KernelLoadsExactly(m: Machine)
    requires m.Valid() && EI_NIDENT <= |m.file| && (IdentityAccepted(m.file) ==> WellFormed(m.file))
    ensures KernelServed(m) ==>
      LoadKernelOf(m).Status() == ServedStatus(m) && (LoadKernelOf(m).Done? <==> ServedStatus(m) == EFI_SUCCESS)
  {
    hide Prepare, LoadSegments, CleanUp, PrepareServed, Obliges, Disjoint, AllFree, CountLoadable, ValidateIdentity;
    hide Machine.Valid, Grows, FileEntries, FileHeader, AllConfined, TableAt, HeaderAt, EntryOffset, NewSizes;
    hide KernelInMemory, IdentityServed, Peek;
    if !KernelServed(m) { return; }
    if !IdentityAccepted(m.file) {
      assert IdentityServed(m) by { StartServed(m); }
      RejectedNeverLoads(m);
      return;
    }
    PreparesExactly(m);
    PrepareSpec(m);
    var r1, hs := Prepare(m), FileEntries(m.file);
    HeaderCount(m.file);
    GrowsSame(m, r1.m);
    var Prepared(cls, h, t) := r1.value;
    NotFoundExactly(r1.m, cls, h, t, hs);
    NoneLoadable(hs);
    var r := LoadSegments(r1.m, cls, h, t);
    if !IsError(r.status) {
      RunInMemory(r1.m, cls, h, t, hs);
      GrowsTrans(m, r1.m, r.m);
      CleanUpSpec(m, r.m, h, t);
    }
  }
}
