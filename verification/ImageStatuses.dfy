/** The status of loading an image, for every firmware: the first thing that stands in its way. */
module ImageStatuses {
  import opened Bytes
  import opened ElfFormat
  import opened Uefi
  import opened Frames
  import opened Statuses
  import opened Segment
  import opened SegmentList
  import opened ProgramSegments
  import opened SegmentStatuses
  import opened ElfReader
  import opened KernelImage

  // ------------------------------------------------------------------ reading into a new buffer

  /** Buffer and read, with the calls counted from `k`. */
  function FetchStatus(m: Machine, k: nat, fits: bool, behind: bool, rest: Status): Status {
    Then(Refused(m, k),
         Then(When(!fits, EFI_OUT_OF_RESOURCES),
              Then(Refused(m, k + 1), Then(When(behind, EFI_DEVICE_ERROR), rest))))
  }

  lemma FetchStatusExactly(m: Machine, n: nat)
    requires m.open
    ensures var r := Fetch(m, n);
      && r.Status()
         == FetchStatus(m, 0, m.PoolFits(m.Ask().address, n, LOADER_DATA), m.position > |m.file|, EFI_SUCCESS)
      && (r.Done? ==>
            && r.m.answers == m.answers && r.m.tick == m.tick + 2 && r.m.file == m.file && r.m.open
            && |r.m.mem| == |m.mem| && r.m.pages == m.pages && r.value == m.Ask().address
            && r.m.pools == m.pools[m.Ask().address := Pool(n, LOADER_DATA)])
  {
    hide Machine.PoolFits, Poke;
    FitsSame(m, m.Next(), m.Ask().address, n, LOADER_DATA);
  }

  lemma PositionStatusExactly(m: Machine, pos: nat)
    requires m.open
    ensures var r := m.SetPosition(pos);
      && r.Status() == Then(Refused(m, 0), EFI_SUCCESS)
      && r.m == m.(tick := m.tick + 1, position := r.m.position)
      && (r.Done? ==> r.m.position == if pos == WORD - 1 then |m.file| else pos)
  {
  }

  // ------------------------------------------------------------------ read_elf_identity, read_elf_file

  /** Where the firmware puts the buffer of call `k`, there is room for `n` bytes. */
  predicate RoomAt(m: Machine, k: nat, n: nat) {
    m.PoolFits(m.answers(m.tick + k).address, n, LOADER_DATA)
  }

  /** The status of `read_elf_identity`. */
  lemma IdentityStatusExactly(m: Machine)
    requires m.open
    ensures ReadIdentityOf(m).Status()
      == Then(Refused(m, 0), FetchStatus(m, 1, RoomAt(m, 1, 16), false, EFI_SUCCESS))
    ensures var r := ReadIdentityOf(m); r.Done? ==> r.m.answers == m.answers && r.m.tick == m.tick + 3
    ensures var r := ReadIdentityOf(m); r.Done? ==> r.value == m.answers(m.tick + 1).address
  {
    hide Machine.SetPosition, Machine.PoolFits, Fetch;
    PositionStatusExactly(m, 0);
    var m1 := m.SetPosition(0).m;
    FetchStatusExactly(m1, EI_NIDENT);
    FitsSame(m, m1, m1.Ask().address, EI_NIDENT, LOADER_DATA);
  }

  /** With the header's buffer in place, there is room for the table. */
  predicate TableRoom(m: Machine, cls: FileClass, phnum: nat) {
    var header := m.answers(m.tick + 1).address;
    m.(pools := m.pools[header := Pool(EhdrSize(cls), LOADER_DATA)])
     .PoolFits(m.answers(m.tick + 4).address, EntryOffset(cls, phnum), LOADER_DATA)
  }

  /** The status of `read_elf_file`. */
  function HeadersStatus(m: Machine, cls: FileClass): Status {
    var e := HeaderAt(cls, m.file, 0);
    Then(Refused(m, 0),
         if cls == OtherClass then EFI_INVALID_PARAMETER else
           FetchStatus(m, 1, RoomAt(m, 1, EhdrSize(cls)), false,
                       Then(Refused(m, 3),
                            FetchStatus(m, 4, TableRoom(m, cls, e.phnum), BehindEnd(e.phoff, m.file), EFI_SUCCESS))))
  }

  lemma SameHeader(cls: FileClass, mem: seq<byte>, a: nat, file: seq<byte>)
    requires Peek(mem, a, EhdrSize(cls)) == Peek(file, 0, EhdrSize(cls))
    ensures HeaderAt(cls, mem, a) == HeaderAt(cls, file, 0)
  {
  }

  lemma HeadersStatusExactly(m: Machine, cls: FileClass)
    requires m.Valid() && m.open && (cls != OtherClass ==> EhdrSize(cls) <= |m.file|)
    ensures ReadElfOf(m, cls).Status() == HeadersStatus(m, cls)
  {
    hide Machine.SetPosition, Machine.PoolFits, Fetch, Machine.Valid, HeaderAt, EntryOffset, Peek, Grows;
    PositionStatusExactly(m, 0);
    SetPositionKeeps(m, 0);
    var r1 := m.SetPosition(0);
    if r1.Failed? || cls == OtherClass { return; }
    FetchStatusExactly(r1.m, EhdrSize(cls));
    FitsSame(m, r1.m, r1.m.Ask().address, EhdrSize(cls), LOADER_DATA);
    FetchSpec(r1.m, EhdrSize(cls));
    var r2 := Fetch(r1.m, EhdrSize(cls));
    if r2.Failed? { return; }
    SameHeader(cls, r2.m.mem, r2.value, m.file);
    var e := HeaderAt(cls, r2.m.mem, r2.value);
    PositionStatusExactly(r2.m, e.phoff);
    var r3 := r2.m.SetPosition(e.phoff);
    if r3.Failed? { return; }
    FetchStatusExactly(r3.m, EntryOffset(cls, e.phnum));
    FitsSame(m.(pools := r2.m.pools), r3.m, r3.m.Ask().address, EntryOffset(cls, e.phnum), LOADER_DATA);
  }

  // ------------------------------------------------------------------ load_kernel_image

  /** The status up to the check of the identity. */
  function IdentifyStatus(m: Machine): Status {
    Then(Refused(m, 0),
         Then(Refused(m, 1),
              FetchStatus(m, 2, RoomAt(m, 2, 16), false, ValidateIdentity(Peek(m.file, 0, 16)))))
  }

  lemma IdentifyStatusExactly(m: Machine)
    requires m.Valid() && |m.file| >= 16
    ensures var r := Identify(m);
      && r.Status() == IdentifyStatus(m)
      && (r.Done? ==> r.m.answers == m.answers && r.m.tick == m.tick + 4)
  {
    hide ReadIdentityOf, ValidateIdentity, Machine.PoolFits, Machine.Valid, Machine.InUse, Peek, Grows;
    IdentityRead(m);
    var r1 := m.Open();
    if r1.Failed? { return; }
    IdentityStatusExactly(r1.m);
    FitsSame(m, r1.m, m.answers(m.tick + 2).address, 16, LOADER_DATA);
    RejectionIsError(Peek(m.file, 0, 16));
  }

  /** The status up to the first segment. */
  function PrepareStatus(m: Machine): Status {
    if IdentifyStatus(m) != EFI_SUCCESS then IdentifyStatus(m)
    else HeadersStatus(m.(tick := m.tick + 4), ClassOfFile(m.file))
  }

  lemma SameHeadersStatus(m: Machine, m': Machine, cls: FileClass)
    requires m'.answers == m.answers && m'.tick == m.tick && m'.file == m.file
    requires |m'.mem| == |m.mem| && m'.pages == m.pages && m'.pools == m.pools
    ensures HeadersStatus(m', cls) == HeadersStatus(m, cls)
  {
    hide Machine.PoolFits, HeaderAt, EntryOffset;
    FitsSame(m, m', m.answers(m.tick + 1).address, EhdrSize(cls), LOADER_DATA);
    var header := m.answers(m.tick + 1).address;
    var pools := m.pools[header := Pool(EhdrSize(cls), LOADER_DATA)];
    var n := EntryOffset(cls, HeaderAt(cls, m.file, 0).phnum);
    FitsSame(m.(pools := pools), m'.(pools := pools), m.answers(m.tick + 4).address, n, LOADER_DATA);
  }

  lemma PrepareStatusExactly(m: Machine)
    requires m.Valid() && |m.file| >= 16
    requires IdentityAccepted(m.file) ==> EhdrSize(ClassOfFile(m.file)) <= |m.file|
    ensures Prepare(m).Status() == PrepareStatus(m)
  {
    hide Identify, ReadElfOf, IdentifyStatus, HeadersStatus, ClassOfFile, IdentityAccepted, Machine.Valid, Grows;
    hide NewSizes;
    IdentifyStatusExactly(m);
    IdentifySpec(m);
    var r := Identify(m);
    if r.Failed? { return; }
    GrowsSame(m, r.m);
    HeadersStatusExactly(r.m, r.value);
    SameHeadersStatus(m.(tick := m.tick + 4), r.m, r.value);
  }

  /** The status from the first segment on. */
  function TableStatus(m: Machine, hs: seq<Phdr>): Status {
    if |hs| == 0 then EFI_INVALID_PARAMETER
    else if RunStatus(m, hs, 0) != EFI_SUCCESS then RunStatus(m, hs, 0)
    else if CountLoadable(hs, 0, |hs|) == 0 then EFI_NOT_FOUND
    else EFI_SUCCESS
  }

  function KernelStatus(m: Machine): Status {
    if PrepareStatus(m) != EFI_SUCCESS then PrepareStatus(m)
    else TableStatus(Prepare(m).m, FileEntries(m.file))
  }

  /**
   The status of `load_kernel_image` for every firmware: that of the first call that the firmware
   refuses or cannot meet, of an identity that is not accepted, of an empty table, or of one without
   loadable segments, whichever comes first.
   */
  lemma KernelStatusExactly(m: Machine)
    requires m.Valid() && |m.file| >= 16 && (IdentityAccepted(m.file) ==> WellFormed(m.file))
    ensures LoadKernelOf(m).Status() == KernelStatus(m)
  {
    hide Prepare, LoadSegments, CleanUp, PrepareStatus, RunStatus, Disjoint, CountLoadable, LoadList, KernelInMemory;
    hide Machine.Valid, Grows, FileEntries, FileHeader, AllConfined, TableAt, HeaderAt, EntryOffset, NewSizes;
    hide IdentityAccepted, ClassOfFile;
    PrepareStatusExactly(m);
    PrepareSpec(m);
    if Prepare(m).Failed? { return; }
    var r1, hs := Prepare(m), FileEntries(m.file);
    HeaderCount(m.file);
    GrowsSame(m, r1.m);
    var Prepared(cls, h, t) := r1.value;
    SegmentsSpec(r1.m, cls, h, t, hs);
    RunStatusExactly(r1.m, hs, 0, 0);
    var r := LoadSegments(r1.m, cls, h, t);
    if !IsError(r.status) {
      RunInMemory(r1.m, cls, h, t, hs);
      GrowsTrans(m, r1.m, r.m);
      CleanUpSpec(m, r.m, h, t);
    }
  }
}
