/** `load_kernel_image` of loader.c: from the file on disk to the kernel in memory. */
module KernelImage {
  import opened Bytes
  import opened ElfFormat
  import opened Uefi
  import opened Frames
  import opened FirmwareServices
  import opened Segment
  import opened SegmentList
  import opened ProgramSegments
  import opened ElfReader

  // ------------------------------------------------------------------ what the code does

  datatype Prepared = Prepared(cls: FileClass, header: nat, table: nat)

  function Check(m: Machine, status: Status): Outcome<()> {
    if IsError(status) then Failed(m, status) else Done(m, ())
  }

  /** Opens the file, and reads and checks its identity. */
  function Identify(m: Machine): Outcome<FileClass> {
    var (m1, _) :- m.Open();
    var (m2, identity) :- ReadIdentityOf(m1);
    var id := Peek(m2.mem, identity, EI_NIDENT);
    var (m3, _) :- Check(m2, ValidateIdentity(id));
    var (m4, _) :- m3.FreePool(identity);
    Done(m4, ClassOf(id[EI_CLASS]))
  }

  /** Everything before the first segment is touched. */
  function Prepare(m: Machine): Outcome<Prepared> {
    var (m1, cls) :- Identify(m);
    var (m2, b) :- ReadElfOf(m1, cls);
    Done(m2, Prepared(cls, b.header, b.table))
  }

  function CleanUp(m: Machine, header: nat, table: nat): Outcome<()> {
    var (m1, _) :- m.Close();
    var (m2, _) :- m1.FreePool(header);
    m2.FreePool(table)
  }

  /** Segments and clean-up. */
  function Finish(m: Machine, image: Prepared): Outcome<()> {
    var r := LoadSegments(m, image.cls, image.header, image.table);
    var (m1, _) :- Check(r.m, r.status);
    CleanUp(m1, image.header, image.table)
  }

  /** The value is the entry point. */
  function LoadKernelOf(m: Machine): Outcome<nat> {
    var (m1, image) :- Prepare(m);
    var entry := HeaderAt(image.cls, m1.mem, image.header).entry;
    var (m2, _) :- Finish(m1, image);
    Done(m2, entry)
  }

  method LoadKernelImage(fw: Firmware) returns (status: Status, entry: nat)
    modifies fw
    ensures var r := LoadKernelOf(old(fw.State()));
      fw.State() == r.m && status == r.Status() && (r.Done? ==> entry == r.value)
  {
    hide Machine.Open, Machine.Close, Machine.FreePool, ReadIdentityOf, ReadElfOf, LoadSegments;
    hide HeaderAt, Peek, ValidateIdentity, ClassOf;
    entry := 0;
    status := fw.Open();
    if IsError(status) { return; }
    var identity;
    status, identity := ReadElfIdentity(fw);
    if IsError(status) { return; }
    var id := Peek(fw.mem, identity, EI_NIDENT);
    var cls := ClassOf(id[EI_CLASS]);
    status := ValidateIdentity(id);
    if IsError(status) { return; }
    status := fw.FreePool(identity);
    if IsError(status) { return; }
    var header, table;
    status, header, table := ReadElfFile(fw, cls);
    if IsError(status) { return; }
    entry := HeaderAt(cls, fw.mem, header).entry;
    var loaded, p;
    status, loaded, p := LoadProgramSegments(fw, cls, header, table);
    if IsError(status) { return; }
    status := fw.Close();
    if IsError(status) { return; }
    status := fw.FreePool(header);
    if IsError(status) { return; }
    status := fw.FreePool(table);
    if IsError(status) { return; }
  }

  // ------------------------------------------------------------------ what it guarantees

  /** A buffer read from the table's place in the file holds the file's table. */
  lemma TableRead(m: Machine, table: nat)
    requires var cls, e := ClassOfFile(m.file), FileHeader(m.file);
      && m.Valid() && table in m.pools && m.pools[table].size == EntryOffset(cls, e.phnum)
      && Peek(m.mem, table, EntryOffset(cls, e.phnum)) == Peek(m.file, e.phoff, EntryOffset(cls, e.phnum))
      && StrideRight(cls, e.phentsize, e.phnum)
    ensures TableAt(m, ClassOfFile(m.file), table, FileEntries(m.file))
  {
    hide DecodeEhdr, DecodePhdr, Peek, EntryAt, Table, Machine.Valid;
    var cls, e, hs := ClassOfFile(m.file), FileHeader(m.file), FileEntries(m.file);
    PoolBound(m, table);
    TableStrides(cls, m.file, e.phoff, e.phentsize, e.phnum);
    forall j | 0 <= j < |hs|
      ensures EntryAt(cls, m.mem, table, j) == hs[j]
    {
      EntriesRead(m.mem, m.file, cls, table, e.phoff, e.phnum, j);
      ReadAtStride(cls, m.file, e.phoff, e.phnum, j);
    }
  }

  /** Up to the check of the identity. */
  lemma IdentityRead(m: Machine)
    requires m.Valid()
    ensures var r1 := m.Open();
      && r1.m.Valid() && Grows(m, r1.m) && r1.m.pages == m.pages
      && (r1.Done? ==>
            var r2 := ReadIdentityOf(r1.m);
            && r1.m.open && r2.m.Valid() && Grows(m, r2.m) && r2.m.pages == m.pages && r2.m.open
            && (r2.Done? ==>
                  var r := r2.m.FreePool(r2.value);
                  && r.Done? && r.m.Valid() && Grows(m, r.m) && r.m.pages == m.pages && r.m.pools == m.pools
                  && r2.m.pools == m.pools[r2.value := Pool(EI_NIDENT, LOADER_DATA)] && r.m.open
                  && r.m.granted == m.granted + [Grant(r2.value, EI_NIDENT)]
                  && (EI_NIDENT <= |m.file| ==>
                        Peek(r2.m.mem, r2.value, EI_NIDENT) == Peek(m.file, 0, EI_NIDENT))))
  {
    hide ReadIdentityOf, Machine.FreePool, Machine.Valid, Machine.InUse, Grows, Peek;
    var r1 := m.Open();
    SameGrows(m, r1.m);
    SameStateValid(m, r1.m);
    if r1.Failed? { return; }
    ReadIdentitySpec(r1.m);
    var r2 := ReadIdentityOf(r1.m);
    GrowsTrans(m, r1.m, r2.m);
    if r2.Failed? { return; }
    FreePoolKeeps(m, r2.m, r2.value);
    assert r2.m.FreePool(r2.value).m.pools == m.pools;
  }

  lemma AcceptedIdentity(file: seq<byte>, id: seq<byte>)
    requires |id| == EI_NIDENT && !IsError(ValidateIdentity(id))
    ensures ClassOf(id[EI_CLASS]) != OtherClass
    ensures id == Peek(file, 0, EI_NIDENT) ==> IdentityAccepted(file) && ClassOf(id[EI_CLASS]) == ClassOfFile(file)
  {
    RejectionIsError(id);
  }

  lemma OneSize(m: Machine, m': Machine)
    ensures forall g :: m'.granted == m.granted + [g] ==> NewSizes(m, m') == [g.size]
  {
  }

  /** Identifying an image leaves ownership as it was. */
  lemma IdentifySpec(m: Machine)
    requires m.Valid()
    ensures var r := Identify(m);
      && r.m.Valid() && Grows(m, r.m) && r.m.pages == m.pages && m.granted <= r.m.granted
      && (r.Done? ==>
            && r.m.pools == m.pools && r.m.open && NewSizes(m, r.m) == [EI_NIDENT] && r.value != OtherClass
            && (EI_NIDENT <= |m.file| ==> IdentityAccepted(m.file) && r.value == ClassOfFile(m.file)))
  {
    hide Machine.Open, ReadIdentityOf, ValidateIdentity, ClassOf, Machine.FreePool, Machine.Valid, Machine.InUse;
    hide Peek, Grows, IdentityAccepted, ClassOfFile, NewSizes;
    IdentityRead(m);
    var r1 := m.Open();
    GrowsSame(m, r1.m);
    if r1.Failed? { return; }
    var r2 := ReadIdentityOf(r1.m);
    GrowsSame(m, r2.m);
    if r2.Failed? { return; }
    var id := Peek(r2.m.mem, r2.value, EI_NIDENT);
    if IsError(ValidateIdentity(id)) { return; }
    AcceptedIdentity(m.file, id);
    OneSize(m, r2.m.FreePool(r2.value).m);
    GrowsSame(m, r2.m.FreePool(r2.value).m);
  }

  /**
   Before segments are loaded no page changes hands, whatever the file; and after a success three
   buffers have been handed out, of which two remain: they hold the header and the table of the file.
   */
  lemma PrepareSpec(m: Machine)
    requires m.Valid()
    ensures var r := Prepare(m);
      && r.m.Valid() && Grows(m, r.m) && r.m.pages == m.pages
      && (r.Done? ==>
            var Prepared(cls, h, t) := r.value;
            var e := HeaderAt(cls, r.m.mem, h);
            && cls != OtherClass && h !in m.pools && t !in m.pools && h != t && r.m.open
            && r.m.pools == m.pools[h := Pool(EhdrSize(cls), LOADER_DATA)]
                                   [t := Pool(EntryOffset(cls, e.phnum), LOADER_DATA)]
            && m.granted <= r.m.granted
            && NewSizes(m, r.m) == [EI_NIDENT, EhdrSize(cls), EntryOffset(cls, e.phnum)]
            && (EI_NIDENT <= |m.file| ==> IdentityAccepted(m.file) && cls == ClassOfFile(m.file))
            && (EhdrSize(cls) <= |m.file| ==> e == FileHeader(m.file))
            && (WellFormed(m.file) ==>
                  cls == ClassOfFile(m.file) && e == FileHeader(m.file)
                  && TableAt(r.m, cls, t, FileEntries(m.file))))
  {
    hide Identify, ReadElfOf, Machine.Valid, Machine.InUse, IdentityAccepted, ClassOfFile, NewSizes;
    hide DecodeEhdr, DecodePhdr, Peek, Grows, TableAt, FileEntries, AllConfined, EntryOffset;
    IdentifySpec(m);
    var r1 := Identify(m);
    GrowsSame(m, r1.m);
    if r1.Failed? { return; }
    var cls := r1.value;
    ReadElfSpec(r1.m, cls);
    var r2 := ReadElfOf(r1.m, cls);
    GrowsTrans(m, r1.m, r2.m);
    GrowsSame(m, r2.m);
    if r2.Failed? { return; }
    TwoSizes(r1.m, r2.m);
    SizesAppend(m, r1.m, r2.m);
    if WellFormed(m.file) {
      TableRead(r2.m, r2.value.table);
    }
  }

  lemma TwoSizes(m: Machine, m': Machine)
    ensures forall g, g' :: m'.granted == m.granted + [g] + [g'] ==> NewSizes(m, m') == [g.size, g'.size]
  {
  }

  /** All segments are in memory, in pages of their own beyond those owned before. */
  ghost predicate KernelInMemory(before: map<nat, Kind>, m: Machine, hs: seq<Phdr>) {
    && AllInPlace(m, hs, 0, |hs|)
    && Disjoint(hs, 0, |hs|)
    && (forall p :: Claimed(hs, 0, |hs|, p) ==> p !in before)
    && (forall p :: p in m.pages <==> p in before || Claimed(hs, 0, |hs|, p))
    && |m.pages| == |before| + PageSum(hs, 0)
    && CountLoadable(hs, 0, |hs|) > 0
  }

  lemma RunInMemory(m: Machine, cls: FileClass, header: nat, table: nat, hs: seq<Phdr>)
    requires m.Valid() && cls != OtherClass && TableAt(m, cls, table, hs)
    requires AllConfined(hs) && HeaderAt(cls, m.mem, header).phnum == |hs| < 0x1_0000
    ensures var r := LoadSegments(m, cls, header, table);
      && r.m.Valid() && Grows(m, r.m) && m.granted <= r.m.granted
      && (!IsError(r.status) ==>
            && r.m.pools == m.pools && KernelInMemory(m.pages, r.m, hs)
            && NewSizes(m, r.m) == BufferSizes(hs, 0, |hs|))
  {
    hide LoadSegments, LoadList, AllConfined, AllInPlace, Disjoint, Claimed, PageSum, CountLoadable;
    hide Machine.Valid, Machine.InUse, Grows, TableAt, HeaderAt, NewSizes, BufferSizes;
    SegmentsSpec(m, cls, header, table, hs);
    RunSpec(m, hs, 0, 0);
    RunPages(m, hs, 0, 0);
    RunPageCount(m, hs, 0, 0);
    RunBuffers(m, hs, 0, 0);
    SameGrows(m, m);
    GrowsSame(m, m);
  }

  /** From the buffers in place to the end. */
  lemma FinishSpec(m0: Machine, m: Machine, image: Prepared, hs: seq<Phdr>)
    requires Grows(m0, m) && m.Valid() && image.cls != OtherClass && TableAt(m, image.cls, image.table, hs)
    requires AllConfined(hs) && HeaderAt(image.cls, m.mem, image.header).phnum == |hs| < 0x1_0000
    requires image.header in m.pools && image.table in m.pools && image.header != image.table
    requires image.header !in m0.pools && image.table !in m0.pools
    ensures var r := Finish(m, image);
      && m.granted <= r.m.granted
      && (r.Done? ==>
            && r.m.Valid() && Grows(m0, r.m) && !r.m.open
            && r.m.pools == m.pools - {image.header} - {image.table}
            && KernelInMemory(m.pages, r.m, hs)
            && NewSizes(m, r.m) == BufferSizes(hs, 0, |hs|))
  {
    hide LoadSegments, CleanUp, AllConfined, KernelInMemory, TableAt, HeaderAt, NewSizes, BufferSizes;
    hide Machine.Valid, Machine.InUse, Grows;
    RunInMemory(m, image.cls, image.header, image.table, hs);
    var r := LoadSegments(m, image.cls, image.header, image.table);
    if IsError(r.status) { return; }
    GrowsTrans(m0, m, r.m);
    CleanUpSpec(m0, r.m, image.header, image.table);
    StillInMemory(m.pages, r.m, CleanUp(r.m, image.header, image.table).m, hs);
    SameGrants(m, r.m, CleanUp(r.m, image.header, image.table).m);
  }

  lemma SameGrants(m: Machine, a: Machine, b: Machine)
    requires a.granted == b.granted && m.granted <= a.granted
    ensures NewSizes(m, a) == NewSizes(m, b)
  {
  }

  /** Where bytes may change while a kernel is loaded: in its pages and in the buffers handed out. */
  ghost predicate ChangesConfined(m: Machine, m': Machine, hs: seq<Phdr>) {
    && |m'.mem| == |m.mem|
    && forall i :: 0 <= i < |m.mem| && m'.mem[i] != m.mem[i] ==>
      Claimed(hs, 0, |hs|, i / PAGE) || InNewBuffer(m, m', i)
  }

  lemma ChangesAre(m: Machine, m': Machine, hs: seq<Phdr>)
    requires Grows(m, m') && KernelInMemory(m.pages, m', hs)
    ensures ChangesConfined(m, m', hs)
  {
    hide AllInPlace, Disjoint, Claimed, PageSum, CountLoadable, Machine.InUse;
  }

  /** The pool buffers that loading a kernel needs, in order: identity, header, table and payloads. */
  function KernelBuffers(cls: FileClass, hs: seq<Phdr>): seq<nat> {
    [EI_NIDENT, EhdrSize(cls), EntryOffset(cls, |hs|)] + BufferSizes(hs, 0, |hs|)
  }

  /**
   Main theorem.  If loading a well-formed image does not fail, all of its segments are in memory,
   disjoint, in pages that were free; the pages taken are exactly theirs; the pool is as before; the
   file is closed; nothing that was in use has changed, and neither has any other byte outside the
   segments' pages and the temporary buffers, which are those expected.
   */
  lemma LoadedKernel(m: Machine)
    requires m.Valid() && WellFormed(m.file)
    ensures var r, hs := LoadKernelOf(m), FileEntries(m.file);
      r.Done? ==>
        && r.m.Valid() && Grows(m, r.m)
        && r.m.pools == m.pools && !r.m.open
        && r.value == FileHeader(m.file).entry
        && KernelInMemory(m.pages, r.m, hs)
        && ChangesConfined(m, r.m, hs)
        && m.granted <= r.m.granted && NewSizes(m, r.m) == KernelBuffers(ClassOfFile(m.file), hs)
  {
    hide Prepare, Finish, AllConfined, KernelInMemory, ChangesConfined, TableAt, EntryOffset, HeaderAt;
    hide Machine.Valid, Machine.InUse, Grows, FileEntries, NewSizes, BufferSizes;
    PrepareSpec(m);
    var r1 := Prepare(m);
    if r1.Failed? { return; }
    var hs := FileEntries(m.file);
    HeaderCount(m.file);
    FinishSpec(m, r1.m, r1.value, hs);
    var r := Finish(r1.m, r1.value);
    if r.Failed? { return; }
    assert r1.m.pools - {r1.value.header} - {r1.value.table} == m.pools;
    ChangesAre(m, r.m, hs);
    SizesAppend(m, r1.m, r.m);
  }

  lemma StillInMemory(before: map<nat, Kind>, m: Machine, m': Machine, hs: seq<Phdr>)
    requires KernelInMemory(before, m, hs) && m'.mem == m.mem && m'.file == m.file && m'.pages == m.pages
    ensures KernelInMemory(before, m', hs)
  {
  }

  /**
   A failing load still keeps everything in use, but once the headers are read it leaves the file open and
   their two buffers allocated.  Either no page has changed hands, or exactly the
   segments before some header are complete in memory and at most that header's pages are also taken.
   */
  lemma FailedKernel(m: Machine)
    requires m.Valid() && WellFormed(m.file)
    ensures var r, hs := LoadKernelOf(m), FileEntries(m.file);
      r.Failed? ==>
        && r.m.Valid() && Grows(m, r.m)
        && (Prepare(m).Done? ==>
              r.m.open && Prepare(m).value.header in r.m.pools && Prepare(m).value.table in r.m.pools)
        && (|| r.m.pages == m.pages
            || exists stop: nat :: stop < |hs| && hs[stop].Loadable() && LoadedUpTo(m, r.m, hs, stop))
  {
    hide Prepare, LoadSegments, CleanUp, AllConfined, TableAt, HeaderAt, EntryOffset, LoadedUpTo, NewSizes;
    hide Machine.Valid, Machine.InUse, Grows, FileEntries, KernelInMemory;
    PrepareSpec(m);
    var r1 := Prepare(m);
    if r1.Failed? { return; }
    var Prepared(cls, h, t) := r1.value;
    var hs := FileEntries(m.file);
    HeaderCount(m.file);
    GrowsSame(m, r1.m);
    RunStopped(r1.m, cls, h, t, hs);
    var r := LoadSegments(r1.m, cls, h, t);
    GrowsTrans(m, r1.m, r.m);
    PoolsStay(r1.m, r.m);
    if IsError(r.status) {
      if r.m.pages != r1.m.pages { SameStart(r1.m, m, r.m, hs, r.stop); }
    } else {
      CleanUpSpec(m, r.m, h, t);
    }
  }

  lemma PoolsStay(m: Machine, m': Machine)
    requires Grows(m, m')
    ensures forall a :: a in m.pools ==> a in m'.pools
  {
  }

  /** A run that ends in an error has taken no pages, or stopped at a loadable header. */
  lemma RunStopped(m: Machine, cls: FileClass, header: nat, table: nat, hs: seq<Phdr>)
    requires m.Valid() && cls != OtherClass && TableAt(m, cls, table, hs)
    requires AllConfined(hs) && HeaderAt(cls, m.mem, header).phnum == |hs| < 0x1_0000
    ensures var r := LoadSegments(m, cls, header, table);
      && r.m.Valid() && Grows(m, r.m) && (!IsError(r.status) ==> r.m.pools == m.pools) && r.m.open == m.open
      && (IsError(r.status) && r.m.pages != m.pages ==>
            r.stop < |hs| && hs[r.stop].Loadable() && LoadedUpTo(m, r.m, hs, r.stop))
  {
    hide LoadSegments, LoadList, AllConfined, AllInPlace, Disjoint, Claimed, CountLoadable;
    hide Machine.Valid, Machine.InUse, Grows, TableAt, HeaderAt;
    SegmentsSpec(m, cls, header, table, hs);
    RunSpec(m, hs, 0, 0);
    RunPages(m, hs, 0, 0);
    StopBound(m, hs, 0, 0);
    SameGrows(m, m);
    if |hs| > 0 && LoadList(m, hs, 0, 0).stop == |hs| && CountLoadable(hs, 0, |hs|) == 0 {
      NothingLoadable(m, hs, 0, 0);
    }
  }

  lemma SameStart(a: Machine, b: Machine, m: Machine, hs: seq<Phdr>, stop: nat)
    requires LoadedUpTo(a, m, hs, stop) && a.pages == b.pages
    ensures LoadedUpTo(b, m, hs, stop)
  {
  }

  /** The segments before header `stop` are in memory, and only pages up to that header's are new. */
  ghost predicate LoadedUpTo(m: Machine, m': Machine, hs: seq<Phdr>, stop: nat) {
    && AllInPlace(m', hs, 0, stop) && Disjoint(hs, 0, stop)
    && (|| (forall p :: p in m'.pages <==> p in m.pages || Claimed(hs, 0, stop, p))
        || (forall p :: p in m'.pages <==> p in m.pages || Claimed(hs, 0, stop + 1, p)))
  }

  /** A table without loadable segments leaves the machine alone. */
  lemma {:induction false} NothingLoadable(m: Machine, hs: seq<Phdr>, k: nat, loaded: nat)
    requires k <= |hs| && CountLoadable(hs, k, |hs|) == 0
    ensures LoadList(m, hs, k, loaded) == LoadReply(m, EFI_SUCCESS, loaded, |hs|)
    decreases |hs| - k
  {
    if k == |hs| {
    } else {
      NothingLoadable(m, hs, k + 1, loaded);
    }
  }

  /** An entry point in the file-backed part of a segment is in owned pages and holds the file's byte. */
  lemma EntryLoaded(m: Machine, j: nat)
    requires m.Valid() && WellFormed(m.file)
    ensures var r, hs := LoadKernelOf(m), FileEntries(m.file);
      r.Done? && j < |hs| && hs[j].Loadable() && InFile(hs[j], |m.file|) ==>
        && FileHeader(m.file).entry == r.value
        && (hs[j].paddr <= r.value < hs[j].paddr + hs[j].filesz ==> ByteInPlace(r.m, hs[j], r.value))
  {
    hide LoadKernelOf, FileEntries, FileHeader, Machine.Valid, Grows, Confined, ByteInPlace, Disjoint, Claimed;
    hide PageSum, CountLoadable, InPlace;
    LoadedKernel(m);
    var r, hs := LoadKernelOf(m), FileEntries(m.file);
    if r.Done? && j < |hs| && hs[j].Loadable() && InFile(hs[j], |m.file|)
       && hs[j].paddr <= r.value < hs[j].paddr + hs[j].filesz
    {
      GrowsSame(m, r.m);
      assert InPlace(r.m, hs[j]) && Confined(hs[j]);
      EntryByte(r.m, hs[j], r.value);
    }
  }

  /** The byte at `i` is in a page owned as loader data, and is the file's byte for it. */
  ghost predicate ByteInPlace(m: Machine, h: Phdr, i: nat)
    requires h.paddr <= i
  {
    && i / PAGE in m.pages && m.pages[i / PAGE] == LOADER_DATA
    && i < |m.mem| && h.offset + (i - h.paddr) < |m.file|
    && m.mem[i] == m.file[h.offset + (i - h.paddr)]
  }

  lemma EntryByte(m: Machine, h: Phdr, i: nat)
    requires InPlace(m, h) && InFile(h, |m.file|) && Confined(h) && h.paddr <= i < h.paddr + h.filesz
    ensures ByteInPlace(m, h, i)
  {
  }

  lemma HeaderCount(file: seq<byte>)
    ensures |FileEntries(file)| == FileHeader(file).phnum < 0x1_0000
  {
  }

  lemma CleanUpSpec(m0: Machine, m: Machine, h: nat, t: nat)
    requires m.Valid() && Grows(m0, m) && h in m.pools && t in m.pools && h != t
    requires h !in m0.pools && t !in m0.pools
    ensures var r := CleanUp(m, h, t);
      && r.Done? && r.m.Valid() && Grows(m0, r.m) && !r.m.open && r.m.pages == m.pages && r.m.mem == m.mem
      && r.m.granted == m.granted && r.m.file == m.file && r.m.pools == m.pools - {h} - {t}
  {
    hide Machine.FreePool, Machine.Valid, Machine.InUse, Grows;
    var m1 := m.Close().m;
    SameStateValid(m, m1);
    SameGrows(m, m1);
    GrowsTrans(m0, m, m1);
    FreePoolKeeps(m0, m1, h);
    FreePoolKeeps(m0, m1.FreePool(h).m, t);
  }

  lemma AllInPlaceKept(m: Machine, m': Machine, hs: seq<Phdr>)
    requires AllInPlace(m, hs, 0, |hs|) && m'.mem == m.mem && m'.file == m.file && m'.pages == m.pages
    ensures AllInPlace(m', hs, 0, |hs|)
  {
  }
}
