/** The ways in which a boot fails, on any machine and for any image. */
module BootFailures {
  import opened Bytes
  import opened ElfFormat
  import opened Uefi
  import opened Frames
  import opened Segment
  import opened SegmentList
  import opened ProgramSegments
  import opened SegmentStatuses
  import opened ElfReader
  import opened KernelImage
  import opened ImageStatuses
  import opened MemoryMap
  import opened Boot

  /** What no call of the loader changes: boot services stay, and NULL is not handed out as a buffer. */
  predicate Steady(m: Machine, m': Machine) {
    m'.services == m.services && (0 !in m.pools ==> 0 !in m'.pools)
  }

  lemma PoolSteady(m: Machine, kind: Kind, size: nat)
    ensures Steady(m, m.AllocatePool(kind, size).m)
  {
    hide Poke;
  }

  lemma CopySteady(m: Machine, n: nat, buffer: nat, paddr: nat)
    ensures Steady(m, m.Read(n, buffer).m) && Steady(m, m.CopyMem(paddr, buffer, n).m)
  {
    hide Poke, Peek;
  }

  lemma PayloadSteady(m: Machine, filesz: nat, paddr: nat)
    ensures Steady(m, CopyPayload(m, filesz, paddr).m)
  {
    hide Machine.AllocatePool, Machine.Read, Machine.CopyMem;
    PoolSteady(m, LOADER_CODE, filesz);
    var r1 := m.AllocatePool(LOADER_CODE, filesz);
    if r1.Done? {
      CopySteady(r1.m, filesz, r1.value, paddr);
      CopySteady(r1.m.Read(filesz, r1.value).m, filesz, r1.value, paddr);
    }
  }

  lemma LoadSteady(m: Machine, h: Phdr)
    ensures Steady(m, Load(m, h).m)
  {
    hide CopyPayload, Machine.PagesFree, Poke, Fill, Range, SizeToPages;
    var r := AtPages(m, h);
    if r.Done? { PayloadSteady(r.m, h.filesz, h.paddr); }
  }

  lemma {:induction false} TableSteady(m: Machine, cls: FileClass, table: nat, n: nat, k: nat, loaded: nat)
    requires k <= n
    ensures Steady(m, LoadTable(m, cls, table, n, k, loaded).m)
    decreases n - k
  {
    hide Load, EntryAt;
    if k == n {
    } else {
      var h := EntryAt(cls, m.mem, table, k);
      if h.Loadable() {
        LoadSteady(m, h);
        if Load(m, h).Done? { TableSteady(Load(m, h).m, cls, table, n, k + 1, (loaded + 1) % 0x1_0000); }
      } else {
        TableSteady(m, cls, table, n, k + 1, loaded);
      }
    }
  }

  lemma FetchSteady(m: Machine, n: nat)
    ensures Steady(m, Fetch(m, n).m)
  {
    hide Machine.AllocatePool, Machine.Read;
    PoolSteady(m, LOADER_DATA, n);
    var r1 := m.AllocatePool(LOADER_DATA, n);
    if r1.Done? { CopySteady(r1.m, n, r1.value, 0); }
  }

  lemma ReadElfSteady(m: Machine, cls: FileClass)
    ensures Steady(m, ReadElfOf(m, cls).m)
  {
    hide Fetch, HeaderAt;
    var r1 := m.SetPosition(0);
    if r1.Failed? || cls == OtherClass { return; }
    FetchSteady(r1.m, EhdrSize(cls));
    var r2 := Fetch(r1.m, EhdrSize(cls));
    if r2.Failed? { return; }
    var e := HeaderAt(cls, r2.m.mem, r2.value);
    var r3 := r2.m.SetPosition(e.phoff);
    if r3.Done? { FetchSteady(r3.m, EntryOffset(cls, e.phnum)); }
  }

  lemma IdentifySteady(m: Machine)
    ensures Steady(m, Identify(m).m)
  {
    hide Fetch, ValidateIdentity, Peek;
    var r1 := m.Open();
    if r1.Failed? { return; }
    var s := r1.m.SetPosition(0);
    if s.Done? { FetchSteady(s.m, EI_NIDENT); }
  }

  lemma PrepareSteady(m: Machine)
    ensures Steady(m, Prepare(m).m)
  {
    hide Identify, ReadElfOf;
    IdentifySteady(m);
    var r := Identify(m);
    if r.Done? { ReadElfSteady(r.m, r.value); }
  }

  lemma KernelSteady(m: Machine)
    ensures Steady(m, LoadKernelOf(m).m)
  {
    hide Prepare, LoadTable, HeaderAt;
    PrepareSteady(m);
    var r1 := Prepare(m);
    if r1.Failed? { return; }
    var Prepared(cls, header, table) := r1.value;
    var n := if cls == OtherClass then 0 else HeaderAt(cls, r1.m.mem, header).phnum;
    TableSteady(r1.m, cls, table, n, 0, 0);
  }

  // ------------------------------------------------------------------ how a boot ends

  /** The map call keeps pages and boot services, fails with an error or returns the current key. */
  lemma MapSteady(m: Machine)
    ensures var r := GetMapOf(m, 0);
      && r.m.pages == m.pages && r.m.services == m.services
      && (if r.status == EFI_SUCCESS then r.key == r.m.mapKey else IsError(r.status))
  {
    hide Machine.RightMap, Machine.PoolFits, Poke;
  }

  /** The machine whose map is fetched: the image is loaded and the handle buffer freed. */
  function ToBeMapped(m: Machine, handles: nat): Machine { LoadKernelOf(m).m.FreePool(handles).m }

  /**
   The status of `efi_main` on every run, and that the kernel is entered only where nothing has failed:
   each failure is handed on, EFI_INVALID_PARAMETER is that of freeing what is no buffer, and the kernel's
   return gives EFI_LOAD_ERROR.  A run that does not enter the kernel leaves boot services on, and the
   pages as the load left them.
   */
  lemma BootEnds(m: Machine, handles: nat)
    ensures var l, g, r := LoadKernelOf(m), GetMapOf(ToBeMapped(m, handles), 0), BootOf(m, handles);
      && (l.Failed? ==> r.status == l.error && r.kernel == None)
      && (l.Done? && handles !in l.m.pools ==> r.status == EFI_INVALID_PARAMETER && r.kernel == None)
      && (l.Done? && handles in l.m.pools && g.status != EFI_SUCCESS ==> r.status == g.status && r.kernel == None)
      && (l.Done? && handles in l.m.pools && g.status == EFI_SUCCESS ==>
            r.status == EFI_LOAD_ERROR && r.kernel.Some? && !r.m.services)
      && (r.kernel.None? ==> r.m.services == m.services && r.m.pages == l.m.pages)
  {
    hide LoadKernelOf, GetMapOf;
    KernelSteady(m);
    MapSteady(ToBeMapped(m, handles));
  }

  /**
   Without a graphics device the handle buffer is NULL, and the kernel is never entered, whatever the
   image and whatever the firmware does.
   */
  lemma NoGraphicsNoKernel(m: Machine)
    requires 0 !in m.pools
    ensures BootOf(m, 0).kernel == None
  {
    hide LoadKernelOf;
    KernelSteady(m);
  }

  // ------------------------------------------------------------------ the status, by the firmware's answers

  /** The status of a boot: of the load, of freeing the handle buffer, of the map, or of the kernel's return. */
  function BootStatus(m: Machine, handles: nat): Status {
    if KernelStatus(m) != EFI_SUCCESS then KernelStatus(m)
    else if handles !in m.pools then EFI_INVALID_PARAMETER
    else if MapStatus(ToBeMapped(m, handles)) != EFI_SUCCESS then MapStatus(ToBeMapped(m, handles))
    else EFI_LOAD_ERROR
  }

  lemma BootStatusExactly(m: Machine, handles: nat)
    requires m.Valid() && |m.file| >= 16 && (IdentityAccepted(m.file) ==> WellFormed(m.file))
    ensures BootOf(m, handles).status == BootStatus(m, handles)
    ensures BootOf(m, handles).kernel.Some? <==>
      KernelStatus(m) == EFI_SUCCESS && handles in m.pools && MapStatus(ToBeMapped(m, handles)) == EFI_SUCCESS
  {
    hide BootOf, LoadKernelOf, GetMapOf, KernelStatus, MapStatus, Machine.FreePool, Machine.Valid, WellFormed;
    hide IdentityAccepted, Grows, KernelInMemory, ChangesConfined, FileHeader, FileEntries, NewSizes, KernelBuffers;
    BootEnds(m, handles);
    KernelStatusExactly(m);
    var l := LoadKernelOf(m);
    if l.Done? {
      AcceptedIfLoaded(m);
      LoadedKernel(m);
      FreePoolState(l.m, handles);
      MapStatusExactly(ToBeMapped(m, handles));
    }
  }

  lemma AcceptedIfLoaded(m: Machine)
    requires m.Valid() && |m.file| >= 16
    ensures LoadKernelOf(m).Done? ==> IdentityAccepted(m.file)
  {
    hide Prepare, Finish, Machine.Valid, Grows, IdentityAccepted, ClassOfFile, FileHeader, WellFormed, NewSizes;
    PrepareSpec(m);
  }

  // ------------------------------------------------------------------ EFI_LOAD_ERROR means the kernel ran

  /** The firmware never refuses a call with status `e`. */
  ghost predicate NeverSays(m: Machine, e: Error) {
    forall t: nat :: m.answers(t).refusal != Some(e)
  }

  lemma {:induction false} RunNeverLoadError(m: Machine, hs: seq<Phdr>, k: nat)
    requires m.Valid() && k <= |hs| && AllConfined(hs) && NeverSays(m, EFI_LOAD_ERROR)
    ensures RunStatus(m, hs, k) != EFI_LOAD_ERROR
    decreases |hs| - k
  {
    hide Load, Confined, Machine.Valid, Grows, InPlace, Free, BufferFits;
    if k == |hs| {
    } else {
      RunNeverLoadError(m, hs, k + 1);
      if hs[k].Loadable() {
        assert Confined(hs[k]);
        StepSpec(m, hs[k]);
        GrowsSame(m, Load(m, hs[k]).m);
        RunNeverLoadError(Load(m, hs[k]).m, hs, k + 1);
      }
    }
  }

  lemma PrepareNeverLoadError(m: Machine)
    requires NeverSays(m, EFI_LOAD_ERROR)
    ensures PrepareStatus(m) != EFI_LOAD_ERROR
  {
    hide RoomAt, TableRoom, HeaderAt, Peek;
  }

  lemma MapNeverLoadError(m: Machine)
    requires NeverSays(m, EFI_LOAD_ERROR)
    ensures MapStatus(m) != EFI_LOAD_ERROR
  {
    hide Machine.RightMap, Machine.PoolFits;
  }

  lemma KernelNeverLoadError(m: Machine)
    requires m.Valid() && |m.file| >= 16 && (IdentityAccepted(m.file) ==> WellFormed(m.file))
    requires NeverSays(m, EFI_LOAD_ERROR)
    ensures KernelStatus(m) != EFI_LOAD_ERROR
  {
    hide Prepare, PrepareStatus, RunStatus, CountLoadable, Machine.Valid, Grows, FileEntries, ClassOfFile, FileHeader;
    hide IdentityAccepted, NewSizes, TableAt, HeaderAt, AllConfined;
    PrepareNeverLoadError(m);
    PrepareStatusExactly(m);
    PrepareSpec(m);
    if Prepare(m).Done? {
      GrowsSame(m, Prepare(m).m);
      RunNeverLoadError(Prepare(m).m, FileEntries(m.file), 0);
    }
  }

  /** The status alone tells whether the kernel was entered, if the firmware does not use it itself. */
  lemma LoadErrorTells(m: Machine, handles: nat)
    requires m.Valid() && |m.file| >= 16 && (IdentityAccepted(m.file) ==> WellFormed(m.file))
    requires NeverSays(m, EFI_LOAD_ERROR)
    ensures BootOf(m, handles).status == EFI_LOAD_ERROR <==> BootOf(m, handles).kernel.Some?
  {
    hide BootOf, LoadKernelOf, MapStatus, KernelStatus, Machine.FreePool, Machine.Valid, Grows;
    hide WellFormed, IdentityAccepted, KernelInMemory, ChangesConfined, FileHeader, FileEntries, NewSizes;
    hide KernelBuffers;
    BootStatusExactly(m, handles);
    KernelNeverLoadError(m);
    KernelStatusExactly(m);
    if LoadKernelOf(m).Done? {
      AcceptedIfLoaded(m);
      LoadedKernel(m);
      GrowsSame(m, LoadKernelOf(m).m);
      FreePoolState(LoadKernelOf(m).m, handles);
      MapNeverLoadError(ToBeMapped(m, handles));
    }
  }
}
