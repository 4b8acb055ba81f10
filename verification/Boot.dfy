/** The hand-over to the kernel: the end of `efi_main` in main.c. */
module Boot {
  import opened Bits
  import opened Bytes
  import opened ElfFormat
  import opened Uefi
  import opened Frames
  import opened FirmwareServices
  import opened Segment
  import opened SegmentList
  import opened ElfReader
  import opened KernelImage
  import opened MemoryMap

  /** The memory map fields of the boot information, and where the kernel is entered with it. */
  datatype HandOver = HandOver(entry: nat, memoryMap: nat, memoryMapSize: nat, descriptorSize: pos)

  /** `kernel` is present when the kernel was entered; the status is then what its return would give. */
  datatype BootReply = BootReply(m: Machine, status: Status, kernel: Option<HandOver>)

  function BootOf(m: Machine, handles: nat): BootReply
  {
    match LoadKernelOf(m)
    case Failed(m', e) => BootReply(m', e, None)
    case Done(m1, entry) =>
      match m1.FreePool(handles)
      case Failed(m', e) => BootReply(m', e, None)
      case Done(m2, _) =>
        var r := GetMapOf(m2, 0);
        if IsError(r.status) then BootReply(r.m, r.status, None)
        else
          match r.m.ExitBootServices(r.key)
          case Failed(m', e) => BootReply(m', e, None)
          case Done(m3, _) => BootReply(m3, EFI_LOAD_ERROR, Some(HandOver(entry, r.buffer, r.size, m.stride)))
  }

  /** `handles` is the handle buffer of the graphics service; the memory map size is 0 on entry. */
  method EfiMain(fw: Firmware, handles: nat) returns (status: Status, kernel: Option<HandOver>)
    modifies fw
    ensures BootReply(fw.State(), status, kernel) == BootOf(old(fw.State()), handles)
  {
    hide LoadKernelOf, Machine.FreePool, GetMapOf, Machine.ExitBootServices;
    kernel := None;
    var entry;
    status, entry := LoadKernelImage(fw);
    if IsError(status) { return; }
    status := fw.FreePool(handles);
    if IsError(status) { return; }
    var memoryMap, memoryMapSize, memoryMapKey := 0, 0, 0;
    var descriptorSize: pos;
    status, memoryMap, memoryMapSize, memoryMapKey, descriptorSize := GetMap(fw, memoryMapSize);
    if IsError(status) { return; }
    status := fw.ExitBootServices(memoryMapKey);
    if IsError(status) { return; }
    kernel := Some(HandOver(entry, memoryMap, memoryMapSize, descriptorSize));
    status := EFI_LOAD_ERROR;
  }

  // ------------------------------------------------------------------ what the kernel finds

  /** The memory map the kernel is given, as it lies in memory. */
  function KernelMap(m: Machine, k: HandOver): seq<Descriptor> {
    DecodeMap(Peek(m.mem, k.memoryMap, k.memoryMapSize), k.descriptorSize)
  }

  /** The map has a descriptor of type `kind` over page `p`, and no other one over it. */
  ghost predicate Listed(ds: seq<Descriptor>, p: nat, kind: nat) {
    exists i :: 0 <= i < |ds| && OnlyOver(ds, i, p) && ds[i].kind == kind
  }

  /**
   Main theorem.  On any run of a well-formed image that enters the kernel, boot services have ended,
   the map in the boot information describes the memory as it is at that moment, all segments are in
   place, and the map lists each of their pages, once, as loader data.
   */
  lemma KernelEntered(m: Machine, handles: nat)
    requires m.Valid() && WellFormed(m.file)
    ensures var r, hs := BootOf(m, handles), FileEntries(m.file);
      r.kernel.Some? ==>
        var k := r.kernel.value;
        && r.status == EFI_LOAD_ERROR && !r.m.services && r.m.Valid()
        && k.entry == FileHeader(m.file).entry
        && k.descriptorSize == m.stride
        && r.m.DescribedBy(KernelMap(r.m, k))
        && KernelInMemory(m.pages, r.m, hs) && r.m.file == m.file
        && (forall p :: Claimed(hs, 0, |hs|, p) ==> Listed(KernelMap(r.m, k), p, LOADER_DATA))
        && r.m.pools.Keys == m.pools.Keys - {handles} + {k.memoryMap}
  {
    hide LoadKernelOf, Machine.FreePool, GetMapOf, Machine.Valid, Machine.InUse, Machine.DescribedBy, Grows;
    hide FileEntries, FileHeader, AllInPlace, AllConfined, Disjoint, Claimed, CountLoadable, PageSum, Peek;
    hide DecodeMap, Listed, ChangesConfined, NewSizes, KernelBuffers;
    var hs := FileEntries(m.file);
    LoadedKernel(m);
    if LoadKernelOf(m).Failed? { return; }
    var m1 := LoadKernelOf(m).m;
    GrowsSame(m, m1);
    FreePoolState(m1, handles);
    if m1.FreePool(handles).Failed? { return; }
    var m2 := m1.FreePool(handles).m;
    MapIsCurrent(m2);
    var g := GetMapOf(m2, 0);
    GrowsSame(m2, g.m);
    if IsError(g.status) { return; }
    AllInPlaceKept(m1, m2, hs);
    AllInPlaceGrows(m2, g.m, hs);
    var r := BootOf(m, handles);
    AllInPlaceKept(g.m, r.m, hs);
    SameStateValid(g.m, r.m);
    SameDescription(g.m, r.m, KernelMap(r.m, r.kernel.value));
    AllListed(r.m, hs, KernelMap(r.m, r.kernel.value));
  }

  lemma AllInPlaceGrows(m: Machine, m': Machine, hs: seq<Phdr>)
    requires Grows(m, m') && AllInPlace(m, hs, 0, |hs|) && AllConfined(hs)
    ensures AllInPlace(m', hs, 0, |hs|)
  {
  }

  /** A map that describes the memory lists the pages of the segments in it. */
  lemma AllListed(m: Machine, hs: seq<Phdr>, ds: seq<Descriptor>)
    requires m.Valid() && m.DescribedBy(ds) && AllInPlace(m, hs, 0, |hs|)
    ensures forall p :: Claimed(hs, 0, |hs|, p) ==> Listed(ds, p, LOADER_DATA)
  {
    forall p | Claimed(hs, 0, |hs|, p)
      ensures Listed(ds, p, LOADER_DATA)
    {
      var j :| 0 <= j < |hs| && hs[j].Loadable() && InPages(hs[j], p);
      assert Owned(m, hs[j]);
      assert m.DescribesPage(ds, p) && !m.FreePage(p);
    }
  }

  /**
   Reaching the kernel, exactly: the load succeeds, the graphics handle buffer is a live buffer, and
   the firmware does its part of the memory map.  The map key is never stale.
   */
  lemma KernelEnteredExactly(m: Machine, handles: nat)
    requires m.Valid() && WellFormed(m.file)
    ensures BootOf(m, handles).kernel.Some? <==>
      && LoadKernelOf(m).Done?
      && handles in m.pools
      && MapGranted(LoadKernelOf(m).m.FreePool(handles).m)
    ensures IsError(BootOf(m, handles).status)
  {
    hide LoadKernelOf, Machine.FreePool, GetMapOf, MapGranted, Machine.Valid, Grows, FileEntries, FileHeader;
    hide KernelInMemory, ChangesConfined, NewSizes, KernelBuffers;
    LoadedKernel(m);
    if LoadKernelOf(m).Done? {
      var m1 := LoadKernelOf(m).m;
      FreePoolState(m1, handles);
      MapIsCurrent(m1.FreePool(handles).m);
      MapSucceedsExactly(m1.FreePool(handles).m);
    }
  }

  /** The machines on the way to the kernel. */
  lemma OnTheWay(m: Machine, handles: nat)
    requires m.Valid() && WellFormed(m.file)
    ensures var m1 := LoadKernelOf(m).m;
      var m2 := m1.FreePool(handles).m;
      var g, r := GetMapOf(m2, 0).m, BootOf(m, handles);
      r.kernel.Some? ==>
        && Grows(m, m1) && Grows(m2, g) && r.m == g.(services := false)
        && m2.mem == m1.mem && m2.pages == m1.pages && m2.granted == m1.granted && m2.pools == m1.pools - {handles}
  {
    hide LoadKernelOf, Machine.FreePool, GetMapOf, Machine.Valid, Grows, FileEntries, FileHeader;
    hide KernelInMemory, ChangesConfined, NewSizes, KernelBuffers;
    LoadedKernel(m);
    if LoadKernelOf(m).Failed? { return; }
    FreePoolState(LoadKernelOf(m).m, handles);
    MapIsCurrent(LoadKernelOf(m).m.FreePool(handles).m);
  }

  /**
   On the way to the kernel, no byte that was in use before changes, apart from those of the handle
   buffer, which is freed; and no other byte changes outside new pages and new pool buffers.
   */
  lemma KernelKeepsMemory(m: Machine, handles: nat, i: nat)
    requires m.Valid() && WellFormed(m.file) && handles in m.pools && i < |m.mem|
    ensures var r := BootOf(m, handles);
      r.kernel.Some? ==>
        && |r.m.mem| == |m.mem|
        && (m.InUse(i) && !(handles <= i < handles + m.pools[handles].size) ==> r.m.mem[i] == m.mem[i])
        && (r.m.mem[i] != m.mem[i] ==> NewByte(m, r.m, i))
  {
    hide BootOf, LoadKernelOf, GetMapOf, Machine.FreePool, Machine.Valid, WellFormed;
    OnTheWay(m, handles);
    var r := BootOf(m, handles);
    if r.kernel.None? { return; }
    var m1 := LoadKernelOf(m).m;
    var m2 := m1.FreePool(handles).m;
    TwoStretches(m, m1, m2, GetMapOf(m2, 0).m, handles, i);
    SameNewByte(m, GetMapOf(m2, 0).m, r.m, i);
  }

  lemma SameNewByte(m: Machine, a: Machine, b: Machine, i: nat)
    requires a.pages == b.pages && a.granted == b.granted
    ensures NewByte(m, a, i) <==> NewByte(m, b, i)
  {
  }

  /** Memory over two stretches with a buffer freed between them. */
  lemma TwoStretches(m: Machine, m1: Machine, m2: Machine, m': Machine, a: nat, i: nat)
    requires Grows(m, m1) && Grows(m2, m') && i < |m.mem| && a in m.pools
    requires m2.mem == m1.mem && m2.pages == m1.pages && m2.granted == m1.granted && m2.pools == m1.pools - {a}
    ensures |m'.mem| == |m.mem|
    ensures m.InUse(i) && !(a <= i < a + m.pools[a].size) ==> m'.mem[i] == m.mem[i]
    ensures m'.mem[i] != m.mem[i] ==> NewByte(m, m', i)
  {
    hide NewByte, Machine.InUse;
    if m.InUse(i) && !(a <= i < a + m.pools[a].size) {
      StillInUse(m, m1, i);
      OtherBuffersInUse(m1, m2, a, i);
    }
    if m1.mem[i] != m.mem[i] {
      NewByteLater(m, m1, m', i);
    } else if m'.mem[i] != m2.mem[i] {
      NewByteEarlier(m, m2, m', i);
    }
  }

  lemma OtherBuffersInUse(m: Machine, m': Machine, a: nat, i: nat)
    requires a in m.pools && m'.pages == m.pages && m'.pools == m.pools - {a}
    requires m.InUse(i) && !(a <= i < a + m.pools[a].size)
    ensures m'.InUse(i)
  {
    if i / PAGE !in m.pages {
      var b :| b in m.pools && b <= i < b + m.pools[b].size;
      assert b in m'.pools;
    }
  }
}
