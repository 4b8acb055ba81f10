/** Loading one program segment: `load_segment` of loader.c. */
module Segment {
  import opened Bytes
  import opened ElfFormat
  import opened Uefi
  import opened Frames
  import opened FirmwareServices

  // ------------------------------------------------------------------ what the code does

  /** Reads the payload through a temporary pool buffer into its place. */
  function CopyPayload(m: Machine, filesz: nat, paddr: nat): Outcome<()> {
    var (m1, buffer) :- m.AllocatePool(LOADER_CODE, filesz);
    var (m2, _) :- m1.Read(filesz, buffer);
    var (m3, _) :- m2.CopyMem(paddr, buffer, filesz);
    m3.FreePool(buffer)
  }

  /** Zero fills the rest of the segment, in 64-bit unsigned arithmetic. */
  function ZeroFill(m: Machine, filesz: nat, memsz: nat, paddr: nat): Outcome<()> {
    var count := (memsz - filesz) % WORD;
    if count > 0 then m.SetMem((paddr + filesz) % WORD, count, 0) else Done(m, ())
  }

  function LoadSegmentOf(m: Machine, offset: nat, filesz: nat, memsz: nat, paddr: nat): Outcome<()> {
    var (m1, _) :- m.SetPosition(offset);
    var (m2, _) :- m1.AllocatePages(LOADER_DATA, SizeToPages(memsz), paddr);
    var (m3, _) :- if filesz > 0 then CopyPayload(m2, filesz, paddr) else Done(m2, ());
    ZeroFill(m3, filesz, memsz, paddr)
  }

  method LoadSegment(fw: Firmware, offset: nat, filesz: nat, memsz: nat, paddr: nat) returns (status: Status)
    modifies fw
    ensures var r := LoadSegmentOf(old(fw.State()), offset, filesz, memsz, paddr);
      fw.State() == r.m && status == r.Status()
  {
    hide Machine.AllocatePages, Machine.AllocatePool, Machine.FreePool, Machine.Read, Machine.CopyMem;
    hide Machine.SetMem, Machine.SetPosition;
    var programData, readSize := 0, 0;
    var pageCount := SizeToPages(memsz);

    status := fw.SetPosition(offset);
    if IsError(status) { return; }
    status := fw.AllocatePages(LOADER_DATA, pageCount, paddr);
    if IsError(status) { return; }

    if filesz > 0 {
      readSize := filesz;
      status, programData := fw.AllocatePool(LOADER_CODE, readSize, programData);
      if IsError(status) { return; }
      status, readSize := fw.Read(readSize, programData);
      if IsError(status) { return; }
      status := fw.CopyMem(paddr, programData, filesz);
      if IsError(status) { return; }
      status := fw.FreePool(programData);
      if IsError(status) { return; }
    }

    var zeroFillStart := (paddr + filesz) % WORD;
    var zeroFillCount := (memsz - filesz) % WORD;
    if zeroFillCount > 0 {
      status := fw.SetMem(zeroFillStart, zeroFillCount, 0);
      if IsError(status) { return; }
    }
    status := EFI_SUCCESS;
  }

  // ------------------------------------------------------------------ what it is for

  /** The number of pages is the least that holds the bytes. */
  lemma PagesLeast(n: nat)
    ensures var count := SizeToPages(n); n <= count * 4096 && (count > 0 ==> (count - 1) * 4096 < n)
  {
  }

  /** The pages a segment occupies. */
  predicate InPages(h: Phdr, p: nat) {
    h.paddr / PAGE <= p < h.paddr / PAGE + SizeToPages(h.memsz)
  }

  function Pages(h: Phdr): map<nat, Kind> {
    Range(h.paddr / PAGE, SizeToPages(h.memsz), LOADER_DATA)
  }

  /** The segment's pages are free. */
  predicate Free(m: Machine, h: Phdr) {
    m.PagesFree(h.paddr / PAGE, SizeToPages(h.memsz))
  }

  /** The segment stays inside its own pages.  Page-aligned addresses with `filesz <= memsz` do. */
  predicate Confined(h: Phdr) {
    && h.filesz <= h.memsz < WORD
    && (h.memsz > 0 ==> h.paddr % PAGE + h.memsz <= SizeToPages(h.memsz) * PAGE)
  }

  predicate InFile(h: Phdr, size: nat) {
    h.filesz > 0 ==> h.offset + h.filesz <= size
  }

  /** What the loader takes for granted about a segment and the file it comes from. */
  predicate Loads(h: Phdr, size: nat) {
    Confined(h) && InFile(h, size)
  }

  /** Memory holds the segment: its file bytes, then zeros. */
  ghost predicate Holds(m: Machine, h: Phdr) {
    && (h.memsz > 0 ==> h.paddr + h.memsz <= |m.mem|)
    && (h.filesz > 0 ==> h.offset + h.filesz <= |m.file|)
    && (h.filesz > 0 ==> Peek(m.mem, h.paddr, h.filesz) == m.file[h.offset..h.offset + h.filesz])
    && (forall i :: h.paddr + h.filesz <= i < h.paddr + h.memsz ==> m.mem[i] == 0)
  }

  /** The pages of a segment are owned, as loader data. */
  ghost predicate Owned(m: Machine, h: Phdr) {
    forall p :: InPages(h, p) ==> p in m.pages && m.pages[p] == LOADER_DATA
  }

  function Sizes(gs: seq<Grant>): seq<nat> {
    seq<nat>(|gs|, i requires 0 <= i < |gs| => gs[i].size)
  }

  /** The sizes of the pool buffers handed out between two machines. */
  function NewSizes(m: Machine, m': Machine): seq<nat>
    requires |m.granted| <= |m'.granted|
  {
    Sizes(m'.granted[|m.granted|..])
  }

  /** The temporary buffer that a segment needs. */
  function BufferSize(h: Phdr): seq<nat> {
    if h.filesz > 0 then [h.filesz] else []
  }

  /** Loading one program header. */
  function Load(m: Machine, h: Phdr): Outcome<()> {
    LoadSegmentOf(m, h.offset, h.filesz, h.memsz, h.paddr)
  }

  // ------------------------------------------------------------------ proofs

  /** The segment's bytes are among those of its pages, which were not in use and now are new. */
  lemma SegmentUnused(m: Machine, m': Machine, h: Phdr)
    requires m.Valid() && Confined(h) && |m'.mem| == |m.mem|
    requires m.PagesFree(h.paddr / PAGE, SizeToPages(h.memsz))
    requires AllNew(m, m', h.paddr / PAGE * PAGE, SizeToPages(h.memsz) * PAGE)
    ensures h.memsz > 0 ==> h.paddr + h.memsz <= |m.mem|
    ensures Unused(m, h.paddr, h.memsz) && AllNew(m, m', h.paddr, h.memsz)
  {
    hide NewByte;
    FreePagesUnused(m, h.paddr / PAGE, SizeToPages(h.memsz));
  }

  /** The payload reaches its place and nothing in use at `m0` is damaged on the way. */
  lemma CopyPayloadSpec(m0: Machine, m: Machine, filesz: nat, paddr: nat)
    requires m.Valid() && Grows(m0, m)
    requires Unused(m0, paddr, filesz) && AllNew(m0, m, paddr, filesz) && paddr + filesz <= |m.mem|
    ensures var r := CopyPayload(m, filesz, paddr);
      && r.m.Valid() && Grows(m0, r.m) && r.m.pages == m.pages && r.m.open == m.open
      && (r.Done? ==> r.m.pools == m.pools)
      && (r.m.granted == m.granted || (|r.m.granted| == |m.granted| + 1 && NewSizes(m, r.m) == [filesz]))
      && (r.Done? ==> r.m.granted != m.granted)
      && (r.Done? && m.position + filesz <= |m.file| ==>
            Peek(r.m.mem, paddr, filesz) == m.file[m.position..m.position + filesz])
  {
    hide Machine.AllocatePool, Machine.FreePool, Machine.Read, Machine.CopyMem, Machine.Valid, Machine.InUse;
    hide Unused, AllNew, Grows;
    GrowsSame(m0, m);
    AllocatePoolKeeps(m, LOADER_CODE, filesz);
    var r1 := m.AllocatePool(LOADER_CODE, filesz);
    GrowsTrans(m0, m, r1.m);
    if r1.Failed? { return; }
    var m1, buffer := r1.m, r1.value;
    GrowsSame(m0, m1);
    BufferNew(m0, m, m1, buffer, filesz);
    ReadKeeps(m1, filesz, buffer);
    var r2 := m1.Read(filesz, buffer);
    WriteKeeps(m0, m1, r2.m, buffer, filesz);
    if r2.Failed? { return; }
    AllNewLater(m0, m, r2.m, paddr, filesz);
    var r3 := r2.m.CopyMem(paddr, buffer, filesz);
    CopyMemKeeps(r2.m, paddr, buffer, filesz);
    WriteKeeps(m0, r2.m, r3.m, paddr, filesz);
    if r3.Failed? { return; }
    NotAPool(m0, m, buffer);
    FreePoolKeeps(m0, r3.m, buffer);
    assert m.pools[buffer := Pool(filesz, LOADER_CODE)] - {buffer} == m.pools;
  }

  /** A buffer that is fresh now is fresh since any earlier time. */
  lemma BufferNew(m0: Machine, m: Machine, m': Machine, buffer: nat, size: nat)
    requires Grows(m0, m) && |m'.mem| == |m.mem| && Unused(m, buffer, size) && AllNew(m, m', buffer, size)
    ensures Unused(m0, buffer, size) && AllNew(m0, m', buffer, size)
  {
    hide NewByte;
    UnusedBefore(m0, m, buffer, size);
    forall i | buffer <= i < buffer + size && i < |m0.mem|
      ensures NewByte(m0, m', i)
    {
      NewByteEarlier(m0, m, m', i);
    }
  }

  lemma NotAPool(m0: Machine, m: Machine, a: nat)
    requires Grows(m0, m) && a !in m.pools
    ensures a !in m0.pools
  {
  }

  /** Zero filling completes the segment. */
  lemma ZeroFillSpec(m0: Machine, m: Machine, h: Phdr)
    requires m.Valid() && Grows(m0, m) && Confined(h) && (h.memsz > 0 ==> h.paddr + h.memsz <= |m.mem|)
    requires Unused(m0, h.paddr, h.memsz) && AllNew(m0, m, h.paddr, h.memsz)
    requires InFile(h, |m.file|) && h.filesz > 0 ==>
      Peek(m.mem, h.paddr, h.filesz) == m.file[h.offset..h.offset + h.filesz]
    ensures var r := ZeroFill(m, h.filesz, h.memsz, h.paddr);
      && r.m.Valid() && Grows(m0, r.m) && r.m.pages == m.pages && r.m.pools == m.pools && r.m.open == m.open
      && r.m.granted == m.granted
      && (r.Done? && InFile(h, |m.file|) ==> Holds(r.m, h))
  {
    hide Machine.SetMem, Machine.Valid, Machine.InUse, Grows, NewByte;
    assert (h.memsz - h.filesz) % WORD == h.memsz - h.filesz;
    if h.filesz < h.memsz {
      assert (h.paddr + h.filesz) % WORD == h.paddr + h.filesz by { MemoryBound(m); }
      var r := m.SetMem(h.paddr + h.filesz, h.memsz - h.filesz, 0);
      SetMemKeeps(m, h.paddr + h.filesz, h.memsz - h.filesz, 0);
      GrowsSame(m0, m);
      WriteKeeps(m0, m, r.m, h.paddr + h.filesz, h.memsz - h.filesz);
      PeekSame(m.mem, r.m.mem, h.paddr, h.filesz);
    }
  }

  lemma MemoryBound(m: Machine)
    requires m.Valid()
    ensures |m.mem| <= WORD
  {
  }

  /** The two calls before the payload. */
  function AtPages(m: Machine, h: Phdr): Outcome<()> {
    var (m1, _) :- m.SetPosition(h.offset);
    m1.AllocatePages(LOADER_DATA, SizeToPages(h.memsz), h.paddr)
  }

  /** The pages of a segment are its own once the firmware has granted them. */
  lemma PagesGranted(m: Machine, h: Phdr)
    requires m.Valid() && Confined(h)
    ensures var s, r := m.SetPosition(h.offset), AtPages(m, h);
      && r.m.Valid() && Grows(m, r.m) && r.m.pools == m.pools && r.m.open == m.open && r.m.granted == m.granted
      && (r.Failed? ==> r.m.pages == m.pages)
      && (r.Done? ==>
            && s.Done? && m.PagesFree(h.paddr / PAGE, SizeToPages(h.memsz)) && r.m.pages == m.pages + Pages(h)
            && Owned(r.m, h) && (h.memsz > 0 ==> h.paddr + h.memsz <= |m.mem|)
            && Unused(m, h.paddr, h.memsz) && AllNew(m, r.m, h.paddr, h.memsz)
            && (h.offset <= |m.file| ==> r.m.position == h.offset))
  {
    hide Machine.AllocatePages, Machine.SetPosition, Machine.Valid, Machine.InUse, Grows, Unused, AllNew, Confined;
    SetPositionKeeps(m, h.offset);
    var r1 := m.SetPosition(h.offset);
    GrowsSame(m, r1.m);
    if r1.Failed? { return; }
    AllocatePagesKeeps(r1.m, LOADER_DATA, SizeToPages(h.memsz), h.paddr);
    var r2 := AtPages(m, h);
    GrowsSame(r1.m, r2.m);
    GrowsTrans(m, r1.m, r2.m);
    if r2.Failed? { return; }
    assert AllNew(m, r2.m, h.paddr / PAGE * PAGE, SizeToPages(h.memsz) * PAGE) by {
      AllNewFrom(m, r1.m, r2.m, h.paddr / PAGE * PAGE, SizeToPages(h.memsz) * PAGE);
    }
    SegmentUnused(m, r2.m, h);
  }

  lemma AllNewFrom(m: Machine, m1: Machine, m': Machine, a: nat, n: nat)
    requires AllNew(m1, m', a, n) && m1.mem == m.mem && m1.pages == m.pages && m1.granted == m.granted
    ensures AllNew(m, m', a, n)
  {
    hide NewByte;
    forall i | a <= i < a + n && i < |m.mem| ensures NewByte(m, m', i) { NewByteEarlier(m, m1, m', i); }
  }

  /**
   Loading a confined segment keeps everything in use, takes exactly the segment's pages, which were
   free, changes no byte outside these and its one temporary buffer, and leaves the segment in memory
   if the file has it.
   */
  lemma LoadSpec(m: Machine, h: Phdr)
    requires m.Valid() && Confined(h)
    ensures var r := Load(m, h);
      && r.m.Valid() && Grows(m, r.m) && r.m.open == m.open
      && (NewSizes(m, r.m) == [] || NewSizes(m, r.m) == BufferSize(h))
      && (r.m.pages != m.pages || r.Done? ==>
            m.PagesFree(h.paddr / PAGE, SizeToPages(h.memsz)) && r.m.pages == m.pages + Pages(h))
      && (r.Done? ==> r.m.pools == m.pools && Owned(r.m, h) && NewSizes(m, r.m) == BufferSize(h))
      && (r.Done? && InFile(h, |m.file|) ==> Holds(r.m, h))
  {
    hide Machine.AllocatePages, Machine.SetPosition, CopyPayload, ZeroFill, Machine.Valid, Machine.InUse, Holds;
    hide Grows, NewByte, Pages;
    PagesGranted(m, h);
    var r2 := AtPages(m, h);
    GrowsSame(m, r2.m);
    if r2.Failed? { return; }
    if h.filesz > 0 {
      CopyPayloadSpec(m, r2.m, h.filesz, h.paddr);
    }
    var r3 := if h.filesz > 0 then CopyPayload(r2.m, h.filesz, h.paddr) else Done(r2.m, ());
    GrowsSame(m, r3.m);
    if r3.Failed? { return; }
    AllNewLater(m, r2.m, r3.m, h.paddr, h.memsz);
    ZeroFillSpec(m, r3.m, h);
  }

  /** Every byte a load changes lies in the segment's pages or in its temporary buffer. */
  lemma LoadTouches(m: Machine, h: Phdr, i: nat)
    requires m.Valid() && Confined(h) && i < |m.mem|
    ensures var m' := Load(m, h).m;
      && |m.granted| <= |m'.granted| <= |m.granted| + 1
      && (i < |m'.mem| && m'.mem[i] != m.mem[i] ==>
            || InPages(h, i / PAGE)
            || (h.filesz > 0 && |m'.granted| > |m.granted| && m'.granted[|m.granted|].Has(i)
                && m'.granted[|m.granted|].size == h.filesz))
  {
    hide Load, Machine.Valid, Machine.InUse, Machine.PagesFree, Holds, Owned, Confined;
    LoadSpec(m, h);
    var m' := Load(m, h).m;
    assert NewSizes(m, m') == [] || NewSizes(m, m')[0] == m'.granted[|m.granted|].size;
  }

  /** A page-aligned segment whose file part is no longer than its memory is confined. */
  lemma AlignedIsConfined(h: Phdr)
    requires h.paddr % PAGE == 0 && h.filesz <= h.memsz < WORD
    ensures Confined(h)
  {
  }
}
