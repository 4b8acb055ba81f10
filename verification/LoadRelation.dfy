/** Two loads compared: what the header and table buffers hold matters only through the headers in them. */
module LoadRelation {
  import opened Bytes
  import opened ElfFormat
  import opened Uefi
  import opened Frames
  import opened Segment
  import opened SegmentList
  import opened ProgramSegments

  /** Byte `i` lies in one of the buffers `xs`. */
  ghost predicate Inside(m: Machine, xs: set<nat>, i: nat) {
    exists x :: x in xs && x in m.pools && x <= i < x + m.pools[x].size
  }

  /** The machines differ in nothing but the bytes of the live buffers `xs`. */
  ghost predicate Alike(a: Machine, b: Machine, xs: set<nat>) {
    && b == a.(mem := b.mem) && |b.mem| == |a.mem| && xs <= a.pools.Keys
    && forall i :: 0 <= i < |a.mem| && !Inside(a, xs, i) ==> b.mem[i] == a.mem[i]
  }

  /** The same outcome, on machines that are alike. */
  ghost predicate AlikeOutcomes<T>(r: Outcome<T>, r': Outcome<T>, xs: set<nat>) {
    Alike(r.m, r'.m, xs) && (r.Done? <==> r'.Done?) && (if r.Done? then r'.value == r.value else r'.error == r.error)
  }

  /** What does not concern memory or ownership may change on both sides, and so may equal new bytes. */
  lemma StillAlike(a: Machine, b: Machine, a': Machine, b': Machine, xs: set<nat>)
    requires Alike(a, b, xs) && b' == a'.(mem := b'.mem) && |a'.mem| == |b'.mem| == |a.mem|
    requires forall x :: x in xs ==> x in a'.pools && a'.pools[x] == a.pools[x]
    requires forall i :: 0 <= i < |a.mem| ==> a'.mem[i] == b'.mem[i] || (a'.mem[i] == a.mem[i] && b'.mem[i] == b.mem[i])
    ensures Alike(a', b', xs)
  {
  }

  lemma AlikeParts(a: Machine, b: Machine, xs: set<nat>)
    requires Alike(a, b, xs)
    ensures b == a.(mem := b.mem) && |b.mem| == |a.mem| && xs <= a.pools.Keys
  {
  }

  lemma AllocationAlike(a: Machine, b: Machine, xs: set<nat>, kind: Kind, count: nat, address: nat)
    requires Alike(a, b, xs)
    ensures AlikeOutcomes(a.AllocatePages(kind, count, address), b.AllocatePages(kind, count, address), xs)
  {
    hide Alike, Range, Machine.PagesFree;
    AlikeParts(a, b, xs);
    PagesFreeSame(a, b, address / PAGE, count);
    StillAlike(a, b, a.AllocatePages(kind, count, address).m, b.AllocatePages(kind, count, address).m, xs);
  }

  lemma PositionAlike(a: Machine, b: Machine, xs: set<nat>, pos: nat)
    requires Alike(a, b, xs)
    ensures AlikeOutcomes(a.SetPosition(pos), b.SetPosition(pos), xs)
  {
    hide Alike;
    AlikeParts(a, b, xs);
    StillAlike(a, b, a.SetPosition(pos).m, b.SetPosition(pos).m, xs);
  }

  lemma PagesAlike(a: Machine, b: Machine, xs: set<nat>, h: Phdr)
    requires Alike(a, b, xs)
    ensures AlikeOutcomes(AtPages(a, h), AtPages(b, h), xs)
  {
    hide Alike, Machine.AllocatePages, Machine.SetPosition;
    PositionAlike(a, b, xs, h.offset);
    var r, r' := a.SetPosition(h.offset), b.SetPosition(h.offset);
    if r.Done? { AllocationAlike(r.m, r'.m, xs, LOADER_DATA, SizeToPages(h.memsz), h.paddr); }
  }

  lemma NotTaken(m: Machine, size: nat, kind: Kind)
    ensures m.PoolFits(m.Ask().address, size, kind) ==> m.Ask().address !in m.pools
  {
  }

  lemma PoolAlike(a: Machine, b: Machine, xs: set<nat>, kind: Kind, size: nat)
    requires Alike(a, b, xs)
    ensures AlikeOutcomes(a.AllocatePool(kind, size), b.AllocatePool(kind, size), xs)
  {
    hide Alike, Machine.PoolFits;
    AlikeParts(a, b, xs);
    FitsSame(a, b, a.Ask().address, size, kind);
    NotTaken(a, size, kind);
    StillAlike(a, b, a.AllocatePool(kind, size).m, b.AllocatePool(kind, size).m, xs);
  }

  lemma ReadAlike(a: Machine, b: Machine, xs: set<nat>, n: nat, buffer: nat)
    requires Alike(a, b, xs)
    ensures AlikeOutcomes(a.Read(n, buffer), b.Read(n, buffer), xs)
  {
    hide Alike;
    AlikeParts(a, b, xs);
    StillAlike(a, b, a.Read(n, buffer).m, b.Read(n, buffer).m, xs);
  }

  /** A copy from outside the buffers. */
  lemma CopyAlike(a: Machine, b: Machine, xs: set<nat>, dst: nat, src: nat, n: nat)
    requires Alike(a, b, xs) && forall i :: src <= i < src + n && i < |a.mem| ==> !Inside(a, xs, i)
    ensures AlikeOutcomes(a.CopyMem(dst, src, n), b.CopyMem(dst, src, n), xs)
  {
    PeekSame(a.mem, b.mem, src, n);
    hide Alike, Peek;
    AlikeParts(a, b, xs);
    StillAlike(a, b, a.CopyMem(dst, src, n).m, b.CopyMem(dst, src, n).m, xs);
  }

  lemma FreeAlike(a: Machine, b: Machine, xs: set<nat>, buffer: nat)
    requires Alike(a, b, xs) && buffer !in xs
    ensures AlikeOutcomes(a.FreePool(buffer), b.FreePool(buffer), xs)
  {
    hide Alike;
    AlikeParts(a, b, xs);
    StillAlike(a, b, a.FreePool(buffer).m, b.FreePool(buffer).m, xs);
  }

  lemma ZeroAlike(a: Machine, b: Machine, xs: set<nat>, filesz: nat, memsz: nat, paddr: nat)
    requires Alike(a, b, xs)
    ensures AlikeOutcomes(ZeroFill(a, filesz, memsz, paddr), ZeroFill(b, filesz, memsz, paddr), xs)
  {
    hide Alike;
    AlikeParts(a, b, xs);
    StillAlike(a, b, ZeroFill(a, filesz, memsz, paddr).m, ZeroFill(b, filesz, memsz, paddr).m, xs);
  }

  /** A fresh buffer has nothing of the buffers `xs`, before and after it is filled. */
  lemma FreshOutside(m: Machine, m': Machine, xs: set<nat>, buffer: nat, size: nat)
    requires xs <= m.pools.Keys && Unused(m, buffer, size) && |m'.mem| == |m.mem|
    requires m'.pools.Keys == m.pools.Keys + {buffer} && buffer !in m.pools
    requires forall x :: x in m.pools ==> m'.pools[x] == m.pools[x]
    ensures forall i :: buffer <= i < buffer + size && i < |m'.mem| ==> !Inside(m', xs, i)
  {
    forall i | buffer <= i < buffer + size && i < |m'.mem|
      ensures !Inside(m', xs, i)
    {
      assert !m.InUse(i);
    }
  }

  lemma PayloadAlike(a: Machine, b: Machine, xs: set<nat>, filesz: nat, paddr: nat)
    requires a.Valid() && Alike(a, b, xs)
    ensures AlikeOutcomes(CopyPayload(a, filesz, paddr), CopyPayload(b, filesz, paddr), xs)
  {
    hide Machine.AllocatePool, Machine.FreePool, Machine.Read, Machine.CopyMem, Machine.Valid, Alike, Inside;
    hide Grows, AllNew, Unused;
    PoolAlike(a, b, xs, LOADER_CODE, filesz);
    AllocatePoolKeeps(a, LOADER_CODE, filesz);
    var r, r' := a.AllocatePool(LOADER_CODE, filesz), b.AllocatePool(LOADER_CODE, filesz);
    if r.Failed? { return; }
    var buffer := r.value;
    ReadAlike(r.m, r'.m, xs, filesz, buffer);
    ReadKeeps(r.m, filesz, buffer);
    var s, s' := r.m.Read(filesz, buffer), r'.m.Read(filesz, buffer);
    if s.Failed? { return; }
    AlikeParts(a, b, xs);
    GrowsSame(a, r.m);
    FreshOutside(a, s.m, xs, buffer, filesz);
    CopyAlike(s.m, s'.m, xs, paddr, buffer, filesz);
    FreeAlike(s.m.CopyMem(paddr, buffer, filesz).m, s'.m.CopyMem(paddr, buffer, filesz).m, xs, buffer);
  }

  /** One segment. */
  lemma LoadAlike(a: Machine, b: Machine, xs: set<nat>, h: Phdr)
    requires a.Valid() && Confined(h) && Alike(a, b, xs)
    ensures AlikeOutcomes(Load(a, h), Load(b, h), xs)
  {
    hide Machine.AllocatePages, Machine.SetPosition, CopyPayload, ZeroFill, Machine.Valid, Alike, Confined;
    hide Grows, Owned, Unused, AllNew, Machine.PagesFree, Pages;
    PagesAlike(a, b, xs, h);
    PagesGranted(a, h);
    var r, r' := AtPages(a, h), AtPages(b, h);
    if r.Failed? { return; }
    if h.filesz > 0 { PayloadAlike(r.m, r'.m, xs, h.filesz, h.paddr); }
    var s := if h.filesz > 0 then CopyPayload(r.m, h.filesz, h.paddr) else Done(r.m, ());
    var s' := if h.filesz > 0 then CopyPayload(r'.m, h.filesz, h.paddr) else Done(r'.m, ());
    ZeroAlike(s.m, s'.m, xs, h.filesz, h.memsz, h.paddr);
  }

  /** The same status, count and stopping index, on machines that are alike. */
  ghost predicate AlikeReplies(r: LoadReply, r': LoadReply, xs: set<nat>) {
    Alike(r.m, r'.m, xs) && r'.status == r.status && r'.loaded == r.loaded && r'.stop == r.stop
  }

  lemma {:induction false} RunAlike(a: Machine, b: Machine, xs: set<nat>, hs: seq<Phdr>, k: nat, loaded: nat)
    requires a.Valid() && Alike(a, b, xs) && AllConfined(hs) && k <= |hs|
    ensures AlikeReplies(LoadList(a, hs, k, loaded), LoadList(b, hs, k, loaded), xs)
    decreases |hs| - k
  {
    hide Load, Confined, Machine.Valid, Alike, Grows, InPlace;
    if k == |hs| {
    } else if !hs[k].Loadable() {
      RunAlike(a, b, xs, hs, k + 1, loaded);
    } else {
      assert Confined(hs[k]);
      LoadAlike(a, b, xs, hs[k]);
      StepSpec(a, hs[k]);
      if Load(a, hs[k]).Done? {
        RunAlike(Load(a, hs[k]).m, Load(b, hs[k]).m, xs, hs, k + 1, (loaded + 1) % 0x1_0000);
      }
    }
  }

  /** A machine is ready to load a table of these headers. */
  ghost predicate Ready(m: Machine, cls: FileClass, header: nat, table: nat, hs: seq<Phdr>) {
    cls != OtherClass && TableAt(m, cls, table, hs) && HeaderAt(cls, m.mem, header).phnum == |hs|
  }

  /**
   Two machines that differ only in some buffers, and whose tables hold the same headers, in whatever
   class and place: `load_program_segments` gives the same status, count and stopping index on both, and
   leaves them with the same pages and pools, and the same memory outside these buffers.
   */
  lemma TablesAlike(a: Machine, b: Machine, xs: set<nat>, cls: FileClass, header: nat, table: nat,
                    cls': FileClass, header': nat, table': nat, hs: seq<Phdr>)
    requires a.Valid() && Alike(a, b, xs) && AllConfined(hs)
    requires Ready(a, cls, header, table, hs) && Ready(b, cls', header', table', hs)
    ensures AlikeReplies(LoadSegments(a, cls, header, table), LoadSegments(b, cls', header', table'), xs)
  {
    hide LoadTable, LoadList, TableAt, HeaderAt, AllConfined, Machine.Valid, Alike;
    AlikeParts(a, b, xs);
    SameStateValid(a, b);
    TableDrives(a, cls, table, hs, 0, 0);
    TableDrives(b, cls', table', hs, 0, 0);
    RunAlike(a, b, xs, hs, 0, 0);
  }

  /** A live pool buffer holds the encodings of these headers. */
  ghost predicate EncodedAt(m: Machine, cls: FileClass, table: nat, hs: seq<Phdr>) {
    && table in m.pools && EntryOffset(cls, |hs|) <= m.pools[table].size
    && table + m.pools[table].size <= |m.mem|
    && forall j :: 0 <= j < |hs| ==>
      Peek(m.mem, table + EntryOffset(cls, j), PhdrSize(cls)) == EncodePhdr(cls, hs[j])
  }

  lemma EncodedTable(m: Machine, cls: FileClass, table: nat, hs: seq<Phdr>)
    requires EncodedAt(m, cls, table, hs) && forall j :: 0 <= j < |hs| ==> PhdrFits(cls, hs[j])
    ensures TableAt(m, cls, table, hs)
  {
    hide EncodePhdr, DecodePhdr, Peek, PhdrFits;
    forall j | 0 <= j < |hs|
      ensures EntryAt(cls, m.mem, table, j) == hs[j]
    {
      PhdrRoundTrip(cls, hs[j]);
    }
  }

  /** The 32-bit loop simulates the 64-bit loop over the same headers, widened. */
  lemma Simulates(a: Machine, b: Machine, xs: set<nat>, header32: nat, table32: nat, header64: nat, table64: nat,
                  hs: seq<Phdr>)
    requires a.Valid() && Alike(a, b, xs) && AllConfined(hs)
    requires forall j :: 0 <= j < |hs| ==> PhdrFits(Class32, hs[j])
    requires EncodedAt(a, Class32, table32, hs) && EncodedAt(b, Class64, table64, hs)
    requires HeaderAt(Class32, a.mem, header32).phnum == |hs| == HeaderAt(Class64, b.mem, header64).phnum
    ensures AlikeReplies(LoadSegments(a, Class32, header32, table32), LoadSegments(b, Class64, header64, table64), xs)
  {
    hide TableAt, EncodedAt, HeaderAt, AllConfined, PhdrFits, Machine.Valid, Alike, LoadSegments;
    forall j | 0 <= j < |hs| ensures PhdrFits(Class64, hs[j]) { WidenFits(hs[j]); }
    EncodedTable(a, Class32, table32, hs);
    EncodedTable(b, Class64, table64, hs);
    TablesAlike(a, b, xs, Class32, header32, table32, Class64, header64, table64, hs);
  }
}
