/** `load_program_segments` of loader.c: the loop driven by the program header table in memory. */
module ProgramSegments {
  import opened Bytes
  import opened ElfFormat
  import opened Uefi
  import opened Frames
  import opened FirmwareServices
  import opened Segment
  import opened SegmentList

  /** The offset of entry `k` in a table: the code strides by the size of the structure. */
  function EntryOffset(cls: FileClass, k: nat): nat { PhdrSize(cls) * k }

  /** Entry `k` of the program header table at address `table`. */
  function EntryAt(cls: FileClass, mem: seq<byte>, table: nat, k: nat): Phdr {
    DecodePhdr(cls, Peek(mem, table + EntryOffset(cls, k), PhdrSize(cls)))
  }

  function HeaderAt(cls: FileClass, mem: seq<byte>, header: nat): Ehdr {
    DecodeEhdr(cls, Peek(mem, header, EhdrSize(cls)))
  }

  /** The loop as it runs: every iteration reads its header from memory. */
  function LoadTable(m: Machine, cls: FileClass, table: nat, n: nat, k: nat, loaded: nat): LoadReply
    requires k <= n
    decreases n - k
  {
    if k == n then LoadReply(m, EFI_SUCCESS, loaded, k)
    else
      var h := EntryAt(cls, m.mem, table, k);
      if !h.Loadable() then LoadTable(m, cls, table, n, k + 1, loaded)
      else
        var r := Load(m, h);
        if r.Failed? then LoadReply(r.m, r.error, loaded, k)
        else LoadTable(r.m, cls, table, n, k + 1, (loaded + 1) % 0x1_0000)
  }

  function LoadSegments(m: Machine, cls: FileClass, header: nat, table: nat): LoadReply {
    var n := if cls == OtherClass then 0 else HeaderAt(cls, m.mem, header).phnum;
    if n == 0 then LoadReply(m, EFI_INVALID_PARAMETER, 0, 0)
    else
      var r := LoadTable(m, cls, table, n, 0, 0);
      if !IsError(r.status) && r.loaded == 0 then r.(status := EFI_NOT_FOUND) else r
  }

  method LoadProgramSegments(fw: Firmware, cls: FileClass, header: nat, table: nat)
    returns (status: Status, loaded: nat, p: nat)
    modifies fw
    ensures LoadReply(fw.State(), status, loaded, p) == LoadSegments(old(fw.State()), cls, header, table)
  {
    hide LoadSegmentOf, EntryAt, HeaderAt;
    var n := 0;
    loaded, p := 0, 0;
    if cls == Class32 {
      n := HeaderAt(Class32, fw.mem, header).phnum;
    } else if cls == Class64 {
      n := HeaderAt(Class64, fw.mem, header).phnum;
    }
    if n == 0 { return EFI_INVALID_PARAMETER, 0, 0; }

    ghost var before := fw.State();
    if cls == Class32 {
      while p < n
        invariant p <= n
        invariant LoadTable(before, cls, table, n, 0, 0) == LoadTable(fw.State(), cls, table, n, p, loaded)
      {
        var h := EntryAt(Class32, fw.mem, table, p);
        if h.Loadable() {
          status := LoadSegment(fw, h.offset, h.filesz, h.memsz, h.paddr);
          if IsError(status) { return; }
          loaded := (loaded + 1) % 0x1_0000;
        }
        p := p + 1;
      }
    } else {
      while p < n
        invariant p <= n
        invariant LoadTable(before, cls, table, n, 0, 0) == LoadTable(fw.State(), cls, table, n, p, loaded)
      {
        var h := EntryAt(Class64, fw.mem, table, p);
        if h.Loadable() {
          status := LoadSegment(fw, h.offset, h.filesz, h.memsz, h.paddr);
          if IsError(status) { return; }
          loaded := (loaded + 1) % 0x1_0000;
        }
        p := p + 1;
      }
    }
    if loaded == 0 { return EFI_NOT_FOUND, loaded, p; }
    status := EFI_SUCCESS;
  }

  // ------------------------------------------------------------------ the table survives its own loop

  /** A live pool buffer holds exactly this table. */
  ghost predicate TableAt(m: Machine, cls: FileClass, table: nat, hs: seq<Phdr>) {
    && table in m.pools && EntryOffset(cls, |hs|) <= m.pools[table].size
    && table + m.pools[table].size <= |m.mem|
    && forall j :: 0 <= j < |hs| ==> EntryAt(cls, m.mem, table, j) == hs[j]
  }

  lemma EntryHeld(m: Machine, cls: FileClass, table: nat, hs: seq<Phdr>, k: nat)
    requires TableAt(m, cls, table, hs) && k < |hs|
    ensures EntryAt(cls, m.mem, table, k) == hs[k]
  {
  }

  lemma TableKept(m: Machine, m': Machine, cls: FileClass, table: nat, hs: seq<Phdr>)
    requires Grows(m, m') && TableAt(m, cls, table, hs)
    ensures TableAt(m', cls, table, hs)
  {
    hide DecodePhdr, Peek, NewByte, Machine.InUse;
    BufferKept(m, m', table);
    forall j | 0 <= j < |hs|
      ensures EntryAt(cls, m'.mem, table, j) == hs[j]
    {
      PeekPeek(m.mem, table, m.pools[table].size, EntryOffset(cls, j), PhdrSize(cls));
      PeekPeek(m'.mem, table, m.pools[table].size, EntryOffset(cls, j), PhdrSize(cls));
    }
  }

  /**
   The table that drives the loop is never damaged by it: the run over memory is the run over the
   headers the table held at the start, and it holds them still at the end.
   */
  lemma {:induction false} TableDrives(m: Machine, cls: FileClass, table: nat, hs: seq<Phdr>, k: nat, loaded: nat)
    requires m.Valid() && k <= |hs| && AllConfined(hs) && TableAt(m, cls, table, hs)
    ensures var r := LoadList(m, hs, k, loaded);
      && LoadTable(m, cls, table, |hs|, k, loaded) == r
      && TableAt(r.m, cls, table, hs)
    decreases |hs| - k
  {
    hide Load, Confined, Holds, Owned, Grows, NewSizes, Machine.Valid, Machine.PagesFree, EntryAt, TableAt;
    if k == |hs| {
    } else {
      EntryHeld(m, cls, table, hs, k);
      if hs[k].Loadable() {
        assert Confined(hs[k]);
        LoadSpec(m, hs[k]);
        var s := Load(m, hs[k]);
        TableKept(m, s.m, cls, table, hs);
        GrowsSame(m, s.m);
        if s.Done? { TableDrives(s.m, cls, table, hs, k + 1, (loaded + 1) % 0x1_0000); }
      } else {
        TableDrives(m, cls, table, hs, k + 1, loaded);
      }
    }
  }

  /**
   The outcome of `load_program_segments`, given that of the run over the table's headers: the same,
   except that an empty table is an invalid parameter, and a complete run without loadable headers
   finds nothing.
   */
  ghost predicate TableOutcome(m: Machine, r: LoadReply, l: LoadReply, hs: seq<Phdr>) {
    && (l.status == EFI_SUCCESS <==> l.stop == |hs|)
    && (|hs| == 0 ==> r == LoadReply(m, EFI_INVALID_PARAMETER, 0, 0))
    && (|hs| > 0 ==> r.m == l.m && r.stop == l.stop <= |hs| && r.loaded == CountLoadable(hs, 0, r.stop))
    && (|hs| > 0 ==>
          r.status == if l.status == EFI_SUCCESS && CountLoadable(hs, 0, |hs|) == 0 then EFI_NOT_FOUND else l.status)
    && (!IsError(r.status) ==> r.stop == |hs| > 0 && r.loaded > 0)
  }

  lemma SegmentsSpec(m: Machine, cls: FileClass, header: nat, table: nat, hs: seq<Phdr>)
    requires m.Valid() && cls != OtherClass && TableAt(m, cls, table, hs)
    requires AllConfined(hs) && HeaderAt(cls, m.mem, header).phnum == |hs| < 0x1_0000
    ensures TableOutcome(m, LoadSegments(m, cls, header, table), LoadList(m, hs, 0, 0), hs)
  {
    hide LoadTable, LoadList, HeaderAt, CountLoadable, TableAt, AllConfined, Machine.Valid;
    TableDrives(m, cls, table, hs, 0, 0);
    StopBound(m, hs, 0, 0);
    RunCount(m, hs, 0, 0);
  }
}
