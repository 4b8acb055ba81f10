/** What the status of `load_program_segments` tells, for a firmware that cooperates. */
module LoadStatus {
  import opened Bytes
  import opened ElfFormat
  import opened Uefi
  import opened Segment
  import opened SegmentList
  import opened ProgramSegments
  import opened LoadConditions

  /** The firmware cooperates with a table in memory whose segments the file has. */
  ghost predicate TableServed(m: Machine, cls: FileClass, header: nat, table: nat, hs: seq<Phdr>) {
    && m.Valid() && m.open && cls != OtherClass && TableAt(m, cls, table, hs) && AllConfined(hs) && Obliges(m, hs, 0)
    && HeaderAt(cls, m.mem, header).phnum == |hs| < 0x1_0000
    && forall j :: 0 <= j < |hs| && hs[j].Loadable() ==> InFile(hs[j], |m.file|)
  }

  /**
   The status of `load_program_segments` for a cooperating firmware.  EFI_NOT_FOUND is returned if and
   only if the table has entries and there is nothing to load or the segments do not have free pages of
   their own.  An empty table is EFI_INVALID_PARAMETER.
   */
  lemma NotFoundExactly(m: Machine, cls: FileClass, header: nat, table: nat, hs: seq<Phdr>)
    requires TableServed(m, cls, header, table, hs)
    ensures var s, room := LoadSegments(m, cls, header, table).status, Disjoint(hs, 0, |hs|) && AllFree(m, hs, 0);
      && (s == EFI_SUCCESS <==> CountLoadable(hs, 0, |hs|) > 0 && room)
      && (s == EFI_INVALID_PARAMETER <==> |hs| == 0)
      && (s == EFI_NOT_FOUND <==> |hs| > 0 && (CountLoadable(hs, 0, |hs|) == 0 || !room))
  {
    hide LoadSegments, LoadList, TableAt, HeaderAt, AllConfined, Machine.Valid, Disjoint, AllFree, CountLoadable;
    hide Obliges;
    SegmentsSpec(m, cls, header, table, hs);
    RunSucceedsExactly(m, hs, 0, 0);
    NoneLoadable(hs);
  }

  lemma NoneLoadable(hs: seq<Phdr>)
    ensures |hs| == 0 ==> CountLoadable(hs, 0, |hs|) == 0
  {
  }

  /**
   So the status tells whether the table has a loadable segment exactly where the table has entries and
   there is no loadable one or the segments have free pages of their own.
   */
  lemma NotFoundTells(m: Machine, cls: FileClass, header: nat, table: nat, hs: seq<Phdr>)
    requires TableServed(m, cls, header, table, hs)
    ensures (LoadSegments(m, cls, header, table).status == EFI_NOT_FOUND <==> CountLoadable(hs, 0, |hs|) == 0)
      <==> |hs| > 0 && (CountLoadable(hs, 0, |hs|) == 0 || (Disjoint(hs, 0, |hs|) && AllFree(m, hs, 0)))
  {
    hide LoadSegments, TableServed, Disjoint, AllFree, CountLoadable;
    NotFoundExactly(m, cls, header, table, hs);
    NoneLoadable(hs);
  }

  /** It does not where a loadable segment lies on a page in use. */
  lemma NotFoundIsAmbiguous(m: Machine, cls: FileClass, header: nat, table: nat, hs: seq<Phdr>, j: nat)
    requires TableServed(m, cls, header, table, hs) && j < |hs| && hs[j].Loadable() && !Free(m, hs[j])
    ensures LoadSegments(m, cls, header, table).status == EFI_NOT_FOUND && CountLoadable(hs, 0, |hs|) > 0
  {
    hide LoadSegments, TableServed, Disjoint, CountLoadable, Free;
    NotFoundExactly(m, cls, header, table, hs);
    CountsOne(hs, 0, j);
  }

  lemma {:induction false} CountsOne(hs: seq<Phdr>, k: nat, j: nat)
    requires k <= j < |hs| && hs[j].Loadable()
    ensures CountLoadable(hs, k, |hs|) > 0
    decreases j - k
  {
    if k == j {
    } else {
      CountsOne(hs, k + 1, j);
    }
  }

  /** A one-byte segment in page 2, the header of a table with one entry, and a machine that holds both. */
  const OneSegment: Phdr := Phdr(PT_LOAD, 0, 0, 0, 2 * PAGE, 0, 1, 0)
  const OneEntry: Ehdr := Ehdr(seq<byte>(EI_NIDENT, _ => 0), 0, 0, 0, 0, 0, 0, 0, 0, 0, 1, 0, 0, 0)

  function Occupied(): Machine {
    var header, table := PAGE, PAGE + EhdrSize(Class64);
    var mem := Poke(seq<byte>(3 * PAGE, _ => 0), header, EncodeEhdr(Class64, OneEntry));
    Machine(Poke(mem, table, EncodePhdr(Class64, OneSegment)), map[2 := LOADER_DATA],
            map[header := Pool(EhdrSize(Class64), LOADER_DATA), table := Pool(PhdrSize(Class64), LOADER_DATA)],
            [], [], true, 0, 0, true, DESCRIPTOR_SIZE, _ => Answer(None, 0, []), 0)
  }

  lemma OneFits()
    ensures |OneEntry.ident| == EI_NIDENT && EhdrFits(Class64, OneEntry) && PhdrFits(Class64, OneSegment)
  {
    Widths();
    hide Pow256;
  }

  lemma OccupiedHolds()
    ensures HeaderAt(Class64, Occupied().mem, PAGE) == OneEntry
    ensures EntryAt(Class64, Occupied().mem, PAGE + EhdrSize(Class64), 0) == OneSegment
  {
    hide DecodeEhdr, EncodeEhdr, DecodePhdr, EncodePhdr, EhdrFits, PhdrFits, OneEntry, OneSegment;
    OneFits();
    var e, mem := EncodeEhdr(Class64, OneEntry), seq<byte>(3 * PAGE, _ => 0);
    PeekPoke(mem, PAGE, e);
    PeekSame(Poke(mem, PAGE, e), Occupied().mem, PAGE, EhdrSize(Class64));
    PeekPoke(Poke(mem, PAGE, e), PAGE + EhdrSize(Class64), EncodePhdr(Class64, OneSegment));
    EhdrRoundTrip(Class64, OneEntry);
    PhdrRoundTrip(Class64, OneSegment);
  }

  /** Two buffers of one type below an owned page get along. */
  lemma TwoBuffersApart(m: Machine, a: nat, b: nat, p: nat)
    requires m.pools.Keys == {a, b} && m.pages.Keys == {p} && m.pools[a].kind == m.pools[b].kind
    requires a + m.pools[a].size <= b && b + m.pools[b].size <= p * PAGE
    ensures m.PoolsApart() && m.OwnersApart() && m.KindsAgree()
  {
    hide SharePage;
  }

  lemma OccupiedValid()
    ensures Occupied().Valid()
  {
    hide EncodeEhdr, EncodePhdr, Poke, SharePage, Touches, Machine.PoolsApart, Machine.OwnersApart;
    hide Machine.KindsAgree;
    TwoBuffersApart(Occupied(), PAGE, PAGE + EhdrSize(Class64), 2);
  }

  /** There are such machines: here, an ELF64 table with one small segment on a page that is owned. */
  lemma AmbiguityOccurs()
    ensures exists m: Machine, header: nat, table: nat, h: Phdr ::
      && TableServed(m, Class64, header, table, [h]) && h.Loadable()
      && LoadSegments(m, Class64, header, table).status == EFI_NOT_FOUND
  {
    hide EntryAt, HeaderAt, Machine.Valid, Load, LoadSegments, EncodeEhdr, EncodePhdr, Poke;
    var m, hs := Occupied(), [OneSegment];
    OccupiedHolds();
    OccupiedValid();
    assert 2 in m.pages && !Free(m, OneSegment);
    assert Obliges(m, hs, 0);
    NotFoundIsAmbiguous(m, Class64, PAGE, PAGE + EhdrSize(Class64), hs, 0);
  }
}
