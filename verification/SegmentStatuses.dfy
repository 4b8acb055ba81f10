/** The status of every load, for every firmware: the first thing that stands in its way. */
module SegmentStatuses {
  import opened Bytes
  import opened ElfFormat
  import opened Uefi
  import opened Frames
  import opened Statuses
  import opened Segment
  import opened SegmentList

  // ------------------------------------------------------------------ one segment

  /** Room for the payload's buffer once the segment has its pages. */
  predicate BufferFits(m: Machine, h: Phdr) {
    m.(pages := m.pages + Pages(h)).PoolFits(m.answers(m.tick + 2).address, h.filesz, LOADER_CODE)
  }

  function ZeroStatus(m: Machine, h: Phdr, k: nat): Status {
    if (h.memsz - h.filesz) % WORD > 0 then Then(Refused(m, k), EFI_SUCCESS) else EFI_SUCCESS
  }

  /** The calls of `load_segment` in order, and what makes each of them fail. */
  function SegmentStatus(m: Machine, h: Phdr): Status {
    Then(Refused(m, 0),
         Then(Refused(m, 1),
              Then(When(!Free(m, h), EFI_NOT_FOUND),
                   if h.filesz == 0 then ZeroStatus(m, h, 2) else PayloadStatus(m, h))))
  }

  function PayloadStatus(m: Machine, h: Phdr): Status {
    Then(Refused(m, 2),
         Then(When(!BufferFits(m, h), EFI_OUT_OF_RESOURCES),
              Then(Refused(m, 3),
                   Then(When(BehindEnd(h.offset, m.file), EFI_DEVICE_ERROR),
                        Then(Refused(m, 4), ZeroStatus(m, h, 5))))))
  }

  lemma PagesStatus(m: Machine, h: Phdr)
    requires m.open
    ensures var r := AtPages(m, h);
      && r.Status() == Then(Refused(m, 0), Then(Refused(m, 1),
           Then(When(!Free(m, h), EFI_NOT_FOUND), EFI_SUCCESS)))
      && (r.Done? ==>
            && r.m.answers == m.answers && r.m.tick == m.tick + 2 && r.m.file == m.file && r.m.open
            && |r.m.mem| == |m.mem| && r.m.pages == m.pages + Pages(h) && r.m.pools == m.pools
            && r.m.position == if h.offset == WORD - 1 then |m.file| else h.offset)
  {
    hide Machine.PagesFree, Range, Poke, SizeToPages;
    var s := m.SetPosition(h.offset);
    PagesFreeSame(m, m.Next(), h.paddr / PAGE, SizeToPages(h.memsz));
    PagesFreeSame(m, s.m, h.paddr / PAGE, SizeToPages(h.memsz));
    PagesFreeSame(m, s.m.Next(), h.paddr / PAGE, SizeToPages(h.memsz));
  }

  lemma CopyStatus(m: Machine, filesz: nat, paddr: nat)
    requires m.open
    ensures var r := CopyPayload(m, filesz, paddr);
      && r.Status() == Then(Refused(m, 0),
           Then(When(!m.PoolFits(m.Ask().address, filesz, LOADER_CODE), EFI_OUT_OF_RESOURCES),
                Then(Refused(m, 1), Then(When(m.position > |m.file|, EFI_DEVICE_ERROR),
                                         Then(Refused(m, 2), EFI_SUCCESS)))))
      && (r.Done? ==> r.m.answers == m.answers && r.m.tick == m.tick + 3)
  {
    hide Machine.PoolFits, Poke, Peek;
    var r1 := m.AllocatePool(LOADER_CODE, filesz);
    FitsSame(m, m.Next(), m.Ask().address, filesz, LOADER_CODE);
    if r1.Done? {
      var r2 := r1.m.Read(filesz, r1.value);
      assert r2.Done? ==> r2.m.CopyMem(paddr, r1.value, filesz).m.pools == r1.m.pools;
    }
  }

  /** The status of `load_segment` is that of its first failing call, and there is no other failure. */
  lemma SegmentStatusExactly(m: Machine, h: Phdr)
    requires m.open
    ensures Load(m, h).Status() == SegmentStatus(m, h)
  {
    hide Machine.SetPosition, Machine.AllocatePages, Machine.PagesFree, Machine.PoolFits, CopyPayload, Pages, Fill;
    PagesStatus(m, h);
    var r := AtPages(m, h);
    if r.Failed? { return; }
    if h.filesz > 0 {
      CopyStatus(r.m, h.filesz, h.paddr);
      FitsSame(m.(pages := m.pages + Pages(h)), r.m, r.m.Ask().address, h.filesz, LOADER_CODE);
    }
  }

  // ------------------------------------------------------------------ a run of segments

  /** The status of the first segment that fails, each starting where the one before it left the machine. */
  function RunStatus(m: Machine, hs: seq<Phdr>, k: nat): Status
    requires k <= |hs|
    decreases |hs| - k
  {
    if k == |hs| then EFI_SUCCESS
    else if hs[k].ptype != 1 then RunStatus(m, hs, k + 1)
    else if SegmentStatus(m, hs[k]) != EFI_SUCCESS then SegmentStatus(m, hs[k])
    else RunStatus(Load(m, hs[k]).m, hs, k + 1)
  }

  lemma {:induction false} RunStatusExactly(m: Machine, hs: seq<Phdr>, k: nat, loaded: nat)
    requires m.Valid() && m.open && k <= |hs| && AllConfined(hs)
    ensures LoadList(m, hs, k, loaded).status == RunStatus(m, hs, k)
    decreases |hs| - k
  {
    hide Load, SegmentStatus, Confined, Machine.Valid, Grows, InPlace;
    if k == |hs| {
    } else if hs[k].Loadable() {
      assert Confined(hs[k]);
      SegmentStatusExactly(m, hs[k]);
      StepSpec(m, hs[k]);
      if Load(m, hs[k]).Done? { RunStatusExactly(Load(m, hs[k]).m, hs, k + 1, (loaded + 1) % 0x1_0000); }
    } else {
      RunStatusExactly(m, hs, k + 1, loaded);
    }
  }
}
