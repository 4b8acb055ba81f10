/** Exactly when segments load, and exactly which headers are safe to load. */
module LoadConditions {
  import opened Bytes
  import opened ElfFormat
  import opened Uefi
  import opened Frames
  import opened Segment
  import opened SegmentList
  import opened SegmentStatuses

  // ------------------------------------------------------------------ when a list loads

  /** The firmware refuses none of its next `n` calls. */
  ghost predicate NoRefusal(m: Machine, n: nat) {
    forall t :: m.tick <= t < m.tick + n ==> m.answers(t).refusal.None?
  }

  /** The firmware refuses nothing while `h` is loaded, and has room for the payload's buffer. */
  ghost predicate Cooperates(m: Machine, h: Phdr) {
    NoRefusal(m, 6) && (h.filesz > 0 && Free(m, h) ==> BufferFits(m, h))
  }

  /** With a firmware that cooperates, a segment loads exactly if its pages are free, and is else not found. */
  lemma LoadsExactly(m: Machine, h: Phdr)
    requires m.Valid() && m.open && Loads(h, |m.file|) && Cooperates(m, h)
    ensures Load(m, h).Done? <==> Free(m, h)
    ensures Load(m, h).Failed? ==> Load(m, h).error == EFI_NOT_FOUND
  {
    hide Load, Machine.Valid, BufferFits, Free, Confined;
    SegmentStatusExactly(m, h);
  }

  /** The firmware cooperates all along a run from header `k` on. */
  ghost predicate Obliges(m: Machine, hs: seq<Phdr>, k: nat)
    requires k <= |hs|
    decreases |hs| - k
  {
    if k == |hs| then true
    else if !hs[k].Loadable() then Obliges(m, hs, k + 1)
    else Cooperates(m, hs[k]) && (Load(m, hs[k]).Done? ==> Obliges(Load(m, hs[k]).m, hs, k + 1))
  }

  /** All loadable segments from header `k` on lie in free pages. */
  ghost predicate AllFree(m: Machine, hs: seq<Phdr>, k: nat) {
    forall j :: k <= j < |hs| && hs[j].Loadable() ==> Free(m, hs[j])
  }

  ghost predicate Apart(h: Phdr, h': Phdr) {
    forall p :: InPages(h, p) ==> !InPages(h', p)
  }

  /** After `h` is loaded, the pages of another segment are free if they were and are apart from it. */
  lemma FreeAfter(m: Machine, m': Machine, h: Phdr, h': Phdr)
    requires m'.pages == m.pages + Pages(h) && m'.pools == m.pools && |m'.mem| == |m.mem|
    ensures Free(m', h') <==> Free(m, h') && Apart(h, h')
  {
    assert forall p :: p in m'.pages <==> p in m.pages || InPages(h, p);
    assert Free(m', h') ==> forall p :: p in m'.pages ==> !InPages(h', p);
    assert Free(m, h') ==> forall p :: p in m.pages ==> !InPages(h', p);
  }

  lemma DisjointStep(hs: seq<Phdr>, k: nat)
    requires k < |hs|
    ensures Disjoint(hs, k, |hs|) <==>
      && Disjoint(hs, k + 1, |hs|)
      && (hs[k].Loadable() ==> forall j :: k < j < |hs| && hs[j].Loadable() ==> Apart(hs[k], hs[j]))
  {
  }

  /**
   A table loads exactly if its segments are pairwise disjoint and lie in free pages, whatever the
   order of the headers, as long as the firmware cooperates; otherwise it ends in EFI_NOT_FOUND.
   */
  lemma {:induction false} RunSucceedsExactly(m: Machine, hs: seq<Phdr>, k: nat, loaded: nat)
    requires m.Valid() && m.open && k <= |hs| && AllConfined(hs) && Obliges(m, hs, k)
    requires forall j :: k <= j < |hs| && hs[j].Loadable() ==> InFile(hs[j], |m.file|)
    ensures LoadList(m, hs, k, loaded).status
      == if Disjoint(hs, k, |hs|) && AllFree(m, hs, k) then EFI_SUCCESS else EFI_NOT_FOUND
    decreases |hs| - k
  {
    hide Load, Confined, InFile, Cooperates, Disjoint, Apart, Free, Pages, InPages, Grows, Machine.Valid, InPlace;
    if k < |hs| {
      DisjointStep(hs, k);
      if hs[k].Loadable() {
        assert Confined(hs[k]) && InFile(hs[k], |m.file|);
        LoadsExactly(m, hs[k]);
        StepSpec(m, hs[k]);
        TakesExactly(m, hs[k]);
        var s := Load(m, hs[k]);
        if s.Done? {
          RunSucceedsExactly(s.m, hs, k + 1, (loaded + 1) % 0x1_0000);
          forall j | k < j < |hs| && hs[j].Loadable()
            ensures Free(s.m, hs[j]) <==> Free(m, hs[j]) && Apart(hs[k], hs[j])
          {
            FreeAfter(m, s.m, hs[k], hs[j]);
          }
        }
      } else {
        RunSucceedsExactly(m, hs, k + 1, loaded);
      }
    } else {
      NothingClaimed(hs, k);
    }
  }

  lemma TakesExactly(m: Machine, h: Phdr)
    requires m.Valid() && Confined(h)
    ensures var r := Load(m, h);
      r.Done? ==> r.m.pages == m.pages + Pages(h) && |r.m.mem| == |m.mem|
  {
    hide Load, Confined, Machine.Valid, Grows, Holds, Owned, NewSizes;
    LoadSpec(m, h);
    GrowsSame(m, Load(m, h).m);
  }

  // ------------------------------------------------------------------ which headers are safe

  /** The header's numbers leave room for a memory and a file that hold the segment. */
  predicate Representable(h: Phdr) {
    h.offset + h.filesz < WORD && h.paddr + h.memsz + 2 * h.filesz + 2 * PAGE <= WORD
  }

  /** Loading the segment successfully never damages anything that was in use. */
  ghost predicate Harmless(h: Phdr) {
    forall m: Machine :: m.Valid() && Load(m, h).Done? ==> Grows(m, Load(m, h).m)
  }

  /** A byte outside the segment's pages that a segment which is not confined overwrites. */
  function Victim(h: Phdr): nat {
    var end := (h.paddr / PAGE + SizeToPages(h.memsz)) * PAGE;
    if h.filesz > h.memsz && h.paddr + h.filesz > end then h.paddr + h.filesz else end
  }

  /** A machine full of ones, a file full of zeros, an obliging firmware, and one owned page. */
  function Witness(h: Phdr): Machine {
    var page := Victim(h) / PAGE;
    var buffer := (page + 1) * PAGE;
    Machine(seq(buffer + h.filesz, _ => 1), map[page := 0], map[], [], seq(h.offset + h.filesz, _ => 0),
            true, 0, 0, true, DESCRIPTOR_SIZE, _ => Answer(None, buffer, []), 0)
  }

  lemma WitnessValid(h: Phdr)
    requires Representable(h)
    ensures var m := Witness(h);
      && m.Valid() && m.InUse(Victim(h)) && Victim(h) < |m.mem| && m.mem[Victim(h)] == 1
      && Free(m, h)
  {
  }

  /** The witness grants the pages and the payload's buffer. */
  lemma WitnessGrants(h: Phdr)
    requires Representable(h)
    ensures var m, m' := Witness(h), AtPages(Witness(h), h).m;
      && Load(m, h) == (var (m3, _) :- if h.filesz > 0 then CopyPayload(m', h.filesz, h.paddr) else Done(m', ());
                        ZeroFill(m3, h.filesz, h.memsz, h.paddr))
      && m'.mem == m.mem && m'.file == m.file && m'.answers == m.answers && m'.open
      && (h.filesz > 0 ==> m'.position == h.offset && m'.PoolFits(m'.Ask().address, h.filesz, LOADER_CODE))
  {
    hide Machine.Valid, Machine.InUse, CopyPayload, ZeroFill;
    var m := Witness(h);
    WitnessValid(h);
    assert m.Scribble(h.paddr / PAGE * PAGE, SizeToPages(h.memsz) * PAGE, []).mem == m.mem;
  }

  /** A payload of zeros is copied as zeros. */
  lemma ZeroPayload(m: Machine, filesz: nat, paddr: nat)
    requires forall t :: m.answers(t).refusal.None?
    requires m.PoolFits(m.Ask().address, filesz, LOADER_CODE)
    requires m.open && m.position + filesz <= |m.file| && forall i :: 0 <= i < |m.file| ==> m.file[i] == 0
    ensures var r := CopyPayload(m, filesz, paddr);
      && r.Done? && |r.m.mem| == |m.mem| && r.m.answers == m.answers
      && forall i :: paddr <= i < paddr + filesz && i < |m.mem| ==> r.m.mem[i] == 0
  {
  }

  /** The zero fill of an obliging firmware leaves a zero wherever it reaches, and where one was. */
  lemma ZeroedAt(m: Machine, h: Phdr, i: nat)
    requires Representable(h) && m.Ask().refusal.None? && i < |m.mem|
    requires (h.filesz > h.memsz && h.paddr + h.filesz <= i)
             || h.paddr + h.filesz <= i < h.paddr + h.memsz || m.mem[i] == 0
    requires i < WORD
    ensures var r := ZeroFill(m, h.filesz, h.memsz, h.paddr); r.Done? && r.m.mem[i] == 0
  {
  }

  lemma VictimReached(h: Phdr)
    requires Representable(h) && !Confined(h)
    ensures (h.filesz > h.memsz && h.paddr + h.filesz <= Victim(h)) || h.paddr <= Victim(h) < h.paddr + h.memsz
    ensures Victim(h) < WORD
  {
  }

  lemma VictimOverwritten(h: Phdr)
    requires Representable(h) && !Confined(h)
    ensures var r := Load(Witness(h), h); r.Done? && r.m.mem[Victim(h)] == 0
  {
    hide Load, CopyPayload, Machine.PoolFits, AtPages, Machine.Valid, Machine.InUse, Free, ZeroFill, Victim, Confined;
    WitnessGrants(h);
    WitnessValid(h);
    var m := AtPages(Witness(h), h).m;
    if h.filesz > 0 { ZeroPayload(m, h.filesz, h.paddr); }
    var m3 := if h.filesz > 0 then CopyPayload(m, h.filesz, h.paddr).m else m;
    VictimReached(h);
    ZeroedAt(m3, h, Victim(h));
  }

  /** Staying inside its own pages is exactly what makes a segment harmless to load. */
  lemma HarmlessExactly(h: Phdr)
    requires Representable(h)
    ensures Harmless(h) <==> Confined(h)
  {
    hide Load, Machine.Valid, Machine.InUse;
    if Confined(h) {
      forall m: Machine | m.Valid() && Load(m, h).Done?
        ensures Grows(m, Load(m, h).m)
      {
        LoadSpec(m, h);
      }
    } else {
      WitnessValid(h);
      VictimOverwritten(h);
    }
  }
}
