/** Loading a list of program headers, one after another, and what the whole run guarantees. */
module SegmentList {
  import opened ElfFormat
  import opened Uefi
  import opened Frames
  import opened Segment

  /** How a load loop ended: the machine, the status, the loaded count and the index it stopped at. */
  datatype LoadReply = LoadReply(m: Machine, status: Status, loaded: nat, stop: nat)

  /** Loads the headers from index `k` on; the counter is 16 bits wide. */
  function LoadList(m: Machine, hs: seq<Phdr>, k: nat, loaded: nat): LoadReply
    requires k <= |hs|
    decreases |hs| - k
  {
    if k == |hs| then LoadReply(m, EFI_SUCCESS, loaded, k)
    else if !hs[k].Loadable() then LoadList(m, hs, k + 1, loaded)
    else
      var r := Load(m, hs[k]);
      if r.Failed? then LoadReply(r.m, r.error, loaded, k)
      else LoadList(r.m, hs, k + 1, (loaded + 1) % 0x1_0000)
  }

  /** Every loadable segment stays inside its own pages. */
  predicate AllConfined(hs: seq<Phdr>) {
    forall j | 0 <= j < |hs| :: hs[j].Loadable() ==> Confined(hs[j])
  }

  /** Page `p` belongs to a loadable segment with index in `lo..hi`. */
  ghost predicate Claimed(hs: seq<Phdr>, lo: nat, hi: nat, p: nat) {
    exists j :: lo <= j < hi && j < |hs| && hs[j].Loadable() && InPages(hs[j], p)
  }

  /** No page belongs to two loadable segments with index in `lo..hi`. */
  ghost predicate Disjoint(hs: seq<Phdr>, lo: nat, hi: nat) {
    forall i, j, p :: lo <= i < j < hi && j < |hs| && hs[i].Loadable() && hs[j].Loadable() && InPages(hs[i], p)
      ==> !InPages(hs[j], p)
  }

  /** A loaded segment: its pages are owned, and if the file has all of its bytes, memory holds it. */
  ghost predicate InPlace(m: Machine, h: Phdr) {
    Owned(m, h) && (InFile(h, |m.file|) ==> Holds(m, h))
  }

  ghost predicate AllInPlace(m: Machine, hs: seq<Phdr>, lo: nat, hi: nat) {
    forall j :: lo <= j < hi && j < |hs| && hs[j].Loadable() ==> InPlace(m, hs[j])
  }

  function CountLoadable(hs: seq<Phdr>, lo: nat, hi: nat): nat
    requires lo <= hi <= |hs|
    decreases hi - lo
  {
    if lo == hi then 0 else (if hs[lo].Loadable() then 1 else 0) + CountLoadable(hs, lo + 1, hi)
  }

  function PageSum(hs: seq<Phdr>, lo: nat): nat
    requires lo <= |hs|
    decreases |hs| - lo
  {
    if lo == |hs| then 0
    else (if hs[lo].Loadable() then SizeToPages(hs[lo].memsz) else 0) + PageSum(hs, lo + 1)
  }

  /** The sizes of the temporary buffers of the loadable segments with index in `lo..hi`. */
  function BufferSizes(hs: seq<Phdr>, lo: nat, hi: nat): seq<nat>
    requires hi <= |hs|
    decreases |hs| - lo
  {
    if lo >= hi then []
    else (if hs[lo].Loadable() then BufferSize(hs[lo]) else []) + BufferSizes(hs, lo + 1, hi)
  }

  // ------------------------------------------------------------------ one step preserves the past

  /** A loaded segment survives whatever keeps the memory in use. */
  lemma InPlaceKept(m: Machine, m': Machine, h: Phdr)
    requires Grows(m, m') && InPlace(m, h) && Confined(h)
    ensures InPlace(m', h)
  {
    hide NewByte;
  }

  // ------------------------------------------------------------------ the whole run

  lemma StepSpec(m: Machine, h: Phdr)
    requires m.Valid() && Confined(h)
    ensures var r := Load(m, h);
      && r.m.Valid() && Grows(m, r.m) && r.m.open == m.open && r.m.file == m.file
      && (r.Done? ==> r.m.pools == m.pools && InPlace(r.m, h))
  {
    hide Load, Confined, Machine.Valid, Grows, Holds, Owned;
    LoadSpec(m, h);
    GrowsSame(m, Load(m, h).m);
  }

  /**
   Where the loop stops, everything loadable before that point is in memory at the same time, in
   pages that were free and are now owned, and nothing that was in use has changed.
   */
  lemma {:induction false} RunSpec(m: Machine, hs: seq<Phdr>, k: nat, loaded: nat)
    requires m.Valid() && k <= |hs| && AllConfined(hs)
    ensures var r := LoadList(m, hs, k, loaded);
      && k <= r.stop <= |hs|
      && r.m.Valid() && Grows(m, r.m) && r.m.open == m.open
      && (r.stop == |hs| ==> r.m.pools == m.pools)
      && AllInPlace(r.m, hs, k, r.stop)
    decreases |hs| - k
  {
    hide Load, InPlace, Confined, Grows, Machine.Valid;
    if k == |hs| {
      SameGrows(m, m);
    } else if !hs[k].Loadable() {
      RunSpec(m, hs, k + 1, loaded);
    } else {
      assert Confined(hs[k]);
      StepSpec(m, hs[k]);
      var s := Load(m, hs[k]);
      if s.Done? {
        RunSpec(s.m, hs, k + 1, (loaded + 1) % 0x1_0000);
        var r := LoadList(s.m, hs, k + 1, (loaded + 1) % 0x1_0000);
        GrowsTrans(m, s.m, r.m);
        InPlaceKept(s.m, r.m, hs[k]);
      }
    }
  }

  /** The pages a load may take: those of the segment, if they were free. */
  lemma TakesPages(m: Machine, m': Machine, h: Phdr)
    ensures m'.pages == m.pages + Pages(h) ==> forall p :: p in m'.pages <==> p in m.pages || InPages(h, p)
    ensures m.PagesFree(h.paddr / PAGE, SizeToPages(h.memsz)) ==> forall p :: InPages(h, p) ==> p !in m.pages
  {
  }

  lemma ClaimedSplit(hs: seq<Phdr>, lo: nat, hi: nat)
    requires lo < |hs|
    ensures forall p :: Claimed(hs, lo, hi, p) <==>
      (lo < hi && hs[lo].Loadable() && InPages(hs[lo], p)) || Claimed(hs, lo + 1, hi, p)
  {
  }

  lemma DisjointSplit(hs: seq<Phdr>, lo: nat, hi: nat)
    requires lo < |hs| && Disjoint(hs, lo + 1, hi)
    requires hs[lo].Loadable() ==> forall p :: InPages(hs[lo], p) ==> !Claimed(hs, lo + 1, hi, p)
    ensures Disjoint(hs, lo, hi)
  {
  }

  /**
   The pages a run takes were free before it, belong to the segments it loaded and are pairwise
   disjoint.  Only the pages of the segment it failed on may come on top.
   */
  lemma {:induction false} RunPages(m: Machine, hs: seq<Phdr>, k: nat, loaded: nat)
    requires m.Valid() && k <= |hs| && AllConfined(hs)
    ensures var r := LoadList(m, hs, k, loaded);
      && k <= r.stop && Disjoint(hs, k, r.stop)
      && (forall p :: Claimed(hs, k, r.stop, p) ==> p !in m.pages)
      && (|| (forall p :: p in r.m.pages <==> p in m.pages || Claimed(hs, k, r.stop, p))
          || (forall p :: p in r.m.pages <==> p in m.pages || Claimed(hs, k, r.stop + 1, p)))
      && (r.stop == |hs| ==> forall p :: p in r.m.pages <==> p in m.pages || Claimed(hs, k, r.stop, p))
    decreases |hs| - k
  {
    hide Load, Confined, Grows, Machine.Valid, Machine.PagesFree, Owned, Holds, NewSizes;
    hide Pages, InPages, Claimed, Disjoint;
    if k < |hs| {
      var h, r := hs[k], LoadList(m, hs, k, loaded);
      ClaimedSplit(hs, k, r.stop);
      ClaimedSplit(hs, k, r.stop + 1);
      if h.Loadable() {
        assert Confined(h);
        LoadSpec(m, h);
        var s := Load(m, h);
        TakesPages(m, s.m, h);
        if s.Done? {
          GrowsSame(m, s.m);
          RunPages(s.m, hs, k + 1, (loaded + 1) % 0x1_0000);
          DisjointSplit(hs, k, r.stop);
        } else {
          NothingClaimed(hs, k);
        }
      } else {
        RunPages(m, hs, k + 1, loaded);
        DisjointSplit(hs, k, r.stop);
      }
    } else {
      NothingClaimed(hs, k);
    }
  }

  lemma NothingClaimed(hs: seq<Phdr>, k: nat)
    ensures Disjoint(hs, k, k)
    ensures forall p :: !Claimed(hs, k, k, p) && !Claimed(hs, k + 1, k + 1, p)
  {
  }

  /** The number of pages taken is the sum of the segments' rounded sizes. */
  lemma {:induction false} RunPageCount(m: Machine, hs: seq<Phdr>, k: nat, loaded: nat)
    requires m.Valid() && k <= |hs| && AllConfined(hs)
    ensures var r := LoadList(m, hs, k, loaded);
      r.stop == |hs| ==> |r.m.pages| == |m.pages| + PageSum(hs, k)
    decreases |hs| - k
  {
    hide Load, Confined, Owned, Holds, Grows, NewSizes, Machine.Valid, Machine.PagesFree, InPages, Pages;
    if k == |hs| {
    } else {
      if hs[k].Loadable() {
        assert Confined(hs[k]);
        LoadSpec(m, hs[k]);
        var s := Load(m, hs[k]);
        if s.Done? {
          GrowsSame(m, s.m);
          PagesTaken(m, s.m, hs[k]);
          RunPageCount(s.m, hs, k + 1, (loaded + 1) % 0x1_0000);
        }
      } else {
        RunPageCount(m, hs, k + 1, loaded);
      }
    }
  }

  lemma PagesTaken(m: Machine, m': Machine, h: Phdr)
    requires m.PagesFree(h.paddr / PAGE, SizeToPages(h.memsz)) && m'.pages == m.pages + Pages(h)
    ensures |m'.pages| == |m.pages| + SizeToPages(h.memsz)
  {
    UnionSize(m.pages, Pages(h));
    RangeSize(h.paddr / PAGE, SizeToPages(h.memsz), LOADER_DATA);
  }

  lemma UnionSize(a: map<nat, Kind>, b: map<nat, Kind>)
    requires a.Keys !! b.Keys
    ensures |a + b| == |a| + |b|
  {
  }

  lemma {:induction false} RangeSize(base: nat, count: nat, kind: Kind)
    ensures |Range(base, count, kind)| == count
  {
    if count == 0 {
    } else {
      RangeSize(base, count - 1, kind);
    }
  }

  // ------------------------------------------------------------------ what a run may touch

  lemma SizesAppend(a: Machine, b: Machine, c: Machine)
    requires a.granted <= b.granted <= c.granted
    ensures NewSizes(a, c) == NewSizes(a, b) + NewSizes(b, c)
  {
  }

  /** One temporary buffer for each loaded segment with file bytes, of that size, and no other. */
  lemma {:induction false} RunBuffers(m: Machine, hs: seq<Phdr>, k: nat, loaded: nat)
    requires m.Valid() && k <= |hs| && AllConfined(hs)
    ensures var r := LoadList(m, hs, k, loaded);
      && k <= r.stop <= |hs| && m.granted <= r.m.granted
      && (r.stop == |hs| ==> NewSizes(m, r.m) == BufferSizes(hs, k, |hs|))
      && (r.stop < |hs| ==>
            NewSizes(m, r.m) == BufferSizes(hs, k, r.stop) || NewSizes(m, r.m) == BufferSizes(hs, k, r.stop + 1))
    decreases |hs| - k
  {
    hide Load, Confined, Owned, Holds, Grows, NewSizes, Machine.Valid, Machine.PagesFree, InPages, Pages, BufferSize;
    if k == |hs| {
      NoSizes(m);
    } else if !hs[k].Loadable() {
      RunBuffers(m, hs, k + 1, loaded);
    } else {
      assert Confined(hs[k]);
      LoadSpec(m, hs[k]);
      var s := Load(m, hs[k]);
      GrowsSame(m, s.m);
      if s.Done? {
        RunBuffers(s.m, hs, k + 1, (loaded + 1) % 0x1_0000);
        SizesAppend(m, s.m, LoadList(s.m, hs, k + 1, (loaded + 1) % 0x1_0000).m);
      } else {
        assert BufferSizes(hs, k + 1, k + 1) == [];
      }
    }
  }

  lemma NoSizes(m: Machine)
    ensures NewSizes(m, m) == []
  {
  }

  /**
   Every byte a run changes lies in a page of a loadable segment up to the one it stopped at, or in a
   temporary buffer handed out on the way.
   */
  lemma RunTouches(m: Machine, hs: seq<Phdr>, k: nat, loaded: nat, i: nat)
    requires m.Valid() && k <= |hs| && AllConfined(hs) && i < |m.mem|
    ensures var r := LoadList(m, hs, k, loaded);
      && |r.m.mem| == |m.mem|
      && (r.m.mem[i] != m.mem[i] ==> Claimed(hs, k, r.stop + 1, i / PAGE) || InNewBuffer(m, r.m, i))
  {
    hide LoadList, Machine.Valid, Machine.InUse, Confined, Disjoint, InPages;
    RunSpec(m, hs, k, loaded);
    RunPages(m, hs, k, loaded);
  }

  // ------------------------------------------------------------------ counting and prefixes

  /** The count of loaded segments is exact as long as 16 bits hold it. */
  lemma {:induction false} RunCount(m: Machine, hs: seq<Phdr>, k: nat, loaded: nat)
    requires k <= |hs| && loaded + (|hs| - k) < 0x1_0000
    ensures var r := LoadList(m, hs, k, loaded);
      k <= r.stop <= |hs| && r.loaded == loaded + CountLoadable(hs, k, r.stop)
    decreases |hs| - k
  {
    hide Load;
    if k == |hs| {
    } else {
      if hs[k].Loadable() {
        if Load(m, hs[k]).Done? { RunCount(Load(m, hs[k]).m, hs, k + 1, loaded + 1); }
      } else {
        RunCount(m, hs, k + 1, loaded);
      }
    }
  }

  /**
   Failure is prefix-exact: stopping at header `stop` is loading all headers before it and then
   failing on that one; what follows it in the table makes no difference.
   */
  lemma {:induction false} PrefixExact(m: Machine, hs: seq<Phdr>, hs': seq<Phdr>, k: nat, loaded: nat)
    requires k <= |hs|
    requires var r := LoadList(m, hs, k, loaded);
      r.stop < |hs| && r.stop < |hs'| && hs'[..r.stop + 1] == hs[..r.stop + 1]
    ensures var r := LoadList(m, hs, k, loaded);
      && k <= r.stop && LoadList(m, hs', k, loaded) == r
      && var before := LoadList(m, hs[..r.stop], k, loaded);
         && before.status == EFI_SUCCESS && before.loaded == r.loaded
         && var last := Load(before.m, hs[r.stop]); last.Failed? && last.m == r.m && last.error == r.status
    decreases |hs| - k
  {
    hide Load;
    StopBound(m, hs, k, loaded);
    var r := LoadList(m, hs, k, loaded);
    assert forall i :: 0 <= i <= r.stop ==> hs'[i] == hs'[..r.stop + 1][i] == hs[i];
    if hs[k].Loadable() {
      var s := Load(m, hs[k]);
      if s.Done? {
        StopBound(s.m, hs, k + 1, (loaded + 1) % 0x1_0000);
        PrefixExact(s.m, hs, hs', k + 1, (loaded + 1) % 0x1_0000);
      }
    } else {
      StopBound(m, hs, k + 1, loaded);
      PrefixExact(m, hs, hs', k + 1, loaded);
    }
  }

  lemma {:induction false} StopBound(m: Machine, hs: seq<Phdr>, k: nat, loaded: nat)
    requires k <= |hs|
    ensures var r := LoadList(m, hs, k, loaded);
      && k <= r.stop <= |hs| && (r.status == EFI_SUCCESS <==> r.stop == |hs|)
      && (r.stop < |hs| ==> hs[r.stop].Loadable() && IsError(r.status))
    decreases |hs| - k
  {
    hide Load;
    if k == |hs| {
    } else {
      if hs[k].Loadable() {
        if Load(m, hs[k]).Done? { StopBound(Load(m, hs[k]).m, hs, k + 1, (loaded + 1) % 0x1_0000); }
      } else {
        StopBound(m, hs, k + 1, loaded);
      }
    }
  }
}
