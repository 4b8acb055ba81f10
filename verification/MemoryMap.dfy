/** `get_memory_map` of memory_map.c. */
module MemoryMap {
  import opened Bits
  import opened Bytes
  import opened Uefi
  import opened Frames
  import opened Statuses
  import opened FirmwareServices

  datatype MapResult = MapResult(m: Machine, status: Status, buffer: nat, size: nat, key: nat)

  /** Asks for the size, allocates that much and room for two more descriptors, and asks again. */
  function GetMapOf(m: Machine, size: nat): MapResult
  {
    var r := m.GetMemoryMap(size, 0);
    if IsError(r.status) && r.status != EFI_BUFFER_TOO_SMALL then MapResult(r.m, r.status, 0, r.size, r.key)
    else
      var want := (r.size + 2 * m.stride) % WORD;
      match r.m.AllocatePool(LOADER_DATA, want)
      case Failed(m', e) => MapResult(m', e, 0, want, r.key)
      case Done(m', buffer) =>
        var s := m'.GetMemoryMap(want, buffer);
        MapResult(s.m, s.status, buffer, s.size, s.key)
  }

  method GetMap(fw: Firmware, memoryMapSize: nat)
    returns (status: Status, memoryMap: nat, size: nat, key: nat, descriptorSize: pos)
    modifies fw
    ensures MapResult(fw.State(), status, memoryMap, size, key) == GetMapOf(old(fw.State()), memoryMapSize)
    ensures descriptorSize == fw.stride
  {
    hide Machine.GetMemoryMap, Machine.AllocatePool;
    memoryMap := 0;
    status, size, key, descriptorSize := fw.GetMemoryMap(memoryMapSize, 0);
    if IsError(status) {
      if status != EFI_BUFFER_TOO_SMALL { return; }
    }
    size := (size + 2 * descriptorSize) % WORD;
    status, memoryMap := fw.AllocatePool(LOADER_DATA, size, memoryMap);
    if IsError(status) { return; }
    status, size, key, descriptorSize := fw.GetMemoryMap(size, memoryMap);
    if IsError(status) { return; }
    status := EFI_SUCCESS;
  }

  // ------------------------------------------------------------------ proofs

  /** A map query changes nothing but its buffer, and answers with a map that is right or an error. */
  lemma QueryKeeps(m: Machine, size: nat, buffer: nat)
    requires m.Valid()
    ensures var r := m.GetMemoryMap(size, buffer);
      && r.m.Valid() && r.m.pools == m.pools && r.m.pages == m.pages && r.m.open == m.open
      && r.m.mapKey == m.mapKey && r.m.tick == m.tick + 1 && SameExcept(m, r.m, buffer, size)
      && (r.status == EFI_SUCCESS || (IsError(r.status) && r.m.mem == m.mem))
      && (r.status == EFI_SUCCESS <==> buffer != 0 && m.RightMap(m.Ask().data) && |m.Ask().data| <= size)
      && (r.status == EFI_SUCCESS ==>
            r.size == |m.Ask().data| && r.key == m.mapKey && r.m.mem == Poke(m.mem, buffer, m.Ask().data))
  {
    hide Machine.RightMap, Machine.Valid;
    SameStateValid(m, m.GetMemoryMap(size, buffer).m);
  }

  /** A map read back from where it was put is the map. */
  lemma MapReadBack(m: Machine, m': Machine, buffer: nat, bs: seq<byte>)
    requires m.RightMap(bs) && m'.mem == Poke(m.mem, buffer, bs) && buffer + |bs| <= |m.mem|
    requires m'.pages == m.pages && m'.pools == m.pools
    ensures m'.DescribedBy(DecodeMap(Peek(m'.mem, buffer, |bs|), m.stride))
  {
    hide Machine.DescribedBy, DecodeMap;
    PeekPoke(m.mem, buffer, bs);
    SameDescription(m, m', DecodeMap(bs, m.stride));
  }

  /** Whether a map is right depends on page ownership and pool buffers only. */
  lemma SameDescription(m: Machine, m': Machine, ds: seq<Descriptor>)
    requires |m'.mem| == |m.mem| && m'.pages == m.pages && m'.pools == m.pools
    requires m.DescribedBy(ds)
    ensures m'.DescribedBy(ds)
  {
    forall p | 0 <= p < |m'.mem| / PAGE
      ensures m'.DescribesPage(ds, p)
    {
      assert m.DescribesPage(ds, p);
      assert m'.FreePage(p) == m.FreePage(p);
      assert forall kind :: m'.PageIs(p, kind) == m.PageIs(p, kind);
    }
  }

  /** The size that is allocated for the map, after a first query that answers with `n` bytes. */
  function Wanted(m: Machine, n: nat): nat { (n + 2 * m.stride) % WORD }

  /** The machine at the second query, if the buffer is granted. */
  function AtSecond(m: Machine): Outcome<nat> {
    m.GetMemoryMap(0, 0).m.AllocatePool(LOADER_DATA, Wanted(m, |m.Ask().data|))
  }

  /** The first query keeps everything, and asks for more room unless the answer is wrong or empty. */
  lemma FirstQuery(m: Machine)
    requires m.Valid()
    ensures var r := m.GetMemoryMap(0, 0);
      && r.m.Valid() && Grows(m, r.m) && r.m.pages == m.pages && r.m.pools == m.pools && r.m.open == m.open
      && r.m == m.Next() && IsError(r.status)
      && (r.status == EFI_BUFFER_TOO_SMALL <==> m.RightMap(m.Ask().data) && m.Ask().data != [])
      && (r.status == EFI_BUFFER_TOO_SMALL ==> r.size == |m.Ask().data|)
  {
    hide Machine.RightMap, Machine.Valid, Grows;
    SameStateValid(m, m.Next());
    SameGrows(m, m.Next());
  }

  /** The allocation between the queries. */
  lemma SecondQuery(m: Machine)
    requires m.Valid()
    ensures var s := AtSecond(m);
      && s.m.Valid() && Grows(m, s.m) && s.m.pages == m.pages && s.m.open == m.open
      && (s.Done? ==>
            && s.value != 0 && s.value !in m.pools && Unused(m, s.value, Wanted(m, |m.Ask().data|))
            && AllNew(m, s.m, s.value, Wanted(m, |m.Ask().data|))
            && s.m.pools == m.pools[s.value := Pool(Wanted(m, |m.Ask().data|), LOADER_DATA)])
  {
    hide Machine.GetMemoryMap, Machine.AllocatePool, Machine.Valid, Machine.InUse, Grows, NewByte;
    FirstQuery(m);
    var q := m.GetMemoryMap(0, 0).m;
    AllocatePoolKeeps(q, LOADER_DATA, Wanted(m, |m.Ask().data|));
    var s := AtSecond(m);
    GrowsTrans(m, q, s.m);
    if s.Done? {
      UnusedBefore(m, q, s.value, Wanted(m, |m.Ask().data|));
      forall i | s.value <= i < s.value + Wanted(m, |m.Ask().data|) && i < |m.mem|
        ensures NewByte(m, s.m, i)
      {
        GrowsSame(m, q);
        NewByteEarlier(m, q, s.m, i);
      }
    }
  }

  /** The procedure in terms of its three calls. */
  lemma GetMapSteps(m: Machine)
    requires m.Valid()
    ensures var q, s, r := m.GetMemoryMap(0, 0), AtSecond(m), GetMapOf(m, 0);
      if q.status != EFI_BUFFER_TOO_SMALL then r == MapResult(q.m, q.status, 0, q.size, q.key)
      else if s.Failed? then r.m == s.m && r.status == s.error && r.buffer == 0
      else
        var t := s.m.GetMemoryMap(Wanted(m, |m.Ask().data|), s.value);
        r == MapResult(t.m, t.status, s.value, t.size, t.key)
  {
    hide Machine.GetMemoryMap, Machine.AllocatePool, Machine.Valid, Grows;
    FirstQuery(m);
  }

  /**
   A successful call returns a map that describes the machine it leaves behind, in a fresh buffer,
   under a key that is current.
   */
  lemma MapIsCurrent(m: Machine)
    requires m.Valid()
    ensures var r := GetMapOf(m, 0);
      && r.m.Valid() && Grows(m, r.m) && r.m.pages == m.pages && r.m.open == m.open
      && (r.status != EFI_SUCCESS ==> IsError(r.status))
      && (r.status == EFI_SUCCESS ==>
            && r.buffer != 0 && r.buffer !in m.pools && r.m.pools.Keys == m.pools.Keys + {r.buffer}
            && r.size <= r.m.pools[r.buffer].size
            && r.key == r.m.mapKey
            && r.m.DescribedBy(DecodeMap(Peek(r.m.mem, r.buffer, r.size), m.stride)))
  {
    hide Machine.GetMemoryMap, Machine.DescribedBy, Machine.RightMap, DecodeMap, Peek, AtSecond, GetMapOf;
    hide Machine.Valid, Machine.InUse, Grows, Unused, AllNew;
    GetMapSteps(m);
    FirstQuery(m);
    SecondQuery(m);
    var s := AtSecond(m);
    if m.GetMemoryMap(0, 0).status != EFI_BUFFER_TOO_SMALL || s.Failed? { return; }
    GrowsSame(m, s.m);
    var want := Wanted(m, |m.Ask().data|);
    QueryKeeps(s.m, want, s.value);
    WriteKeeps(m, s.m, s.m.GetMemoryMap(want, s.value).m, s.value, want);
    PoolBound(s.m, s.value);
    var t := s.m.GetMemoryMap(want, s.value);
    if t.status == EFI_SUCCESS { MapReadBack(s.m, t.m, s.value, s.m.Ask().data); }
  }

  /** How many descriptors the firmware's answer to call `tick` holds. */
  function Descriptors(m: Machine, tick: nat): nat
  {
    |m.answers(tick).data| / m.stride
  }

  /**
   Two descriptors of slack are exactly enough.  Once the buffer is allocated and the firmware
   answers the second query, that query fails as too small if and only if the map has grown by more
   than two descriptors since the first; and in the other case it succeeds.
   */
  lemma SlackIsExact(m: Machine)
    requires m.Valid()
    ensures var r := GetMapOf(m, 0);
      r.buffer != 0 && r.status != EFI_DEVICE_ERROR ==>
        && (r.status == EFI_BUFFER_TOO_SMALL <==> Descriptors(m, m.tick + 2) > Descriptors(m, m.tick) + 2)
        && (r.status == EFI_SUCCESS <==> Descriptors(m, m.tick + 2) <= Descriptors(m, m.tick) + 2)
  {
    hide Machine.GetMemoryMap, Machine.AllocatePool, Machine.Valid, AtSecond, GetMapOf;
    GetMapSteps(m);
    QueryAnswer(m, 0, 0);
    var n := |m.Ask().data|;
    SecondTick(m);
    if GetMapOf(m, 0).buffer != 0 && GetMapOf(m, 0).status != EFI_DEVICE_ERROR {
      var s := AtSecond(m);
      QueryAnswer(s.m, Wanted(m, n), s.value);
      DescriptorBytes(n, |m.answers(m.tick + 2).data|, m.stride);
    }
  }

  lemma SecondTick(m: Machine)
    ensures var s := AtSecond(m);
      s.Done? ==> s.value != 0 && s.m.answers == m.answers && s.m.tick == m.tick + 2 && s.m.stride == m.stride
  {
  }

  /** What a query says about the answer it got. */
  lemma QueryAnswer(m: Machine, size: nat, buffer: nat)
    ensures var r, n := m.GetMemoryMap(size, buffer), |m.answers(m.tick).data|;
      && (buffer == 0 ==> IsError(r.status))
      && (r.status != EFI_DEVICE_ERROR ==> n % m.stride == 0 && n + 2 * m.stride < WORD)
      && (r.status != EFI_DEVICE_ERROR ==> (r.status == EFI_BUFFER_TOO_SMALL <==> size < n))
      && (r.status == EFI_BUFFER_TOO_SMALL ==> r.size == n)
      && (r.status != EFI_DEVICE_ERROR && buffer != 0 ==> r.status in {EFI_SUCCESS, EFI_BUFFER_TOO_SMALL})
  {
    hide Machine.DescribedBy, DecodeMap;
  }

  lemma DescriptorBytes(a: nat, b: nat, stride: pos)
    requires a % stride == 0 && b % stride == 0
    ensures b > a + 2 * stride <==> b / stride > a / stride + 2
  {
    var x, y := a / stride, b / stride;
    assert a == x * stride && b == y * stride;
    if y > x + 2 {
      MulMonotonic(x + 3, y, stride);
    } else {
      MulMonotonic(y, x + 2, stride);
    }
  }

  lemma MulMonotonic(x: nat, y: nat, k: nat)
    requires x <= y
    ensures x * k <= y * k
  {
  }

  /**
   The firmware's side of a successful call: both answers are right maps of the memory at their time,
   the first is not empty, the buffer is granted, and the map grows by at most two descriptors.
   */
  predicate MapGranted(m: Machine) {
    var first, second := m.answers(m.tick).data, m.answers(m.tick + 2).data;
    var buffer, want := m.answers(m.tick + 1).address, |first| + 2 * m.stride;
    && m.RightMap(first) && first != []
    && m.answers(m.tick + 1).refusal.None? && m.PoolFits(buffer, want, LOADER_DATA)
    && m.(pools := m.pools[buffer := Pool(want, LOADER_DATA)]).RightMap(second)
    && |second| / m.stride <= |first| / m.stride + 2
  }

  lemma WantedExact(m: Machine, bs: seq<byte>)
    requires m.RightMap(bs)
    ensures Wanted(m, |bs|) == |bs| + 2 * m.stride && |bs| % m.stride == 0
  {
    hide Machine.DescribedBy, DecodeMap;
  }

  lemma SameRightMap(m: Machine, m': Machine, bs: seq<byte>)
    requires |m'.mem| == |m.mem| && m'.pages == m.pages && m'.pools == m.pools && m'.stride == m.stride
    ensures m'.RightMap(bs) <==> m.RightMap(bs)
  {
    hide Machine.DescribedBy, DecodeMap;
    if |bs| % m.stride == 0 {
      var ds := DecodeMap(bs, m.stride);
      if m.DescribedBy(ds) { SameDescription(m, m', ds); }
      if m'.DescribedBy(ds) { SameDescription(m', m, ds); }
    }
  }

  /** The buffer is granted exactly if the firmware does not refuse it and its place fits. */
  lemma SecondGranted(m: Machine)
    requires m.Valid()
    ensures var s, place := AtSecond(m), m.answers(m.tick + 1).address;
      && s.Status() == Then(Refused(m, 1),
           Then(When(!m.PoolFits(place, Wanted(m, |m.Ask().data|), LOADER_DATA), EFI_OUT_OF_RESOURCES), EFI_SUCCESS))
      && (s.Done? ==> s.value == place)
  {
    hide Machine.GetMemoryMap, Machine.PoolFits;
    FirstQuery(m);
    FitsSame(m, m.Next(), m.answers(m.tick + 1).address, Wanted(m, |m.Ask().data|), LOADER_DATA);
  }

  /** The machine with the map's buffer in it. */
  function WithBuffer(m: Machine, buffer: nat, size: nat): Machine {
    m.(pools := m.pools[buffer := Pool(size, LOADER_DATA)])
  }

  /** The status of the call: of the first thing that goes wrong in its three steps. */
  function MapStatus(m: Machine): Status {
    var first, second := m.answers(m.tick).data, m.answers(m.tick + 2).data;
    var buffer, want := m.answers(m.tick + 1).address, |first| + 2 * m.stride;
    Then(When(!m.RightMap(first), EFI_DEVICE_ERROR),
         Then(When(first == [], EFI_INVALID_PARAMETER),
              Then(Refused(m, 1),
                   Then(When(!m.PoolFits(buffer, want, LOADER_DATA), EFI_OUT_OF_RESOURCES),
                        Then(When(!WithBuffer(m, buffer, want).RightMap(second), EFI_DEVICE_ERROR),
                             Then(When(|second| / m.stride > |first| / m.stride + 2, EFI_BUFFER_TOO_SMALL),
                                  EFI_SUCCESS))))))
  }

  /** Every status of `get_memory_map`, for every firmware. */
  lemma MapStatusExactly(m: Machine)
    requires m.Valid()
    ensures GetMapOf(m, 0).status == MapStatus(m)
  {
    hide Machine.GetMemoryMap, Machine.RightMap, Machine.PoolFits, AtSecond, GetMapOf, Wanted;
    hide Machine.Valid, Machine.InUse, Grows, Unused, AllNew;
    GetMapSteps(m);
    QueryStatus(m, 0, 0);
    FirstQuery(m);
    SecondQuery(m);
    SecondGranted(m);
    SecondTick(m);
    var first, second := m.answers(m.tick).data, m.answers(m.tick + 2).data;
    if m.RightMap(first) && first != [] {
      WantedExact(m, first);
      var s, want := AtSecond(m), |first| + 2 * m.stride;
      if s.Done? {
        GrowsSame(m, s.m);
        QueryStatus(s.m, want, s.value);
        var m' := m.(pools := m.pools[s.value := Pool(want, LOADER_DATA)]);
        SameRightMap(m', s.m, second);
        if m'.RightMap(second) {
          WantedExact(m', second);
          DescriptorBytes(|first|, |second|, m.stride);
        }
      }
    }
  }

  /** The status of one query. */
  lemma QueryStatus(m: Machine, size: nat, buffer: nat)
    ensures m.GetMemoryMap(size, buffer).status
      == Then(When(!m.RightMap(m.Ask().data), EFI_DEVICE_ERROR),
              Then(When(size < |m.Ask().data|, EFI_BUFFER_TOO_SMALL),
                   Then(When(buffer == 0, EFI_INVALID_PARAMETER), EFI_SUCCESS)))
  {
    hide Machine.RightMap;
  }

  /** The call succeeds exactly if the firmware does its part. */
  lemma MapSucceedsExactly(m: Machine)
    requires m.Valid()
    ensures GetMapOf(m, 0).status == EFI_SUCCESS <==> MapGranted(m)
  {
    hide GetMapOf, Machine.RightMap, Machine.PoolFits;
    MapStatusExactly(m);
  }
}
