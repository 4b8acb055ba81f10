/** The contract of GetMemoryMap can be met: every valid memory has bytes that describe it. */
module MapAnswers {
  import opened Bits
  import opened Bytes
  import opened Uefi

  /** The type of page `p`, where it is in use. */
  ghost function KindOf(m: Machine, p: nat): Kind {
    if p in m.pages then m.pages[p]
    else if exists a :: a in m.pools && Touches(a, m.pools[a].size, p)
    then var a :| a in m.pools && Touches(a, m.pools[a].size, p); m.pools[a].kind
    else CONVENTIONAL
  }

  /** A page in use has exactly one type. */
  lemma OneKind(m: Machine, p: nat, kind: nat)
    requires m.Valid() && !m.FreePage(p)
    ensures m.PageIs(p, kind) <==> kind == KindOf(m, p)
  {
    hide Touches, SharePage;
    if p !in m.pages && exists a :: a in m.pools && Touches(a, m.pools[a].size, p) {
      var a :| a in m.pools && Touches(a, m.pools[a].size, p) && KindOf(m, p) == m.pools[a].kind;
      forall b | b in m.pools && Touches(b, m.pools[b].size, p)
        ensures m.pools[b].kind == m.pools[a].kind
      {
        TouchBoth(a, m.pools[a].size, b, m.pools[b].size, p);
      }
    }
  }

  lemma TouchBoth(a: nat, size: nat, b: nat, size': nat, p: nat)
    requires Touches(a, size, p) && Touches(b, size', p)
    ensures SharePage(a, size, b, size')
  {
  }

  /** One descriptor a page. */
  ghost function PageMap(m: Machine): (ds: seq<Descriptor>)
    ensures |ds| == |m.mem| / PAGE
  {
    seq(|m.mem| / PAGE, p requires 0 <= p => Descriptor(KindOf(m, p), p * PAGE, 1))
  }

  lemma PageMapDescribes(m: Machine)
    requires m.Valid()
    ensures m.DescribedBy(PageMap(m))
  {
    var ds := PageMap(m);
    forall p | 0 <= p < |m.mem| / PAGE
      ensures m.DescribesPage(ds, p)
    {
      if !m.FreePage(p) { OneKind(m, p, KindOf(m, p)); }
      assert OnlyOver(ds, p, p);
    }
  }

  function EncodeDescriptor(d: Descriptor): (bs: seq<byte>)
    ensures |bs| == DESCRIPTOR_SIZE
  {
    DescriptorSize();
    Pack(DESCRIPTOR, [d.kind, 0, d.start, 0, d.count, 0])
  }

  lemma DescriptorRoundTrip(d: Descriptor)
    requires d.kind < 0x1_0000_0000 && d.start < WORD && d.count < WORD
    ensures DecodeDescriptor(EncodeDescriptor(d)) == d
  {
    hide Pack, Unpack;
    DescriptorSize();
    Widths();
    UnpackPack(DESCRIPTOR, [d.kind, 0, d.start, 0, d.count, 0]);
  }

  /** Descriptors `stride` bytes apart, with zeros between them. */
  function EncodeMap(ds: seq<Descriptor>, stride: pos): (bs: seq<byte>)
    requires stride >= DESCRIPTOR_SIZE
    ensures |bs| == |ds| * stride
  {
    seq(|ds| * stride, k requires 0 <= k < |ds| * stride => MapByte(ds, stride, k))
  }

  function MapByte(ds: seq<Descriptor>, stride: pos, k: nat): byte
    requires stride >= DESCRIPTOR_SIZE && k < |ds| * stride
  {
    Within(k, |ds|, stride);
    if k % stride < DESCRIPTOR_SIZE then EncodeDescriptor(ds[k / stride])[k % stride] else 0
  }

  lemma Within(k: nat, n: nat, stride: pos)
    requires k < n * stride
    ensures 0 <= k / stride < n && 0 <= k % stride < stride
  {
    var q := k / stride;
    assert k == q * stride + k % stride;
    if q >= n {
      if q > n { MulLess(n, q, stride); }
      assert false;
    }
  }

  lemma MapByteAt(ds: seq<Descriptor>, stride: pos, i: nat, j: nat)
    requires stride >= DESCRIPTOR_SIZE && i < |ds| && j < DESCRIPTOR_SIZE
    ensures i * stride + j < |ds| * stride && EncodeMap(ds, stride)[i * stride + j] == EncodeDescriptor(ds[i])[j]
  {
    MulLess(i, |ds|, stride);
    DivModUnique(i, j, stride);
  }

  lemma MapRoundTrip(ds: seq<Descriptor>, stride: pos)
    requires stride >= DESCRIPTOR_SIZE
    requires forall i :: 0 <= i < |ds| ==> ds[i].kind < 0x1_0000_0000 && ds[i].start < WORD && ds[i].count < WORD
    ensures |EncodeMap(ds, stride)| % stride == 0 && DecodeMap(EncodeMap(ds, stride), stride) == ds
  {
    hide DecodeDescriptor, EncodeDescriptor, MapByte;
    var bs := EncodeMap(ds, stride);
    DivModUnique(|ds|, 0, stride);
    forall i | 0 <= i < |ds|
      ensures DecodeDescriptor(Peek(bs, i * stride, DESCRIPTOR_SIZE)) == ds[i]
    {
      forall j | 0 <= j < DESCRIPTOR_SIZE
        ensures Peek(bs, i * stride, DESCRIPTOR_SIZE)[j] == EncodeDescriptor(ds[i])[j]
      {
        MapByteAt(ds, stride, i, j);
      }
      assert Peek(bs, i * stride, DESCRIPTOR_SIZE) == EncodeDescriptor(ds[i]);
      DescriptorRoundTrip(ds[i]);
    }
  }

  /** Every valid memory has bytes with which the firmware may answer a map query. */
  lemma MapExists(m: Machine)
    requires m.Valid()
    ensures exists bs: seq<byte> :: m.RightMap(bs)
  {
    hide Machine.DescribedBy, DecodeMap, EncodeMap, KindOf;
    PageMapDescribes(m);
    MapRoundTrip(PageMap(m), m.stride);
    assert m.RightMap(EncodeMap(PageMap(m), m.stride));
  }
}
