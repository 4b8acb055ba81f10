/** What firmware calls keep, and which bytes they may change. */
module Frames {
  import opened Bytes
  import opened Uefi

  // ------------------------------------------------------------------ following one another

  /** Byte `i` lies in a pool buffer handed out between two machines. */
  ghost predicate InNewBuffer(m: Machine, m': Machine, i: nat) {
    exists g :: |m.granted| <= g < |m'.granted| && m'.granted[g].Has(i)
  }

  /** Byte `i` is in a page owned since `m`, or in a pool buffer handed out since. */
  ghost predicate NewByte(m: Machine, m': Machine, i: nat) {
    (i / PAGE in m'.pages && i / PAGE !in m.pages) || InNewBuffer(m, m', i)
  }

  /**
   `m'` follows `m`.  Everything in use at `m` still is, with the same contents; and every byte that
   has changed lies in a page owned since or in a pool buffer handed out since.
   */
  ghost predicate Grows(m: Machine, m': Machine) {
    && |m'.mem| == |m.mem| && m'.file == m.file && m'.stride == m.stride && m'.answers == m.answers
    && m'.services == m.services && m.granted <= m'.granted
    && (forall p :: p in m.pages ==> p in m'.pages && m'.pages[p] == m.pages[p])
    && (forall a :: a in m.pools ==> a in m'.pools && m'.pools[a] == m.pools[a])
    && (forall i :: 0 <= i < |m.mem| && m.InUse(i) ==> m'.mem[i] == m.mem[i])
    && (forall i :: 0 <= i < |m.mem| && m'.mem[i] != m.mem[i] ==> NewByte(m, m', i))
  }

  lemma StillInUse(m: Machine, m': Machine, i: nat)
    requires Grows(m, m') && m.InUse(i)
    ensures m'.InUse(i)
  {
    hide NewByte;
  }

  lemma NewByteLater(a: Machine, b: Machine, c: Machine, i: nat)
    requires NewByte(a, b, i)
    requires b.granted <= c.granted && forall p :: p in b.pages ==> p in c.pages
    ensures NewByte(a, c, i)
  {
    if !(i / PAGE in b.pages && i / PAGE !in a.pages) {
      var g :| |a.granted| <= g < |b.granted| && b.granted[g].Has(i);
      assert c.granted[g] == b.granted[g];
    }
  }

  lemma NewByteEarlier(a: Machine, b: Machine, c: Machine, i: nat)
    requires NewByte(b, c, i)
    requires a.granted <= b.granted && forall p :: p in a.pages ==> p in b.pages
    ensures NewByte(a, c, i)
  {
  }

  lemma GrowsTrans(a: Machine, b: Machine, c: Machine)
    requires Grows(a, b) && Grows(b, c)
    ensures Grows(a, c)
  {
    hide NewByte, Machine.InUse;
    forall i | 0 <= i < |a.mem| && a.InUse(i)
      ensures c.mem[i] == a.mem[i]
    {
      StillInUse(a, b, i);
    }
    forall i | 0 <= i < |a.mem| && c.mem[i] != a.mem[i]
      ensures NewByte(a, c, i)
    {
      if b.mem[i] != a.mem[i] { NewByteLater(a, b, c, i); } else { NewByteEarlier(a, b, c, i); }
    }
  }

  lemma SameGrows(m: Machine, m': Machine)
    requires m'.mem == m.mem && m'.file == m.file && m'.stride == m.stride && m'.answers == m.answers
    requires m'.services == m.services && m'.pages == m.pages && m'.pools == m.pools && m'.granted == m.granted
    ensures Grows(m, m')
  {
    hide NewByte, Machine.InUse;
  }

  lemma GrowsSame(m: Machine, m': Machine)
    requires Grows(m, m')
    ensures |m'.mem| == |m.mem| && m'.file == m.file && m'.stride == m.stride && m'.answers == m.answers
    ensures m'.services == m.services && m.granted <= m'.granted
  {
  }

  /** Nothing in use lies in the `n` bytes from `a`. */
  ghost predicate Unused(m: Machine, a: nat, n: nat) {
    forall i :: a <= i < a + n && i < |m.mem| ==> !m.InUse(i)
  }

  /** The `n` bytes from `a` are all new. */
  ghost predicate AllNew(m: Machine, m': Machine, a: nat, n: nat) {
    forall i :: a <= i < a + n && i < |m.mem| ==> NewByte(m, m', i)
  }

  /** What was unused stays unused going back in time. */
  lemma UnusedBefore(m0: Machine, m: Machine, a: nat, n: nat)
    requires Grows(m0, m) && Unused(m, a, n)
    ensures Unused(m0, a, n)
  {
    hide Machine.InUse, NewByte;
    forall i | a <= i < a + n && i < |m0.mem|
      ensures !m0.InUse(i)
    {
      if m0.InUse(i) { StillInUse(m0, m, i); }
    }
  }

  lemma AllNewLater(m0: Machine, m: Machine, m': Machine, a: nat, n: nat)
    requires AllNew(m0, m, a, n)
    requires m.granted <= m'.granted && forall p :: p in m.pages ==> p in m'.pages
    ensures AllNew(m0, m', a, n)
  {
    hide NewByte;
    forall i | a <= i < a + n && i < |m0.mem|
      ensures NewByte(m0, m', i)
    {
      NewByteLater(m0, m, m', i);
    }
  }

  /** Only the bytes from `a` to `a + n` may differ. */
  ghost predicate SameExcept(m: Machine, m': Machine, a: nat, n: nat) {
    && |m'.mem| == |m.mem| && m'.file == m.file && m'.stride == m.stride && m'.answers == m.answers
    && m'.services == m.services && m'.granted == m.granted
    && forall i :: 0 <= i < |m.mem| && !(a <= i < a + n) ==> m'.mem[i] == m.mem[i]
  }

  /** Writing bytes that are new since `m0` and were not in use then keeps what was. */
  lemma WriteKeeps(m0: Machine, m: Machine, m': Machine, a: nat, n: nat)
    requires Grows(m0, m) && SameExcept(m, m', a, n) && m'.pages == m.pages && m'.pools == m.pools
    requires Unused(m0, a, n) && AllNew(m0, m, a, n)
    ensures Grows(m0, m')
  {
    hide NewByte, Machine.InUse;
    forall i | 0 <= i < |m0.mem| && m'.mem[i] != m0.mem[i]
      ensures NewByte(m0, m', i)
    {
      assert NewByte(m0, m, i);
      NewByteLater(m0, m, m', i);
    }
  }

  // ------------------------------------------------------------------ allocation

  /** Whether there is room depends on ownership only. */
  lemma FitsSame(m: Machine, m': Machine, a: nat, n: nat, kind: Kind)
    requires |m'.mem| == |m.mem| && m'.pages == m.pages && m'.pools == m.pools
    ensures m'.PoolFits(a, n, kind) <==> m.PoolFits(a, n, kind)
  {
  }

  lemma PagesFreeSame(m: Machine, m': Machine, base: nat, count: nat)
    requires |m'.mem| == |m.mem| && m'.pages == m.pages && m'.pools == m.pools
    ensures m'.PagesFree(base, count) <==> m.PagesFree(base, count)
  {
  }

  lemma FreePagesUnused(m: Machine, base: nat, count: nat)
    requires m.Valid() && m.PagesFree(base, count)
    ensures Unused(m, base * PAGE, count * PAGE)
  {
  }

  lemma FreshPoolUnused(m: Machine, a: nat, size: nat, kind: Kind)
    requires m.Valid() && m.PoolFits(a, size, kind)
    ensures Unused(m, a, size) && a !in m.pools && a != 0
  {
  }

  lemma PagesAdded(m: Machine, m': Machine, base: nat, count: nat, kind: Kind)
    requires m.Valid() && m.PagesFree(base, count)
    requires |m'.mem| == |m.mem| && m'.file == m.file && m'.stride == m.stride
    requires m'.pools == m.pools && m'.pages == m.pages + Range(base, count, kind)
    ensures m'.Valid()
    ensures forall p :: p in m.pages ==> p in m'.pages && m'.pages[p] == m.pages[p]
  {
    hide SharePage, MapsFit;
    forall p | p in m'.pages && p !in m.pages
      ensures (p + 1) * PAGE <= |m.mem|
      ensures forall a :: a in m.pools ==> !Touches(a, m.pools[a].size, p)
    {
      assert p in Range(base, count, kind);
    }
  }

  lemma PagesNew(m: Machine, m': Machine, base: nat, count: nat, kind: Kind)
    requires m.PagesFree(base, count) && m'.pages == m.pages + Range(base, count, kind)
    ensures AllNew(m, m', base * PAGE, count * PAGE)
  {
    forall i | base * PAGE <= i < base * PAGE + count * PAGE && i < |m.mem|
      ensures NewByte(m, m', i)
    {
      assert i / PAGE in Range(base, count, kind);
    }
  }

  lemma ShareSymmetric(a: nat, size: nat, b: nat, size': nat)
    requires SharePage(a, size, b, size')
    ensures SharePage(b, size', a, size)
  {
  }

  lemma AddedApart(m: Machine, m': Machine, a: nat, pool: Pool)
    requires m.PoolsApart() && m.OwnersApart() && m.PoolFits(a, pool.size, pool.kind)
    requires m'.pools == m.pools[a := pool] && m'.pages == m.pages
    ensures m'.PoolsApart() && m'.OwnersApart()
  {
    hide SharePage, Touches;
  }

  lemma AddedKinds(m: Machine, m': Machine, a: nat, pool: Pool)
    requires m.KindsAgree() && m.PoolFits(a, pool.size, pool.kind)
    requires m'.pools == m.pools[a := pool]
    ensures m'.KindsAgree()
  {
    hide SharePage, Touches;
    forall b, c | b in m'.pools && c in m'.pools && SharePage(b, m'.pools[b].size, c, m'.pools[c].size)
      ensures m'.pools[b].kind == m'.pools[c].kind
    {
      ShareSymmetric(b, m'.pools[b].size, c, m'.pools[c].size);
    }
  }

  lemma PoolAdded(m: Machine, m': Machine, a: nat, pool: Pool)
    requires m.Valid() && m.PoolFits(a, pool.size, pool.kind)
    requires |m'.mem| == |m.mem| && m'.file == m.file && m'.stride == m.stride
    requires m'.pools == m.pools[a := pool] && m'.pages == m.pages
    ensures m'.Valid()
  {
    hide Machine.PoolsApart, Machine.OwnersApart, Machine.KindsAgree, MapsFit, SharePage, Touches;
    AddedApart(m, m', a, pool);
    AddedKinds(m, m', a, pool);
  }

  /** The firmware's own writing into what it hands out. */
  lemma ScribbleKeeps(m: Machine, m': Machine, a: nat, n: nat, data: seq<byte>)
    requires m'.mem == m.Scribble(a, n, data).mem
    requires m'.file == m.file && m'.stride == m.stride && m'.answers == m.answers && m'.services == m.services
    requires m.granted <= m'.granted
    requires forall p :: p in m.pages ==> p in m'.pages && m'.pages[p] == m.pages[p]
    requires forall b :: b in m.pools ==> b in m'.pools && m'.pools[b] == m.pools[b]
    requires Unused(m, a, n) && AllNew(m, m', a, n)
    ensures Grows(m, m')
  {
    hide NewByte, Machine.InUse;
  }

  lemma AllocatePagesKeeps(m: Machine, kind: Kind, count: nat, address: nat)
    requires m.Valid()
    ensures var r := m.AllocatePages(kind, count, address);
      && r.m.Valid() && Grows(m, r.m) && r.m.pools == m.pools && r.m.granted == m.granted
      && r.m.open == m.open && r.m.position == m.position
      && (r.Failed? ==> r.m.pages == m.pages && r.m.mem == m.mem)
      && (r.Done? ==> m.PagesFree(address / PAGE, count)
                      && r.m.pages == m.pages + Range(address / PAGE, count, kind)
                      && AllNew(m, r.m, address / PAGE * PAGE, count * PAGE))
  {
    hide Machine.Valid, Machine.InUse, Machine.PagesFree, Poke, Range, Unused, AllNew, Grows;
    var base, r := address / PAGE, m.AllocatePages(kind, count, address);
    SameStateValid(m, m.Next());
    if r.Done? {
      PagesAdded(m, r.m, base, count, kind);
      PagesNew(m, r.m, base, count, kind);
      FreePagesUnused(m, base, count);
      ScribbleKeeps(m, r.m, base * PAGE, count * PAGE, m.Ask().data);
    } else {
      SameGrows(m, r.m);
    }
  }

  lemma GrantedNew(m: Machine, m': Machine, a: nat, size: nat)
    requires m'.granted == m.granted + [Grant(a, size)]
    ensures AllNew(m, m', a, size)
  {
    assert m'.granted[|m.granted|] == Grant(a, size);
  }

  lemma AllocatePoolKeeps(m: Machine, kind: Kind, size: nat)
    requires m.Valid()
    ensures var r := m.AllocatePool(kind, size);
      && r.m.Valid() && Grows(m, r.m) && r.m.pages == m.pages && r.m.open == m.open && r.m.position == m.position
      && (r.Done? ==> r.value !in m.pools && r.value != 0 && r.m.pools == m.pools[r.value := Pool(size, kind)]
                      && r.m.granted == m.granted + [Grant(r.value, size)]
                      && Unused(m, r.value, size) && AllNew(m, r.m, r.value, size))
      && (r.Failed? ==> r.m.pools == m.pools && r.m.mem == m.mem && r.m.granted == m.granted)
  {
    hide Machine.Valid, Machine.InUse, Machine.PoolFits, Poke, Unused, AllNew, Grows;
    var a, r := m.Ask().address, m.AllocatePool(kind, size);
    SameStateValid(m, m.Next());
    if r.Done? {
      PoolAdded(m, r.m, a, Pool(size, kind));
      FreshPoolUnused(m, a, size, kind);
      GrantedNew(m, r.m, a, size);
      ScribbleKeeps(m, r.m, a, size, m.Ask().data);
    } else {
      SameGrows(m, r.m);
    }
  }

  lemma FreePoolState(m: Machine, a: nat)
    requires m.Valid()
    ensures var r := m.FreePool(a);
      && (r.Done? <==> a in m.pools)
      && r.m.Valid() && r.m.mem == m.mem && r.m.file == m.file && r.m.pages == m.pages && r.m.granted == m.granted
      && r.m.stride == m.stride && r.m.services == m.services && r.m.open == m.open && r.m.answers == m.answers
      && r.m.tick == m.tick
      && (r.Done? ==> r.m.pools == m.pools - {a})
  {
    hide SharePage, Touches, MapsFit;
  }

  lemma FreePoolKeeps(m0: Machine, m: Machine, a: nat)
    requires m.Valid() && Grows(m0, m) && a in m.pools && a !in m0.pools
    ensures var r := m.FreePool(a);
      && r.Done? && r.m.Valid() && Grows(m0, r.m) && r.m.open == m.open && r.m.file == m.file
      && r.m.pools == m.pools - {a} && r.m.pages == m.pages && r.m.mem == m.mem && r.m.granted == m.granted
      && r.m.answers == m.answers && r.m.tick == m.tick
  {
    FreePoolState(m, a);
    hide Machine.Valid, Machine.InUse, NewByte, Machine.FreePool;
    forall i | 0 <= i < |m0.mem| && m.mem[i] != m0.mem[i]
      ensures NewByte(m0, m.FreePool(a).m, i)
    {
      NewByteLater(m0, m, m.FreePool(a).m, i);
    }
  }

  // ------------------------------------------------------------------ files and memory

  lemma SameStateValid(m: Machine, m': Machine)
    requires m.Valid()
    requires |m'.mem| == |m.mem| && m'.file == m.file && m'.stride == m.stride
    requires m'.pages == m.pages && m'.pools == m.pools
    ensures m'.Valid()
  {
    hide SharePage, Touches, MapsFit;
  }

  lemma SetPositionKeeps(m: Machine, pos: nat)
    requires m.Valid()
    ensures var r := m.SetPosition(pos);
      && r.m.Valid() && Grows(m, r.m) && r.m.pages == m.pages && r.m.pools == m.pools && r.m.open == m.open
      && r.m.granted == m.granted && r.m.mem == m.mem
      && (r.Done? && pos <= |m.file| ==> r.m.position == pos)
  {
    hide Machine.Valid, Grows;
    SameStateValid(m, m.SetPosition(pos).m);
    SameGrows(m, m.SetPosition(pos).m);
    FileBound(m);
  }

  lemma FileBound(m: Machine)
    requires m.Valid()
    ensures |m.file| < WORD
  {
  }

  /** Reading into a live buffer changes nothing outside it. */
  lemma ReadKeeps(m: Machine, n: nat, buffer: nat)
    requires m.Valid()
    requires buffer in m.pools && n <= m.pools[buffer].size
    ensures var r := m.Read(n, buffer);
      && r.m.Valid() && r.m.pages == m.pages && r.m.pools == m.pools && r.m.open == m.open
      && SameExcept(m, r.m, buffer, n)
      && (r.Done? && m.position + n <= |m.file| ==>
            Peek(r.m.mem, buffer, n) == m.file[m.position..m.position + n])
  {
    hide Machine.Valid, Machine.InUse;
    var r := m.Read(n, buffer);
    SameStateValid(m, r.m);
    if r.Done? && m.position + n <= |m.file| {
      PoolBound(m, buffer);
      PeekPoke(m.mem, buffer, m.file[m.position..m.position + n]);
    }
  }

  lemma PoolBound(m: Machine, a: nat)
    requires m.Valid() && a in m.pools
    ensures a + m.pools[a].size <= |m.mem|
  {
  }

  lemma CopyMemKeeps(m: Machine, dst: nat, src: nat, n: nat)
    requires m.Valid() && dst + n <= |m.mem|
    ensures var m' := m.CopyMem(dst, src, n).m;
      && m'.Valid() && m'.pages == m.pages && m'.pools == m.pools && m'.open == m.open
      && SameExcept(m, m', dst, n) && Peek(m'.mem, dst, n) == Peek(m.mem, src, n)
  {
    hide Machine.Valid;
    SameStateValid(m, m.CopyMem(dst, src, n).m);
    PeekPoke(m.mem, dst, Peek(m.mem, src, n));
  }

  lemma SetMemKeeps(m: Machine, dst: nat, n: nat, v: byte)
    requires m.Valid()
    ensures var m' := m.SetMem(dst, n, v).m;
      && m'.Valid() && m'.pages == m.pages && m'.pools == m.pools && m'.open == m.open
      && SameExcept(m, m', dst, n)
      && forall i :: dst <= i < dst + n && i < |m.mem| ==> m'.mem[i] == v
  {
    hide Machine.Valid;
    SameStateValid(m, m.SetMem(dst, n, v).m);
  }

  /** A live pool buffer's bytes are in use. */
  lemma PoolInUse(m: Machine, a: nat, i: nat)
    requires a in m.pools && a <= i < a + m.pools[a].size
    ensures m.InUse(i)
  {
  }

  /** Bytes of a live buffer stay while memory in use is kept. */
  lemma BufferKept(m: Machine, m': Machine, buffer: nat)
    requires Grows(m, m') && buffer in m.pools && buffer + m.pools[buffer].size <= |m.mem|
    ensures Peek(m'.mem, buffer, m.pools[buffer].size) == Peek(m.mem, buffer, m.pools[buffer].size)
  {
    hide NewByte, Machine.InUse;
    forall i | buffer <= i < buffer + m.pools[buffer].size
      ensures m'.mem[i] == m.mem[i]
    {
      PoolInUse(m, buffer, i);
    }
  }
}
