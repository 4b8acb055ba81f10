/**
 The firmware, by contract: sections 7.2 (memory services), 7.4 (ExitBootServices) and 13.5 (files)
 of the UEFI Specification.  Whatever the contracts leave open (whether a call is refused, where a
 pool buffer lies, what fresh memory holds, how the memory map is laid out) is read from a stream of
 answers.  A theorem about every machine is therefore one about every firmware that keeps them.
 */
module Uefi {
  import opened Bits
  import opened Bytes

  // ------------------------------------------------------------------ status codes

  const ERROR_BIT: nat := 0x8000_0000_0000_0000

  type Status = s: nat | s < WORD
  type Error = s: nat | ERROR_BIT <= s < WORD witness ERROR_BIT

  const EFI_SUCCESS: Status := 0
  const EFI_LOAD_ERROR: Error := ERROR_BIT + 1
  const EFI_INVALID_PARAMETER: Error := ERROR_BIT + 2
  const EFI_UNSUPPORTED: Error := ERROR_BIT + 3
  const EFI_BUFFER_TOO_SMALL: Error := ERROR_BIT + 5
  const EFI_DEVICE_ERROR: Error := ERROR_BIT + 7
  const EFI_OUT_OF_RESOURCES: Error := ERROR_BIT + 9
  const EFI_NOT_FOUND: Error := ERROR_BIT + 14
  const EFI_INCOMPATIBLE_VERSION: Error := ERROR_BIT + 25

  predicate IsError(s: Status) { s >= ERROR_BIT }

  // ------------------------------------------------------------------ memory

  const PAGE: nat := 4096

  /** A memory type is a 32-bit number. */
  type Kind = k: nat | k < 0x1_0000_0000

  const LOADER_CODE: Kind := 1
  const LOADER_DATA: Kind := 2
  const CONVENTIONAL: Kind := 7

  /** `EFI_SIZE_TO_PAGES`. */
  function SizeToPages(size: nat): nat {
    size / PAGE + (if size % PAGE != 0 then 1 else 0)
  }

  /** A live pool buffer, keyed by its address. */
  datatype Pool = Pool(size: nat, kind: Kind)

  /** A pool buffer that was handed out at some time. */
  datatype Grant = Grant(address: nat, size: nat) {
    predicate Has(i: nat) { address <= i < address + size }
  }

  /** Whether the `size` bytes from `a` and page `p` overlap. */
  predicate Touches(a: nat, size: nat, p: nat) {
    size > 0 && a < (p + 1) * PAGE && p * PAGE < a + size
  }

  /** Whether some page holds bytes of both buffers. */
  predicate SharePage(a: nat, size: nat, b: nat, size': nat) {
    size > 0 && size' > 0 && a / PAGE <= (b + size' - 1) / PAGE && b / PAGE <= (a + size - 1) / PAGE
  }

  /** The ownership of `count` pages from page `base`. */
  function Range(base: nat, count: nat, kind: Kind): (r: map<nat, Kind>)
    ensures forall p :: p in r <==> base <= p < base + count
    ensures forall p :: p in r ==> r[p] == kind
  {
    if count == 0 then map[] else Range(base, count - 1, kind)[base + count - 1 := kind]
  }

  // ------------------------------------------------------------------ the memory map

  datatype Descriptor = Descriptor(kind: nat, start: nat, count: nat)
  {
    predicate Covers(p: nat) { start / PAGE <= p < start / PAGE + count }
  }

  /** `EFI_MEMORY_DESCRIPTOR`: type, padding, physical start, virtual start, page count, attributes. */
  const DESCRIPTOR: Layout := [4, 4, 8, 8, 8, 8]
  const DESCRIPTOR_SIZE: nat := 40

  lemma DescriptorSize()
    ensures SizeOf(DESCRIPTOR) == DESCRIPTOR_SIZE
  {
  }

  function DecodeDescriptor(bs: seq<byte>): Descriptor
    requires |bs| == DESCRIPTOR_SIZE
  {
    DescriptorSize();
    var f := Unpack(DESCRIPTOR, bs);
    Descriptor(f[0], f[2], f[4])
  }

  /** The descriptors in a buffer, `stride` bytes apart. */
  function DecodeMap(bs: seq<byte>, stride: pos): seq<Descriptor> {
    seq(|bs| / stride, i requires 0 <= i => DecodeDescriptor(Peek(bs, i * stride, DESCRIPTOR_SIZE)))
  }

  /** Descriptor `i` is the only one over page `p`. */
  predicate OnlyOver(ds: seq<Descriptor>, i: nat, p: nat)
    requires i < |ds|
  {
    ds[i].Covers(p) && forall j | 0 <= j < |ds| && j != i :: !ds[j].Covers(p)
  }

  /** A map with one descriptor a page, and two more, has a 64-bit size. */
  predicate MapsFit(memory: nat, stride: pos) {
    memory / PAGE * stride + 2 * stride < WORD
  }

  // ------------------------------------------------------------------ firmware calls

  datatype Option<+T> = None | Some(value: T)

  /** What the firmware decides at one call. */
  datatype Answer = Answer(refusal: Option<Error>, address: nat, data: seq<byte>)

  /** The result of a call: the machine after it, with its out-values or with an error status. */
  datatype Outcome<+T> = Done(m: Machine, value: T) | Failed(m: Machine, error: Error)
  {
    predicate IsFailure() { Failed? }
    function PropagateFailure<U>(): Outcome<U>
      requires Failed?
    {
      Failed(m, error)
    }
    function Extract(): (Machine, T)
      requires Done?
    {
      (m, value)
    }
    function Status(): Status { if Done? then EFI_SUCCESS else error }
  }

  datatype MapReply = MapReply(m: Machine, status: Status, size: nat, key: nat)

  datatype Machine = Machine(
    mem: seq<byte>,            // flat physical memory
    pages: map<nat, Kind>,     // page number -> memory type, for every page owned through AllocatePages
    pools: map<nat, Pool>,     // live pool buffers, in the same memory
    granted: seq<Grant>,       // history: all pool buffers handed out, live or not
    file: seq<byte>,           // the kernel image on the boot volume
    open: bool,
    position: nat,
    mapKey: nat,
    services: bool,            // boot services still available
    stride: pos,               // descriptor size of this firmware
    answers: nat -> Answer,
    tick: nat)
  {
    // ---- state predicates

    predicate InPool(i: nat) {
      exists a | a in pools :: a <= i < a + pools[a].size
    }

    /** Byte `i` belongs to somebody. */
    predicate InUse(i: nat) {
      i / PAGE in pages || InPool(i)
    }

    /** Everything owned lies in memory, and sizes fit 64 bits; NULL is no buffer. */
    ghost predicate Bounded() {
      && |mem| <= WORD && |file| < WORD && stride >= DESCRIPTOR_SIZE && MapsFit(|mem|, stride)
      && 0 !in pools
      && (forall p :: p in pages ==> (p + 1) * PAGE <= |mem|)
      && (forall a :: a in pools ==> a + pools[a].size <= |mem|)
    }

    ghost predicate PoolsApart() {
      forall a, b :: a in pools && b in pools && a != b ==> a + pools[a].size <= b || b + pools[b].size <= a
    }

    ghost predicate OwnersApart() {
      forall a, p :: a in pools && p in pages ==> !Touches(a, pools[a].size, p)
    }

    /** Pool buffers on one page have one memory type. */
    ghost predicate KindsAgree() {
      forall a, b :: a in pools && b in pools && SharePage(a, pools[a].size, b, pools[b].size) ==>
        pools[a].kind == pools[b].kind
    }

    ghost predicate Valid() {
      Bounded() && PoolsApart() && OwnersApart() && KindsAgree()
    }

    /** No owner and no pool buffer has any of page `p`. */
    predicate FreePage(p: nat) {
      p !in pages && forall a | a in pools :: !Touches(a, pools[a].size, p)
    }

    /** The memory type of page `p`: its owner's, else that of the pool buffers on it. */
    predicate PageIs(p: nat, kind: nat) {
      if p in pages then pages[p] == kind
      else forall a | a in pools && Touches(a, pools[a].size, p) :: pools[a].kind == kind
    }

    /**
     A page in use is described exactly once, with its type.  A free page is described at most once, in
     whatever way: the firmware may keep it for its own purposes.
     */
    predicate DescribesPage(ds: seq<Descriptor>, p: nat) {
      || (exists i | 0 <= i < |ds| :: OnlyOver(ds, i, p) && (FreePage(p) || PageIs(p, ds[i].kind)))
      || (FreePage(p) && forall j | 0 <= j < |ds| :: !ds[j].Covers(p))
    }

    predicate DescribedBy(ds: seq<Descriptor>) {
      forall p | 0 <= p < |mem| / PAGE :: DescribesPage(ds, p)
    }

    /** Bytes that a firmware may answer a map query with. */
    predicate RightMap(bs: seq<byte>) {
      |bs| % stride == 0 && |bs| + 2 * stride < WORD && DescribedBy(DecodeMap(bs, stride))
    }

    predicate PagesFree(base: nat, count: nat) {
      && (base + count) * PAGE <= |mem|
      && (forall p | p in pages :: !(base <= p < base + count))
      && (forall a | a in pools :: a + pools[a].size <= base * PAGE || (base + count) * PAGE <= a)
    }

    /** A fresh pool buffer overlaps nothing in use and shares pages only with its own type. */
    predicate PoolFits(a: nat, size: nat, kind: Kind) {
      && a != 0 && a !in pools && a + size <= |mem|
      && (forall p | p in pages :: !Touches(a, size, p))
      && (forall b | b in pools :: a + size <= b || b + pools[b].size <= a)
      && (forall b | b in pools && SharePage(a, size, b, pools[b].size) :: pools[b].kind == kind)
    }

    // ---- the answer stream

    function Ask(): Answer { answers(tick) }

    function Next(): Machine { this.(tick := tick + 1) }

    /** Fresh or damaged memory: the firmware may put anything in the `n` bytes from `a`. */
    function Scribble(a: nat, n: nat, data: seq<byte>): Machine {
      this.(mem := Poke(mem, a, if |data| <= n then data else data[..n]))
    }

    function Refuse(): Outcome<()> {
      match Ask().refusal
      case Some(e) => Failed(Next(), e)
      case None => Done(Next(), ())
    }

    // ---- memory services, section 7.2

    function AllocatePages(kind: Kind, count: nat, address: nat): Outcome<()> {
      var (m, _) :- Refuse();
      if PagesFree(address / PAGE, count) then
        Done(m.(pages := pages + Range(address / PAGE, count, kind), mapKey := mapKey + 1)
              .Scribble(address / PAGE * PAGE, count * PAGE, Ask().data), ())
      else
        Failed(m, EFI_NOT_FOUND)
    }

    function AllocatePool(kind: Kind, size: nat): Outcome<nat> {
      var (m, _) :- Refuse();
      var a := Ask().address;
      if PoolFits(a, size, kind) then
        Done(m.(pools := pools[a := Pool(size, kind)], granted := granted + [Grant(a, size)], mapKey := mapKey + 1)
              .Scribble(a, size, Ask().data), a)
      else
        Failed(m, EFI_OUT_OF_RESOURCES)
    }

    function FreePool(a: nat): Outcome<()> {
      if a in pools then Done(this.(pools := pools - {a}, mapKey := mapKey + 1), ())
      else Failed(this, EFI_INVALID_PARAMETER)
    }

    /** Buffer 0 is NULL.  The answer must be a right map; any other one reads as a device error. */
    function GetMemoryMap(size: nat, buffer: nat): MapReply {
      var m, bs := Next(), Ask().data;
      if !RightMap(bs) then MapReply(m, EFI_DEVICE_ERROR, size, 0)
      else if size < |bs| then MapReply(m, EFI_BUFFER_TOO_SMALL, |bs|, 0)
      else if buffer == 0 then MapReply(m, EFI_INVALID_PARAMETER, size, 0)
      else MapReply(m.(mem := Poke(mem, buffer, bs)), EFI_SUCCESS, |bs|, mapKey)
    }

    /** Declared VOID, although the loader reads a status: that status is arbitrary. */
    function CopyMem(dst: nat, src: nat, n: nat): Outcome<()> {
      this.(mem := Poke(mem, dst, Peek(mem, src, n))).Refuse()
    }

    function SetMem(dst: nat, n: nat, v: byte): Outcome<()> {
      this.(mem := Fill(mem, dst, n, v)).Refuse()
    }

    // ---- section 7.4

    function ExitBootServices(key: nat): Outcome<()> {
      if key == mapKey then Done(this.(services := false), ()) else Failed(this, EFI_INVALID_PARAMETER)
    }

    // ---- files, section 13.5

    function Open(): Outcome<()> {
      var (m, _) :- Refuse();
      Done(m.(open := true, position := 0), ())
    }

    function Close(): Outcome<()> { Done(this.(open := false), ()) }

    /** The all-ones position is the end of the file.  A closed file has no position. */
    function SetPosition(pos: nat): Outcome<()> {
      var (m, _) :- Refuse();
      if !open then Failed(m, EFI_DEVICE_ERROR) else Done(m.(position := if pos == WORD - 1 then |file| else pos), ())
    }

    /** Reads up to `n` bytes: fewer at the end of the file, which is a success. */
    function Read(n: nat, buffer: nat): Outcome<nat> {
      if Ask().refusal.Some? then
        Failed(Next().Scribble(buffer, n, Ask().data), Ask().refusal.value)
      else if !open || position > |file| then
        Failed(Next(), EFI_DEVICE_ERROR)
      else
        var amount := if n <= |file| - position then n else |file| - position;
        Done(Next().(mem := Poke(mem, buffer, file[position..position + amount]), position := position + amount),
             amount)
    }
  }
}
