/** Reading and validating the ELF headers of the kernel image: elf.c. */
module ElfReader {
  import opened Bytes
  import opened ElfFormat
  import opened Uefi
  import opened Frames
  import opened FirmwareServices
  import opened SegmentList
  import opened ProgramSegments

  // ------------------------------------------------------------------ what the code does

  /** Allocates a buffer of `n` bytes and reads into it. */
  function Fetch(m: Machine, n: nat): Outcome<nat> {
    var (m1, buffer) :- m.AllocatePool(LOADER_DATA, n);
    var (m2, _) :- m1.Read(n, buffer);
    Done(m2, buffer)
  }

  function ReadIdentityOf(m: Machine): Outcome<nat> {
    var (m1, _) :- m.SetPosition(0);
    Fetch(m1, EI_NIDENT)
  }

  /** The addresses of the header and program header buffers. */
  datatype Buffers = Buffers(header: nat, table: nat)

  function ReadElfOf(m: Machine, cls: FileClass): Outcome<Buffers> {
    var (m1, _) :- m.SetPosition(0);
    if cls == OtherClass then Failed(m1, EFI_INVALID_PARAMETER) else
      var (m2, header) :- Fetch(m1, EhdrSize(cls));
      var e := HeaderAt(cls, m2.mem, header);
      var (m3, _) :- m2.SetPosition(e.phoff);
      var (m4, table) :- Fetch(m3, EntryOffset(cls, e.phnum));
      Done(m4, Buffers(header, table))
  }

  function ValidateIdentity(id: seq<byte>): Status
    requires |id| == EI_NIDENT
  {
    if id[0] != 0x7F || id[1] != 0x45 || id[2] != 0x4C || id[3] != 0x46 then EFI_INVALID_PARAMETER
    else if ClassOf(id[EI_CLASS]) == OtherClass then EFI_UNSUPPORTED
    else if id[EI_DATA] != 1 then EFI_INCOMPATIBLE_VERSION
    else EFI_SUCCESS
  }

  method ReadElfIdentity(fw: Firmware) returns (status: Status, identity: nat)
    modifies fw
    ensures var r := ReadIdentityOf(old(fw.State()));
      fw.State() == r.m && status == r.Status() && (r.Done? ==> identity == r.value)
  {
    hide Machine.AllocatePool, Machine.Read, Machine.SetPosition;
    var readSize := EI_NIDENT;
    identity := 0;
    status := fw.SetPosition(0);
    if IsError(status) { return; }
    status, identity := fw.AllocatePool(LOADER_DATA, EI_NIDENT, identity);
    if IsError(status) { return; }
    status, readSize := fw.Read(readSize, identity);
    if IsError(status) { return; }
    status := EFI_SUCCESS;
  }

  method ReadElfFile(fw: Firmware, cls: FileClass) returns (status: Status, header: nat, table: nat)
    modifies fw
    ensures var r := ReadElfOf(old(fw.State()), cls);
      fw.State() == r.m && status == r.Status() && (r.Done? ==> r.value == Buffers(header, table))
  {
    hide Machine.AllocatePool, Machine.Read, Machine.SetPosition, HeaderAt;
    var readSize := 0;
    header, table := 0, 0;
    status := fw.SetPosition(0);
    if IsError(status) { return; }
    if cls == Class32 || cls == Class64 {
      readSize := EhdrSize(cls);
    } else {
      return EFI_INVALID_PARAMETER, header, table;
    }
    status, header := fw.AllocatePool(LOADER_DATA, readSize, header);
    if IsError(status) { return; }
    status, readSize := fw.Read(readSize, header);
    if IsError(status) { return; }
    var e := HeaderAt(cls, fw.mem, header);
    status := fw.SetPosition(e.phoff);
    if IsError(status) { return; }
    readSize := EntryOffset(cls, e.phnum);
    status, table := fw.AllocatePool(LOADER_DATA, readSize, table);
    if IsError(status) { return; }
    status, readSize := fw.Read(readSize, table);
    if IsError(status) { return; }
    status := EFI_SUCCESS;
  }

  // ------------------------------------------------------------------ what a file means

  /** The class a file declares in its identity. */
  function ClassOfFile(file: seq<byte>): FileClass {
    ClassOf(Peek(file, 0, EI_NIDENT)[EI_CLASS])
  }

  /** The file's identity passes validation. */
  predicate IdentityAccepted(file: seq<byte>) {
    ValidateIdentity(Peek(file, 0, EI_NIDENT)) == EFI_SUCCESS
  }

  function FileHeader(file: seq<byte>): Ehdr {
    HeaderAt(ClassOfFile(file), file, 0)
  }

  /** Where entry `j` of a table lies whose entries are `stride` bytes apart. */
  function Place(phoff: nat, stride: nat, j: nat): nat { phoff + j * stride }

  /** The `n` program headers that lie `stride` bytes apart from `phoff` on. */
  function Table(cls: FileClass, file: seq<byte>, phoff: nat, stride: nat, n: nat): (hs: seq<Phdr>)
    ensures |hs| == n
  {
    seq(n, j requires 0 <= j => DecodePhdr(cls, Peek(file, Place(phoff, stride, j), PhdrSize(cls))))
  }

  /** The program headers of a file: chapter 4 of the gABI puts them `e_phentsize` bytes apart. */
  function FileEntries(file: seq<byte>): (hs: seq<Phdr>)
    ensures |hs| == FileHeader(file).phnum
  {
    var e := FileHeader(file);
    Table(ClassOfFile(file), file, e.phoff, e.phentsize, e.phnum)
  }

  /** The code strides by the size of its structure instead. */
  predicate StrideRight(cls: FileClass, phentsize: nat, phnum: nat) {
    phentsize == PhdrSize(cls) || phnum <= 1
  }

  /** What the code does not check: header and table lie in the file, and segments are confined. */
  predicate WellFormed(file: seq<byte>) {
    var cls, e := ClassOfFile(file), FileHeader(file);
    && EhdrSize(cls) <= |file| && e.phoff + EntryOffset(cls, e.phnum) <= |file|
    && StrideRight(cls, e.phentsize, e.phnum)
    && AllConfined(FileEntries(file))
  }

  // ------------------------------------------------------------------ proofs

  /** The code reads the table at its own stride. */
  lemma ReadAtStride(cls: FileClass, file: seq<byte>, phoff: nat, n: nat, j: nat)
    requires j < n
    ensures EntryAt(cls, file, phoff, j) == Table(cls, file, phoff, PhdrSize(cls), n)[j]
  {
    hide DecodePhdr, Peek;
    assert EntryOffset(cls, j) == j * PhdrSize(cls);
  }

  lemma TableStrides(cls: FileClass, file: seq<byte>, phoff: nat, stride: nat, n: nat)
    requires StrideRight(cls, stride, n)
    ensures Table(cls, file, phoff, PhdrSize(cls), n) == Table(cls, file, phoff, stride, n)
  {
    hide DecodePhdr, Peek;
    if n == 1 {
      assert 0 * PhdrSize(cls) == 0 * stride == 0;
    }
  }

  /** A fetch keeps what is in use and leaves the file's bytes in a fresh buffer. */
  lemma FetchSpec(m: Machine, n: nat)
    requires m.Valid()
    ensures var r := Fetch(m, n);
      && r.m.Valid() && Grows(m, r.m) && r.m.pages == m.pages && r.m.open == m.open
      && (r.Done? ==> r.value !in m.pools && r.m.pools == m.pools[r.value := Pool(n, LOADER_DATA)])
      && (r.Done? ==> r.m.granted == m.granted + [Grant(r.value, n)])
      && (r.Done? && m.position + n <= |m.file| ==>
            Peek(r.m.mem, r.value, n) == Peek(m.file, m.position, n))
  {
    hide Machine.AllocatePool, Machine.Read, Machine.Valid, Machine.InUse, Unused, AllNew, Grows;
    AllocatePoolKeeps(m, LOADER_DATA, n);
    var r1 := m.AllocatePool(LOADER_DATA, n);
    if r1.Failed? { return; }
    GrowsSame(m, r1.m);
    ReadKeeps(r1.m, n, r1.value);
    WriteKeeps(m, r1.m, r1.m.Read(n, r1.value).m, r1.value, n);
    if m.position + n <= |m.file| {
      assert Peek(m.file, m.position, n) == m.file[m.position..m.position + n];
    }
  }

  /** A buffer that holds `n` bytes of the file holds the structures in them. */
  lemma EntriesRead(mem: seq<byte>, file: seq<byte>, cls: FileClass, table: nat, pos: nat, n: nat, j: nat)
    requires Peek(mem, table, EntryOffset(cls, n)) == Peek(file, pos, EntryOffset(cls, n))
    requires j < n
    ensures EntryAt(cls, mem, table, j) == EntryAt(cls, file, pos, j)
  {
    PeekPeek(mem, table, EntryOffset(cls, n), EntryOffset(cls, j), PhdrSize(cls));
    PeekPeek(file, pos, EntryOffset(cls, n), EntryOffset(cls, j), PhdrSize(cls));
  }

  lemma ReadIdentitySpec(m: Machine)
    requires m.Valid()
    ensures var r := ReadIdentityOf(m);
      && r.m.Valid() && Grows(m, r.m) && r.m.pages == m.pages && r.m.open == m.open
      && (r.Done? ==> r.value !in m.pools && r.m.pools == m.pools[r.value := Pool(EI_NIDENT, LOADER_DATA)])
      && (r.Done? ==> r.m.granted == m.granted + [Grant(r.value, EI_NIDENT)])
      && (r.Done? && EI_NIDENT <= |m.file| ==> Peek(r.m.mem, r.value, EI_NIDENT) == Peek(m.file, 0, EI_NIDENT))
  {
    hide Fetch, Machine.SetPosition, Machine.Valid, Machine.InUse, Grows;
    SetPositionKeeps(m, 0);
    var s := m.SetPosition(0);
    GrowsSame(m, s.m);
    FetchSpec(s.m, EI_NIDENT);
    GrowsTrans(m, s.m, Fetch(s.m, EI_NIDENT).m);
  }

  /** Reading the headers takes two buffers, which hold what the file says. */
  lemma ReadElfSpec(m: Machine, cls: FileClass)
    requires m.Valid()
    ensures var r := ReadElfOf(m, cls);
      && r.m.Valid() && Grows(m, r.m) && r.m.pages == m.pages && r.m.open == m.open
      && (r.Done? ==>
            var h, t := r.value.header, r.value.table;
            var e := HeaderAt(cls, r.m.mem, h);
            && cls != OtherClass && h !in m.pools && t !in m.pools && h != t
            && r.m.pools == m.pools[h := Pool(EhdrSize(cls), LOADER_DATA)]
                                   [t := Pool(EntryOffset(cls, e.phnum), LOADER_DATA)]
            && r.m.granted == m.granted + [Grant(h, EhdrSize(cls))] + [Grant(t, EntryOffset(cls, e.phnum))]
            && (EhdrSize(cls) <= |m.file| ==> e == HeaderAt(cls, m.file, 0))
            && (EhdrSize(cls) <= |m.file| && e.phoff + EntryOffset(cls, e.phnum) <= |m.file| ==>
                  Peek(r.m.mem, t, EntryOffset(cls, e.phnum)) == Peek(m.file, e.phoff, EntryOffset(cls, e.phnum))))
  {
    hide Fetch, Machine.SetPosition, Machine.Valid, Machine.InUse, DecodeEhdr, EntryOffset, Peek, Grows;
    SetPositionKeeps(m, 0);
    var r1 := m.SetPosition(0);
    GrowsSame(m, r1.m);
    if r1.Failed? || cls == OtherClass { return; }
    FetchSpec(r1.m, EhdrSize(cls));
    var r2 := Fetch(r1.m, EhdrSize(cls));
    GrowsTrans(m, r1.m, r2.m);
    GrowsSame(m, r2.m);
    if r2.Failed? { return; }
    var h := r2.value;
    var e := HeaderAt(cls, r2.m.mem, h);
    SetPositionKeeps(r2.m, e.phoff);
    var r3 := r2.m.SetPosition(e.phoff);
    GrowsTrans(m, r2.m, r3.m);
    GrowsSame(m, r3.m);
    if r3.Failed? { return; }
    FetchSpec(r3.m, EntryOffset(cls, e.phnum));
    var r4 := Fetch(r3.m, EntryOffset(cls, e.phnum));
    GrowsTrans(m, r3.m, r4.m);
    GrowsTrans(r2.m, r3.m, r4.m);
    PoolBound(r2.m, h);
    BufferKept(r2.m, r4.m, h);
  }

  lemma RejectionIsError(id: seq<byte>)
    requires |id| == EI_NIDENT
    ensures ValidateIdentity(id) != EFI_SUCCESS ==> IsError(ValidateIdentity(id))
  {
  }

  /** Exactly the little-endian ELF identities of class 1 or 2 are accepted; each defect has its error. */
  lemma ValidIdentity(id: seq<byte>)
    requires |id| == EI_NIDENT
    ensures var s, magic := ValidateIdentity(id), [0x7F, 0x45, 0x4C, 0x46];
      && (s == EFI_SUCCESS <==> id[..4] == magic && id[4] in {1, 2} && id[5] == 1)
      && (s == EFI_INVALID_PARAMETER <==> id[..4] != magic)
      && (s == EFI_UNSUPPORTED <==> id[..4] == magic && id[4] !in {1, 2})
      && (s == EFI_INCOMPATIBLE_VERSION <==> id[..4] == magic && id[4] in {1, 2} && id[5] != 1)
  {
    assert id[..4] == [id[0], id[1], id[2], id[3]];
  }
}
