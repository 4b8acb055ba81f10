/** What loading an image means for its bytes, without the decoding of structures in between. */
module ImageBytes {
  import opened Bytes
  import opened ElfFormat
  import opened ElfBytes
  import opened Uefi
  import opened Frames
  import opened Segment
  import opened SegmentList
  import opened ProgramSegments
  import opened ElfReader
  import opened KernelImage

  // ------------------------------------------------------------------ an image by its bytes

  /** A 64-bit image; otherwise a 32-bit one. */
  predicate Wide(file: seq<byte>) { B(file, 4) == 2 }

  function HeaderBytes(file: seq<byte>): nat { if Wide(file) then 64 else 52 }

  function Start(file: seq<byte>): nat { if Wide(file) then U64(file, 24) else U32(file, 24) }

  function TableStart(file: seq<byte>): nat { if Wide(file) then U64(file, 32) else U32(file, 28) }

  function EntryBytes(file: seq<byte>): nat { if Wide(file) then 56 else 32 }

  function StatedEntryBytes(file: seq<byte>): nat { if Wide(file) then U16(file, 54) else U16(file, 42) }

  function EntryCount(file: seq<byte>): nat { if Wide(file) then U16(file, 56) else U16(file, 44) }

  /** Where entry `j` begins. */
  function Entry(file: seq<byte>, j: nat): nat { TableStart(file) + EntryBytes(file) * j }

  /** Segment `j` is to be loaded. */
  predicate IsLoad(file: seq<byte>, j: nat) { U32(file, Entry(file, j)) == 1 }

  function FileStart(file: seq<byte>, j: nat): nat {
    if Wide(file) then U64(file, Entry(file, j) + 8) else U32(file, Entry(file, j) + 4)
  }

  function Address(file: seq<byte>, j: nat): nat {
    if Wide(file) then U64(file, Entry(file, j) + 24) else U32(file, Entry(file, j) + 12)
  }

  function FileSize(file: seq<byte>, j: nat): nat {
    if Wide(file) then U64(file, Entry(file, j) + 32) else U32(file, Entry(file, j) + 16)
  }

  function MemorySize(file: seq<byte>, j: nat): nat {
    if Wide(file) then U64(file, Entry(file, j) + 40) else U32(file, Entry(file, j) + 20)
  }

  /** Header and table lie in the file, the entry size is right, and no segment needs an extra page. */
  predicate Sound(file: seq<byte>) {
    && HeaderBytes(file) <= |file| && Entry(file, EntryCount(file)) <= |file|
    && (StatedEntryBytes(file) == EntryBytes(file) || EntryCount(file) <= 1)
    && forall j | 0 <= j < EntryCount(file) && IsLoad(file, j) ::
      && FileSize(file, j) <= MemorySize(file, j)
      && (MemorySize(file, j) > 0 ==>
            Address(file, j) % 4096 + MemorySize(file, j) <= (MemorySize(file, j) + 4095) / 4096 * 4096)
  }

  // ------------------------------------------------------------------ the structures hold these numbers

  lemma SameNumbers(file: seq<byte>, a: nat, n: nat, at: nat)
    ensures at + 2 <= n ==> U16(Peek(file, a, n), at) == U16(file, a + at)
    ensures at + 4 <= n ==> U32(Peek(file, a, n), at) == U32(file, a + at)
    ensures at + 8 <= n ==> U64(Peek(file, a, n), at) == U64(file, a + at)
  {
  }

  /** The identity byte chooses the structures. */
  lemma ClassByte(file: seq<byte>)
    ensures B(file, 4) == 2 <==> ClassOfFile(file) == Class64
    ensures B(file, 4) == 1 <==> ClassOfFile(file) == Class32
  {
  }

  lemma HeaderNumbers(file: seq<byte>)
    requires B(file, 4) in {1, 2}
    ensures var e := FileHeader(file);
      && e.entry == Start(file) && e.phoff == TableStart(file) && e.phnum == EntryCount(file)
      && e.phentsize == StatedEntryBytes(file)
    ensures EhdrSize(ClassOfFile(file)) == HeaderBytes(file) && PhdrSize(ClassOfFile(file)) == EntryBytes(file)
  {
    hide U16, U32, U64, DecodeEhdr, ClassOfFile, Peek;
    ClassByte(file);
    if Wide(file) {
      Header64(Peek(file, 0, 64));
      SameNumbers(file, 0, 64, 24);
      SameNumbers(file, 0, 64, 32);
      SameNumbers(file, 0, 64, 54);
      SameNumbers(file, 0, 64, 56);
    } else {
      Header32(Peek(file, 0, 52));
      SameNumbers(file, 0, 52, 24);
      SameNumbers(file, 0, 52, 28);
      SameNumbers(file, 0, 52, 42);
      SameNumbers(file, 0, 52, 44);
    }
  }

  lemma DecodedNumbers(file: seq<byte>, a: nat)
    ensures var h := DecodePhdr(Class64, Peek(file, a, PhdrSize(Class64)));
      && (h.Loadable() <==> U32(file, a) == 1)
      && h.offset == U64(file, a + 8) && h.paddr == U64(file, a + 24)
      && h.filesz == U64(file, a + 32) && h.memsz == U64(file, a + 40)
    ensures var h := DecodePhdr(Class32, Peek(file, a, PhdrSize(Class32)));
      && (h.Loadable() <==> U32(file, a) == 1)
      && h.offset == U32(file, a + 4) && h.paddr == U32(file, a + 12)
      && h.filesz == U32(file, a + 16) && h.memsz == U32(file, a + 20)
  {
    hide U16, U32, U64, DecodePhdr, Peek;
    var wide, narrow := Peek(file, a, 56), Peek(file, a, 32);
    Entry64(wide);
    SameNumbers(file, a, 56, 0);
    SameNumbers(file, a, 56, 8);
    SameNumbers(file, a, 56, 24);
    SameNumbers(file, a, 56, 32);
    SameNumbers(file, a, 56, 40);
    Entry32(narrow);
    SameNumbers(file, a, 32, 0);
    SameNumbers(file, a, 32, 4);
    SameNumbers(file, a, 32, 12);
    SameNumbers(file, a, 32, 16);
    SameNumbers(file, a, 32, 20);
  }

  /** The program headers of the file, by their numbers. */
  lemma EntryNumbers(file: seq<byte>, j: nat)
    requires B(file, 4) in {1, 2} && j < EntryCount(file)
    requires StatedEntryBytes(file) == EntryBytes(file) || EntryCount(file) <= 1
    ensures |FileEntries(file)| == EntryCount(file)
    ensures var h := FileEntries(file)[j];
      && (h.Loadable() <==> IsLoad(file, j))
      && h.offset == FileStart(file, j) && h.paddr == Address(file, j)
      && h.filesz == FileSize(file, j) && h.memsz == MemorySize(file, j)
  {
    hide U16, U32, U64, DecodePhdr, ClassOfFile, FileHeader, EntryCount, StatedEntryBytes, TableStart, Peek;
    ClassByte(file);
    HeaderNumbers(file);
    var a := Entry(file, j);
    DecodedNumbers(file, a);
    assert Place(FileHeader(file).phoff, StatedEntryBytes(file), j) == a;
  }

  /** The fields that reading the image leaves in the header buffer, for every file long enough. */
  lemma PreparedHeader(m: Machine)
    requires m.Valid() && Prepare(m).Done?
    ensures var r := Prepare(m);
      var e := HeaderAt(r.value.cls, r.m.mem, r.value.header);
      && (|m.file| >= 64 && m.file[4] == 2 ==>
            && e.entry == U64(m.file, 24) && e.phoff == U64(m.file, 32)
            && e.phentsize == U16(m.file, 54) && e.phnum == U16(m.file, 56))
      && (|m.file| >= 52 && m.file[4] == 1 ==>
            && e.entry == U32(m.file, 24) && e.phoff == U32(m.file, 28)
            && e.phentsize == U16(m.file, 42) && e.phnum == U16(m.file, 44))
      && (|m.file| >= 16 ==> m.file[4] in {1, 2})
  {
    hide Prepare, Machine.Valid, Grows, U16, U32, U64, FileHeader, HeaderAt, WellFormed, NewSizes, ValidateIdentity;
    hide IdentityAccepted, ClassOfFile;
    PrepareSpec(m);
    ClassByte(m.file);
    if |m.file| >= 16 { AcceptedBytes(m.file); }
    if |m.file| >= 52 && m.file[4] in {1, 2} { HeaderNumbers(m.file); }
  }

  lemma AcceptedBytes(file: seq<byte>)
    requires |file| >= 16
    ensures IdentityAccepted(file) <==> file[..4] == [0x7F, 0x45, 0x4C, 0x46] && file[4] in {1, 2} && file[5] == 1
  {
    var id := Peek(file, 0, EI_NIDENT);
    ValidIdentity(id);
    assert id[..4] == file[..4];
  }

  // ------------------------------------------------------------------ the image in memory

  /** Byte `i` of segment `j`. */
  predicate SegmentByte(file: seq<byte>, j: nat, i: nat) {
    j < EntryCount(file) && IsLoad(file, j) && i < MemorySize(file, j)
  }

  /** The page of a segment's byte. */
  function PageOf(file: seq<byte>, j: nat, i: nat): nat { (Address(file, j) + i) / 4096 }

  /** Some byte of a loadable segment has its place in page `p`. */
  ghost predicate Occupied(file: seq<byte>, p: nat) {
    exists j: nat, i: nat :: SegmentByte(file, j, i) && PageOf(file, j, i) == p
  }

  /** The byte's place is in memory, in a page owned as loader data. */
  ghost predicate ByteOwned(m: Machine, j: nat, i: nat) {
    var a := Address(m.file, j) + i;
    a < |m.mem| && a / 4096 in m.pages && m.pages[a / 4096] == 2
  }

  /** The byte has its value: the file's, or zero. */
  ghost predicate ByteLoaded(m: Machine, j: nat, i: nat) {
    var a, k := Address(m.file, j) + i, FileStart(m.file, j) + i;
    && a < |m.mem|
    && (i < FileSize(m.file, j) ==> k < |m.file| && m.mem[a] == m.file[k])
    && (i >= FileSize(m.file, j) ==> m.mem[a] == 0)
  }

  /** The file has all of the segment's bytes. */
  predicate Complete(file: seq<byte>, j: nat) {
    FileSize(file, j) > 0 ==> FileStart(file, j) + FileSize(file, j) <= |file|
  }

  /** Every segment is in memory, byte by byte, in pages that hold nothing else and were not owned before. */
  ghost predicate ImageInMemory(before: map<nat, Kind>, m: Machine) {
    && (forall j: nat, i: nat :: SegmentByte(m.file, j, i) ==> ByteOwned(m, j, i))
    && (forall j: nat, i: nat :: SegmentByte(m.file, j, i) && Complete(m.file, j) ==> ByteLoaded(m, j, i))
    && (forall p :: p in m.pages <==> p in before || Occupied(m.file, p))
    && (forall p :: Occupied(m.file, p) ==> p !in before)
    && (forall j: nat, i: nat, j': nat, i': nat ::
          SegmentByte(m.file, j, i) && SegmentByte(m.file, j', i') && j != j' ==>
          PageOf(m.file, j, i) != PageOf(m.file, j', i'))
    && (exists j :: 0 <= j < EntryCount(m.file) && IsLoad(m.file, j))
  }

  /** The byte `i` of a confined segment lies in one of its pages ... */
  lemma BytePage(h: Phdr, i: nat)
    requires Confined(h) && i < h.memsz
    ensures InPages(h, (h.paddr + i) / 4096)
  {
  }

  /** ... and each of its pages holds one of its bytes. */
  lemma PageByte(h: Phdr, p: nat) returns (i: nat)
    requires InPages(h, p)
    ensures i < h.memsz && (h.paddr + i) / 4096 == p
  {
    PagesLeast(h.memsz);
    i := if p * 4096 < h.paddr then 0 else p * 4096 - h.paddr;
  }

  lemma NumberBounds(bs: seq<byte>, at: nat)
    ensures U16(bs, at) < 0x1_0000 && U32(bs, at) < 0x1_0000_0000 && U64(bs, at) < WORD
  {
  }

  /** What the numbers have to satisfy is what the loader takes for granted. */
  lemma SoundIsWellFormed(file: seq<byte>)
    requires Sound(file) && B(file, 4) in {1, 2}
    ensures WellFormed(file)
  {
    hide U16, U32, U64, FileHeader, ClassOfFile, FileEntries, EntryCount, StatedEntryBytes, TableStart, IsLoad;
    hide FileStart, Address, Confined;
    ClassByte(file);
    HeaderNumbers(file);
    forall j | 0 <= j < EntryCount(file) && IsLoad(file, j)
      ensures Confined(FileEntries(file)[j])
    {
      EntryNumbers(file, j);
      NumberBounds(file, Entry(file, j) + 40);
      NumberBounds(file, Entry(file, j) + 20);
      ConfinedNumbers(FileEntries(file)[j]);
    }
    forall j | 0 <= j < |FileEntries(file)| && FileEntries(file)[j].Loadable()
      ensures Confined(FileEntries(file)[j])
    {
      EntryNumbers(file, j);
    }
  }

  lemma ConfinedNumbers(h: Phdr)
    requires h.filesz <= h.memsz < WORD
    requires h.memsz > 0 ==> h.paddr % 4096 + h.memsz <= (h.memsz + 4095) / 4096 * 4096
    ensures Confined(h)
  {
  }

  /** The headers' pages are the pages of the segments' bytes. */
  lemma ClaimedIsOccupied(file: seq<byte>, p: nat)
    requires Sound(file) && B(file, 4) in {1, 2}
    ensures var hs := FileEntries(file); Claimed(hs, 0, |hs|, p) <==> Occupied(file, p)
  {
    hide FileEntries, Sound, Confined, InPages, EntryCount, IsLoad, Address, MemorySize, FileSize, FileStart;
    SoundIsWellFormed(file);
    var hs := FileEntries(file);
    SoundCount(file);
    if Claimed(hs, 0, |hs|, p) {
      var j :| 0 <= j < |hs| && hs[j].Loadable() && InPages(hs[j], p);
      EntryNumbers(file, j);
      var i := PageByte(hs[j], p);
      assert SegmentByte(file, j, i);
    }
    if Occupied(file, p) {
      var j: nat, i: nat :| SegmentByte(file, j, i) && PageOf(file, j, i) == p;
      EntryNumbers(file, j);
      BytePage(hs[j], i);
    }
  }

  lemma SoundCount(file: seq<byte>)
    requires Sound(file) && B(file, 4) in {1, 2}
    ensures |FileEntries(file)| == EntryCount(file)
    ensures StatedEntryBytes(file) == EntryBytes(file) || EntryCount(file) <= 1
  {
    HeaderNumbers(file);
  }

  /** One byte of a segment that is in place. */
  lemma ByteInImage(m: Machine, h: Phdr, i: nat)
    requires m.Valid() && InPlace(m, h) && Confined(h) && i < h.memsz
    ensures var a := h.paddr + i; a < |m.mem| && a / 4096 in m.pages && m.pages[a / 4096] == 2
    ensures var a := h.paddr + i; InFile(h, |m.file|) ==>
      && (i < h.filesz ==> h.offset + i < |m.file| && m.mem[a] == m.file[h.offset + i])
      && (i >= h.filesz ==> m.mem[a] == 0)
  {
    BytePage(h, i);
  }

  lemma ByteOf(m: Machine, hs: seq<Phdr>, j: nat, i: nat)
    requires m.Valid() && Sound(m.file) && B(m.file, 4) in {1, 2} && hs == FileEntries(m.file)
    requires AllInPlace(m, hs, 0, |hs|) && SegmentByte(m.file, j, i)
    ensures ByteOwned(m, j, i) && (Complete(m.file, j) ==> ByteLoaded(m, j, i))
  {
    hide FileEntries, Sound, Confined, InPlace, EntryCount, IsLoad, Address, MemorySize, FileSize, FileStart;
    hide Machine.Valid;
    SoundIsWellFormed(m.file);
    SoundCount(m.file);
    EntryNumbers(m.file, j);
    ByteInImage(m, hs[j], i);
  }

  lemma ByteInPages(file: seq<byte>, hs: seq<Phdr>, j: nat, i: nat)
    requires Sound(file) && B(file, 4) in {1, 2} && hs == FileEntries(file) && SegmentByte(file, j, i)
    ensures j < |hs| && hs[j].Loadable() && InPages(hs[j], PageOf(file, j, i))
  {
    hide FileEntries, Sound, Confined, InPages, EntryCount, IsLoad, Address, MemorySize, FileSize, FileStart;
    SoundIsWellFormed(file);
    SoundCount(file);
    EntryNumbers(file, j);
    BytePage(hs[j], i);
  }

  lemma PagesApart(file: seq<byte>, hs: seq<Phdr>, j: nat, i: nat, j': nat, i': nat)
    requires Sound(file) && B(file, 4) in {1, 2} && hs == FileEntries(file) && Disjoint(hs, 0, |hs|)
    requires SegmentByte(file, j, i) && SegmentByte(file, j', i') && j < j'
    ensures PageOf(file, j, i) != PageOf(file, j', i')
  {
    hide FileEntries, Sound, InPages, SegmentByte, PageOf;
    ByteInPages(file, hs, j, i);
    ByteInPages(file, hs, j', i');
  }

  lemma {:induction false} OneLoadable(hs: seq<Phdr>, k: nat) returns (j: nat)
    requires k <= |hs| && CountLoadable(hs, k, |hs|) > 0
    ensures j < |hs| && hs[j].Loadable()
    decreases |hs| - k
  {
    if hs[k].Loadable() { j := k; } else { j := OneLoadable(hs, k + 1); }
  }

  /** What is proved about the headers, said about the bytes. */
  lemma InMemoryByBytes(before: map<nat, Kind>, m: Machine)
    requires m.Valid() && Sound(m.file) && B(m.file, 4) in {1, 2}
    requires KernelInMemory(before, m, FileEntries(m.file))
    ensures ImageInMemory(before, m)
  {
    hide FileEntries, Sound, AllInPlace, Disjoint, Claimed, Occupied, SegmentByte, ByteOwned, ByteLoaded, Complete;
    hide EntryCount, IsLoad, PageOf, Machine.Valid, CountLoadable, PageSum;
    var hs := FileEntries(m.file);
    forall j: nat, i: nat | SegmentByte(m.file, j, i)
      ensures ByteOwned(m, j, i) && (Complete(m.file, j) ==> ByteLoaded(m, j, i))
    {
      ByteOf(m, hs, j, i);
    }
    forall p: nat { ClaimedIsOccupied(m.file, p); }
    forall j: nat, i: nat, j': nat, i': nat | SegmentByte(m.file, j, i) && SegmentByte(m.file, j', i') && j != j'
      ensures PageOf(m.file, j, i) != PageOf(m.file, j', i')
    {
      if j < j' { PagesApart(m.file, hs, j, i, j', i'); } else { PagesApart(m.file, hs, j', i', j, i); }
    }
    var j := OneLoadable(hs, 0);
    SoundCount(m.file);
    EntryNumbers(m.file, j);
  }

  /**
   Main theorem, byte by byte.  If loading an image does not fail, the entry point is the number at its
   place in the file; every byte of every segment is in memory at its address, in a page owned as loader
   data; the pages taken are exactly those with such a byte, none of them owned before or shared by two
   segments; and every other byte of memory is as before, except in temporary buffers.
   */
  lemma LoadedImage(m: Machine)
    requires m.Valid() && Sound(m.file)
    ensures var r := LoadKernelOf(m);
      r.Done? ==>
        && m.file[..4] == [0x7F, 0x45, 0x4C, 0x46] && m.file[4] in {1, 2} && m.file[5] == 1
        && r.value == (if m.file[4] == 2 then U64(m.file, 24) else U32(m.file, 24))
        && r.m.file == m.file && ImageInMemory(m.pages, r.m)
        && |r.m.mem| == |m.mem|
        && forall a :: 0 <= a < |m.mem| && r.m.mem[a] != m.mem[a] ==>
          Occupied(m.file, a / 4096) || InNewBuffer(m, r.m, a)
  {
    hide Prepare, Finish, Machine.Valid, Grows, Sound, FileEntries, FileHeader, ClassOfFile, U32, U64, WellFormed;
    hide KernelInMemory, ImageInMemory, Occupied, Claimed, InNewBuffer, NewSizes, KernelBuffers, IdentityAccepted;
    hide TableAt, HeaderAt;
    SoundLength(m.file);
    PrepareSpec(m);
    AcceptedBytes(m.file);
    var r := LoadKernelOf(m);
    if r.Failed? { return; }
    SoundIsWellFormed(m.file);
    LoadedKernel(m);
    GrowsSame(m, r.m);
    HeaderNumbers(m.file);
    InMemoryByBytes(m.pages, r.m);
    forall a | 0 <= a < |m.mem| && r.m.mem[a] != m.mem[a]
      ensures Occupied(m.file, a / 4096) || InNewBuffer(m, r.m, a)
    {
      ClaimedIsOccupied(m.file, a / 4096);
    }
  }

  lemma SoundLength(file: seq<byte>)
    requires Sound(file)
    ensures |file| >= 52
  {
  }

  // ------------------------------------------------------------------ round trip

  /** A segment as its author has it: where it goes, how much memory it takes, and its contents. */
  datatype Part = Part(address: nat, size: nat, payload: seq<byte>)

  /** The file has this entry point and, as its program headers say, these loadable segments. */
  predicate LaidOut(file: seq<byte>, start: nat, parts: seq<Part>) {
    && Start(file) == start && EntryCount(file) == |parts|
    && forall j | 0 <= j < |parts| ::
      && IsLoad(file, j) && Address(file, j) == parts[j].address && MemorySize(file, j) == parts[j].size
      && FileSize(file, j) == |parts[j].payload| && FileStart(file, j) + |parts[j].payload| <= |file|
      && file[FileStart(file, j)..FileStart(file, j) + |parts[j].payload|] == parts[j].payload
  }

  /** Memory holds the contents, followed by zeros. */
  ghost predicate Arrived(m: Machine, part: Part) {
    && part.address + part.size <= |m.mem| && |part.payload| <= part.size
    && m.mem[part.address..part.address + part.size] == part.payload + seq(part.size - |part.payload|, _ => 0)
  }

  lemma PartArrived(m: Machine, j: nat, start: nat, parts: seq<Part>)
    requires LaidOut(m.file, start, parts) && j < |parts| && |parts[j].payload| <= parts[j].size && parts[j].size > 0
    requires forall i: nat :: i < parts[j].size ==> ByteLoaded(m, j, i)
    ensures Arrived(m, parts[j])
  {
    hide IsLoad, Address, MemorySize, FileSize, FileStart, EntryCount, Start;
    var part := parts[j];
    assert ByteLoaded(m, j, part.size - 1);
    var expected := part.payload + seq<byte>(part.size - |part.payload|, _ => 0);
    forall i | 0 <= i < part.size
      ensures m.mem[part.address + i] == expected[i]
    {
      assert ByteLoaded(m, j, i);
      assert i < |part.payload| ==> m.file[FileStart(m.file, j) + i] == part.payload[i];
    }
    assert m.mem[part.address..part.address + part.size] == expected;
  }

  /** What is laid out in a file arrives: the entry point, and every segment's contents at its address. */
  lemma PartsArrive(m: Machine, start: nat, parts: seq<Part>)
    requires m.Valid() && Sound(m.file) && LaidOut(m.file, start, parts)
    ensures var r := LoadKernelOf(m);
      r.Done? ==> r.value == start && forall j :: 0 <= j < |parts| && parts[j].size > 0 ==> Arrived(r.m, parts[j])
  {
    hide LoadKernelOf, Machine.Valid, Sound, LaidOut, Arrived, ByteLoaded, Occupied, InNewBuffer, ByteOwned, Start;
    hide U32, U64;
    LoadedImage(m);
    var r := LoadKernelOf(m);
    if r.Failed? { return; }
    StartOf(m.file, start, parts);
    forall j | 0 <= j < |parts| && parts[j].size > 0
      ensures Arrived(r.m, parts[j])
    {
      PartBytes(m.file, start, parts, j);
      PartArrived(r.m, j, start, parts);
    }
  }

  lemma StartOf(file: seq<byte>, start: nat, parts: seq<Part>)
    requires LaidOut(file, start, parts) && |file| > 4
    ensures start == if file[4] == 2 then U64(file, 24) else U32(file, 24)
  {
  }

  lemma PartBytes(file: seq<byte>, start: nat, parts: seq<Part>, j: nat)
    requires LaidOut(file, start, parts) && Sound(file) && j < |parts|
    ensures |parts[j].payload| <= parts[j].size && Complete(file, j)
    ensures forall i: nat :: i < parts[j].size ==> SegmentByte(file, j, i)
  {
  }
}
