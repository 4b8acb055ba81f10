/** What the kernel finds when it is entered, byte by byte. */
module BootedImage {
  import opened ElfBytes
  import opened Uefi
  import opened Frames
  import opened SegmentList
  import opened ElfReader
  import opened KernelImage
  import opened Boot
  import opened ImageBytes

  /**
   On a run that enters the kernel, it is entered at the address that the file gives, with boot services
   ended and every byte of every segment in memory; and in the memory map it is given, each page with
   such a byte has one descriptor, of type 2 (loader data).
   */
  lemma KernelFindsImage(m: Machine, handles: nat)
    requires m.Valid() && Sound(m.file)
    ensures var r := BootOf(m, handles);
      r.kernel.Some? ==>
        var k := r.kernel.value;
        && k.entry == (if m.file[4] == 2 then U64(m.file, 24) else U32(m.file, 24))
        && !r.m.services && r.m.file == m.file && ImageInMemory(m.pages, r.m)
        && forall p :: Occupied(m.file, p) ==> Listed(KernelMap(r.m, k), p, 2)
  {
    hide LoadKernelOf, Machine.Valid, Sound, ImageInMemory, Occupied, Listed, Claimed, InNewBuffer, U32, U64;
    hide Machine.FreePool, WellFormed, FileEntries, FileHeader, KernelInMemory, Machine.DescribedBy, Start;
    LoadedImage(m);
    if LoadKernelOf(m).Failed? { return; }
    SoundLength(m.file);
    SoundIsWellFormed(m.file);
    HeaderNumbers(m.file);
    KernelEntered(m, handles);
    var r := BootOf(m, handles);
    if r.kernel.None? { return; }
    InMemoryByBytes(m.pages, r.m);
    forall p: nat { ClaimedIsOccupied(m.file, p); }
  }
}
