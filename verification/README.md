# Verification of the UEFI ELF boot loader and its kernel

A Dafny model of the boot loader that loads an ELF kernel through UEFI firmware, of the two test
screens, and of the kernel's text console, with proofs of what they promise.
`dafny verify dfyconfig.toml` checks all of it.

## How the model is built

**Firmware.** `Uefi.dfy` states the contracts of the firmware calls (sections 7.2, 7.4 and 13.5 of the
UEFI Specification) as functions on a `Machine`: one flat byte memory, the pages owned through
AllocatePages, the live pool buffers inside the same memory, a history of the pool buffers handed out,
the kernel file with its position, and a map key that changes with every allocation and free. What a
contract leaves open is read from an arbitrary stream of answers: whether a call is refused and with
which error, where a pool buffer lies, what fresh memory holds, what a failed read leaves in its buffer,
how the memory map is laid out. Every theorem holds for all streams, so it holds for every firmware that
keeps these contracts. A right memory map has exactly one descriptor, of the right type, over each page
that is owned or holds a pool buffer, and at most one, of any type, over any other, which the firmware may
keep for its own purposes; `MapExists` shows that bytes of such a map always exist. `Firmware.dfy` is the
machine as the object the loader calls; its methods only give the calls of `Uefi.dfy` an object to change.

**Loader.** `Segment.dfy`, `SegmentList.dfy`, `ProgramSegments.dfy`, `ElfReader.dfy`, `KernelImage.dfy`,
`MemoryMap.dfy` and `Boot.dfy` hold the boot loader's functions as methods on the firmware object, each
proved equal to a function on machines; the theorems are about those functions. Arithmetic is the
code's: 64-bit unsigned wrap-around in the zero fill and in the map size, a 16-bit segment counter.
`Frames.dfy` says what calls keep. Its relation `Grows` is the frame of all loader theorems: what was in
use still is and holds the same bytes, and every byte that has changed lies in a page owned since or in
a pool buffer handed out since.

**Bytes and numbers.** `ElfFormat.dfy` decodes the ELF structures by their layouts. `ElfBytes.dfy` and
`ImageBytes.dfy` say the same without layouts or decoding: each field is the little-endian number at its
offset in elf.h. `LoadedImage`, `PartsArrive` and `KernelFindsImage` state the main results in these terms,
byte by byte. `Sound` is `WellFormed` in numbers.

**Statuses.** `SegmentStatuses.dfy`, `ImageStatuses.dfy`, `MapStatus` and `BootStatus` give the status of each
function for every firmware, as that of the first call that is refused or cannot be met. A firmware may
refuse any call with any error, so that an error does not tell more than the firmware lets it:
`LoadErrorTells` says when the status of `efi_main` tells whether the kernel ran.

Nothing is assumed of the file that the code checks itself. What it does not check appears as
`WellFormed`: the header and the program header table lie inside the file; the entry size is that of the
code's structure, or there is no second entry; and each loadable segment is `Confined`, that is
`p_filesz <= p_memsz` and the segment does not run past the pages computed for it, which a page-aligned
`p_paddr` guarantees. The last two are not just sufficient. `StrideExactly`: for any valid header, without
the condition on the entry size there is a file that carries this header and whose table the code misreads.
`HarmlessExactly`: for any program header that is not confined there is a machine on which `load_segment`
damages memory in use; that machine is one for a single segment, without the buffers of a whole load. A
payload that the file does not have in full weakens only the statement about that segment's own bytes.
Images whose identity is not accepted need not be well formed: `RejectedNeverLoads`. `LoadConditions.dfy`,
`LoadStatus.dfy` and `KernelConditions.dfy` say exactly when loading succeeds, and with which status it
fails, with a firmware that refuses nothing and has room.

**Pictures.** Framebuffers are arrays of 32-bit cells, and callers must keep their rectangles inside
them, as in the C code, which checks nothing. `Painted` says what a finished loop leaves in
each cell; the theorems are about pixels. The C operators `|`, `^` and `<<` are defined bit by bit.

**Console.** The console keeps, as a ghost field, the list of entries written since the last
initialisation. Its invariant says that the 80 x 25 buffer is what that list leaves on the screen.

## What came out

- `load_program_segments` uses EFI_NOT_FOUND for a table that has entries but no loadable one, and
  AllocatePages gives the same status for pages that are taken; `AmbiguityOccurs` exhibits such a machine.
  For a firmware that cooperates, `NotFoundExactly` says when the status is returned, and `NotFoundTells`
  that it tells whether there is something to load exactly where the table is not empty and there is
  nothing to load or the segments have free pages of their own.
- `efi_main` carries on when no graphics device is found, but then `close_graphic_output_service` frees a
  NULL handle buffer, and the kernel is never entered, whatever the image: `NoGraphicsNoKernel`.
- Two descriptors of slack in `get_memory_map` are exactly enough: `SlackIsExact`.
- The boot loader's tile coordinates are 16 bits wide; `CheckerboardExactly` says which resolutions that
  suits.
- The kernel's test screen counts pixels in 16 bits. Its loops end exactly where both counters can reach
  their limits, that is for a height below 65536 and, unless it is 0, a width below 65536:
  `XorScreen.EndsExactly`. `XorScreen.DrawTestScreen` asks for that.
- The code strides through the program header table by the size of its structure and ignores
  `e_phentsize`. For a valid header, that is right for every file with this header and room for its table
  exactly if the two agree or there is no second entry: `StrideExactly`.
- A file of fewer than 16 bytes is read as far as it goes, and the rest of its identity is whatever the
  fresh buffer held. `RejectedNeverLoads` is therefore about files of at least that length.
- Once the headers are read, a load that fails leaves the file open and the header and table buffers
  allocated, and a rejected identity leaves its buffer: `FailedKernel`, `RejectedNeverLoads`.
- Where comments and code differ, the model follows the code: memory_map.h calls the size returned by
  `get_memory_map` that of the buffer, while it is that of the map in it; bootloader.h calls the entry
  point a virtual address, while segments are placed by physical address and the entry is used as one.

## Model

| member | source | states |
|---|---|---|
| Segment.LoadSegment | src/bootloader/src/loader.c:28-136 | The imperative loading of one segment, through all early returns, ends in the machine and status of `LoadSegmentOf`. |
| SegmentStatuses.SegmentStatusExactly | src/bootloader/src/loader.c:52-135 | For every firmware the status of loading a segment is that of the first call that is refused, of pages that are taken, of a buffer without room, or of an offset behind the end of the file, and success if there is none of these. |
| Segment.PagesLeast | src/bootloader/src/loader.c:41-41 | The number of pages is the least whose 4096 bytes each hold the segment. |
| Segment.LoadSpec | src/bootloader/src/loader.c:63-133 | A load of a confined segment never changes memory in use, nor any byte outside new pages and pool buffers handed out, of which there is at most one, of the file size; on success it has taken exactly the segment's pages, which were free, the pool is as before, and memory holds the file bytes followed by zeros. |
| Segment.LoadTouches | src/bootloader/src/loader.c:63-133 | Every byte a load changes, whether it succeeds or fails, lies in the segment's pages or in its temporary buffer. |
| Segment.AlignedIsConfined | src/bootloader/src/loader.c:41-120 | A page-aligned segment whose file size is at most its memory size stays inside the pages computed for it. |
| LoadConditions.LoadsExactly | src/bootloader/src/loader.c:52-135 | If the firmware refuses nothing and has room for the temporary buffer, a segment loads if and only if its pages are free. |
| LoadConditions.HarmlessExactly | src/bootloader/src/loader.c:41-133 | Successful loading of a header damages nothing in use on any machine if and only if the header is confined. |
| SegmentList.RunSpec | src/bootloader/src/loader.c:180-214 | Wherever the loop stops, all loadable segments before that point are in memory at the same time, what was in use and every byte outside new pages and pool buffers is unchanged, and a complete run leaves the pool as it was. |
| SegmentList.RunTouches | src/bootloader/src/loader.c:63-133 | Every byte a run changes lies in a page of a loadable segment up to the one it stopped at, or in a temporary buffer handed out on the way. |
| SegmentList.RunBuffers | src/bootloader/src/loader.c:78-111 | A run is handed out one temporary buffer, of its file size, for each loaded segment with file bytes, in order, and no other. |
| SegmentList.RunPages | src/bootloader/src/loader.c:180-214 | The loaded segments have pairwise disjoint pages that were free before; ownership grows by exactly these, plus at most those of the header the loop failed on. |
| SegmentList.RunPageCount | src/bootloader/src/loader.c:41-65 | A complete run takes as many pages as the sum of the rounded segment sizes. |
| SegmentList.RunCount | src/bootloader/src/loader.c:152-214 | The 16-bit counter equals the number of loadable headers scanned, for any table a 16-bit count can describe. |
| SegmentStatuses.RunStatusExactly | src/bootloader/src/loader.c:180-214 | For every firmware the status of a run is that of the first header of type 1 whose load fails, each starting where the one before it left the machine. |
| SegmentList.PrefixExact | src/bootloader/src/loader.c:180-214 | Stopping at a header is a complete run over the headers before it followed by the failing load; later headers make no difference. |
| LoadConditions.RunSucceedsExactly | src/bootloader/src/loader.c:180-214 | With a firmware that cooperates, a table loads if and only if its segments are pairwise disjoint and lie in free pages, in whatever order the headers come; otherwise the status is EFI_NOT_FOUND. |
| LoadStatus.NotFoundExactly | src/bootloader/src/loader.c:156-225 | With a firmware that cooperates, EFI_NOT_FOUND is returned if and only if the table has entries and either none is loadable or the segments are not disjoint in free pages; EFI_INVALID_PARAMETER if and only if it is empty; success if and only if neither is the case. |
| LoadStatus.NotFoundTells | src/bootloader/src/loader.c:217-223 | The status says whether there is something to load exactly where the table has entries and there is nothing to load or the segments have free pages of their own. |
| LoadStatus.NotFoundIsAmbiguous | src/bootloader/src/loader.c:182-223 | A table with a loadable segment on a page in use also ends in EFI_NOT_FOUND. |
| LoadStatus.AmbiguityOccurs | src/bootloader/src/loader.c:182-223 | There is a valid machine with a cooperating firmware and an ELF64 table with a loadable segment for which the status is EFI_NOT_FOUND. |
| ProgramSegments.LoadProgramSegments | src/bootloader/src/loader.c:142-226 | Both class-specific loops, with status, counter and stopping index, agree with the loop over the table in memory. |
| ProgramSegments.TableDrives | src/bootloader/src/loader.c:176-215 | The table that drives the loop is never damaged by it: the run equals the run over the headers read at the start, and the table is intact at the end. |
| LoadRelation.TablesAlike | src/bootloader/src/loader.c:152-226 | On two machines that differ only in the bytes of some buffers, and whose tables hold the same headers in whatever class and place, the loops end with the same status, count and stopping index, the same ownership, and the same memory outside these buffers. |
| LoadRelation.Simulates | src/bootloader/src/loader.c:176-215 | So a machine with a 32-bit table and one with the 64-bit table of the same headers widened are loaded alike. |
| ElfFormat.EhdrRoundTrip | src/bootloader/src/include/elf.h:51-86 | Decoding inverts encoding for every ELF header whose fields fit, in both classes. |
| ElfFormat.EhdrBytes | src/bootloader/src/include/elf.h:51-86 | Encoding inverts decoding, so every byte of the ELF header structure is accounted for. |
| ElfFormat.PhdrRoundTrip | src/bootloader/src/include/elf.h:91-114 | Decoding inverts encoding for every program header, with the flags in their class's place. |
| ElfFormat.PhdrBytes | src/bootloader/src/include/elf.h:91-114 | Encoding inverts decoding for program headers. |
| ElfBytes.Header64 | src/bootloader/src/include/elf.h:71-86 | Each field of the 64-bit header is the little-endian number at its offset: entry point at 24, table offset at 32, entry size at 54, entry count at 56, and so on. |
| ElfBytes.Header32 | src/bootloader/src/include/elf.h:51-66 | The same for the 32-bit header: entry point at 24, table offset at 28, entry size at 42, entry count at 44. |
| ElfBytes.Entry64 | src/bootloader/src/include/elf.h:105-114 | The same for the 64-bit program header: type at 0, file offset at 8, physical address at 24, file size at 32, memory size at 40; it is loadable exactly if the type is 1. |
| ElfBytes.Entry32 | src/bootloader/src/include/elf.h:91-100 | The same for the 32-bit program header: type at 0, file offset at 4, physical address at 12, file size at 16, memory size at 20. |
| ElfBytes.EncodedHeader | src/bootloader/src/include/elf.h:51-86 | An encoded header has its fields at these offsets. |
| ElfBytes.EncodedEntry | src/bootloader/src/include/elf.h:91-114 | An encoded program header has its fields at these offsets. |
| ElfReader.ReadElfIdentity | src/bootloader/src/elf.c:316-364 | The imperative reading of the identity agrees with `ReadIdentityOf`. |
| ImageStatuses.IdentityStatusExactly | src/bootloader/src/elf.c:328-363 | For every firmware the status of reading the identity is that of its first failing call. |
| ElfReader.ReadElfFile | src/bootloader/src/elf.c:194-310 | The imperative reading of header and table agrees with `ReadElfOf`, including the rejection of other classes. |
| ImageStatuses.HeadersStatusExactly | src/bootloader/src/elf.c:210-309 | For every firmware the status of reading header and table is that of its first failing call, or EFI_INVALID_PARAMETER for another class. |
| ElfReader.ReadElfSpec | src/bootloader/src/elf.c:210-309 | Two fresh buffers of the right sizes hold the file's header and its table; nothing in use changes and no page changes hands. |
| TableStride.StrideExactly | src/bootloader/src/elf.c:256-264 | For a header that passes validation, the table read at the structure's stride is the table at the header's entry size, for every file that carries this header and has room for the table, if and only if the two sizes agree or there is no second entry. |
| ElfReader.ValidIdentity | src/bootloader/src/elf.c:370-402 | Exactly the little-endian ELF identities of class 1 and 2 are accepted; a wrong magic, class or encoding, in that order of precedence, each has its own error. |
| KernelImage.LoadKernelImage | src/bootloader/src/loader.c:232-344 | The imperative loading of the image, through all early returns, agrees with `LoadKernelOf`. |
| ImageStatuses.KernelStatusExactly | src/bootloader/src/loader.c:253-343 | For every firmware the status of loading an image is that of the first call that fails, of the identity, of an empty table, of the segments, or of there being none to load, whichever comes first. |
| ImageBytes.PreparedHeader | src/bootloader/src/loader.c:268-304 | For every file that is long enough, identity byte 2 or 1 chooses the structure, and the fields found in the header buffer are the file's little-endian numbers at the offsets of that class. |
| KernelImage.PrepareSpec | src/bootloader/src/loader.c:253-293 | Before segments are loaded no page changes hands, whatever the file and wherever it fails; afterwards three buffers have been handed out, and the two that live hold the file's header and table. |
| ProgramSegments.SegmentsSpec | src/bootloader/src/loader.c:156-225 | Status, machine, count and stopping index are those of the run over the table's headers, except that an empty table is EFI_INVALID_PARAMETER and a complete run without loadable headers is EFI_NOT_FOUND. |
| KernelImage.LoadedKernel | src/bootloader/src/loader.c:232-344 | After a successful load all segments are in memory, disjoint, in formerly free pages; the pages taken are exactly theirs and add up to the rounded sizes; the pool is as before, the file closed, the entry point the header's; memory in use is unchanged, and so is every byte outside the segments' pages and the buffers handed out, whose sizes are listed. |
| ImageBytes.LoadedImage | src/bootloader/src/loader.c:253-344 | The same in bytes and numbers only: the entry point is the number at offset 24, each byte of each segment of type 1 is at its physical address in an owned page of type 2, the pages taken are exactly those with such a byte, none shared or owned before, and all other memory outside temporary buffers is unchanged. |
| KernelImage.FailedKernel | src/bootloader/src/loader.c:253-344 | After a failed load memory in use is unchanged, and either no page has changed hands or exactly the segments before some header are complete; once the headers have been read, the file stays open and their buffers stay allocated. |
| KernelImage.EntryLoaded | src/bootloader/src/loader.c:299-312 | An entry point in the file-backed part of a segment lies in a page owned as loader data and holds the file's byte. |
| KernelConditions.KernelLoadsExactly | src/bootloader/src/loader.c:253-343 | With a firmware that refuses nothing and has room, the status is that of the identity if it is not accepted, EFI_INVALID_PARAMETER for an empty table, EFI_NOT_FOUND if there is no loadable segment or the segments are not disjoint in pages free beside the header and table buffers; the image loads if and only if none of these is the case. |
| KernelConditions.RejectedNeverLoads | src/bootloader/src/loader.c:253-276 | An image whose identity is not accepted never loads, whatever else is in the file and whatever the firmware does; memory in use is kept and no page changes hands; unless the firmware fails before, the status is that of the identity, the file stays open and the identity's buffer stays allocated. |
| ElfRoundTrip.RoundTrip | src/bootloader/src/loader.c:263-343 | Whatever header, program headers (at the header's entry size) and payloads are encoded in a file, a successful load recovers the headers, the entry point and every payload in memory followed by zeros. |
| ImageBytes.PartsArrive | src/bootloader/src/loader.c:263-343 | The same for a file laid out by the offsets of its fields: a load that does not fail returns the entry point and leaves every segment's contents, followed by zeros, at its address. |
| ElfRoundTrip.OverlapNeverLoads | src/bootloader/src/loader.c:63-68 | An image with two loadable segments that share a page never loads, whatever their order and position. |
| ElfRoundTrip.OwnedNeverLoads | src/bootloader/src/loader.c:63-68 | Nor does one with a segment on a page that is already owned. |
| MemoryMap.GetMap | src/bootloader/src/memory_map.c:23-85 | The imperative two-query procedure agrees with `GetMapOf`, including the 64-bit size arithmetic. |
| MemoryMap.MapIsCurrent | src/bootloader/src/memory_map.c:38-84 | On success the map in the fresh buffer describes the machine left behind, every page in use once with its type and no page twice, and the key returned is current. |
| MemoryMap.SlackIsExact | src/bootloader/src/memory_map.c:61-82 | The second query fails as too small if and only if the map has grown by more than two descriptors since the first, and otherwise succeeds. |
| MemoryMap.MapSucceedsExactly | src/bootloader/src/memory_map.c:38-84 | The call succeeds if and only if both answers are right maps, the first is not empty, the buffer is granted and the map grows by at most two descriptors. |
| MemoryMap.MapStatusExactly | src/bootloader/src/memory_map.c:38-84 | Every status of the call for every firmware: a wrong or empty first answer, a buffer refused or without room, a wrong second answer, or one that has grown by more than two descriptors, in this order. |
| ElfBytes.DescriptorFields | src/bootloader/src/memory_map.c:77-79 | A descriptor's type, physical start and page count are the numbers at offsets 0, 8 and 24. |
| MapAnswers.MapExists | src/bootloader/src/memory_map.c:77-79 | For every valid memory there are bytes, at the firmware's descriptor size, that are a right map of it, so the contract of GetMemoryMap can be met. |
| Boot.EfiMain | src/bootloader/src/main.c:202-273 | The imperative hand-over agrees with `BootOf`. |
| BootFailures.BootEnds | src/bootloader/src/main.c:202-273 | On any machine and for any image each failure's own status is handed on, EFI_INVALID_PARAMETER if the handle buffer is not live, and EFI_LOAD_ERROR after the kernel; the map key never fails; a run that does not enter the kernel leaves boot services on and the pages as the load left them. |
| BootFailures.BootStatusExactly | src/bootloader/src/main.c:202-273 | The status in terms of the firmware's answers, and the kernel is entered if and only if none of the failures occurs. |
| BootFailures.LoadErrorTells | src/bootloader/src/main.c:204-273 | EFI_LOAD_ERROR is returned if and only if the kernel was entered, for a firmware that does not refuse calls with that status. |
| Boot.KernelEntered | src/bootloader/src/main.c:202-270 | Whenever the kernel is entered, boot services have ended, the map in the boot information describes the memory as it is, all segments are in place, and the map lists each of their pages once, as loader data. |
| BootedImage.KernelFindsImage | src/bootloader/src/main.c:202-270 | The same in bytes: the kernel is entered at the number at offset 24 of the file, with every byte of every segment in memory, and each page with such a byte has one descriptor in its map, of type 2. |
| Boot.KernelEnteredExactly | src/bootloader/src/main.c:202-260 | The kernel is entered if and only if the load succeeds, the handle buffer is live and the firmware does its part of the map (right answers, buffer granted, growth of at most two descriptors): the map key is never stale. |
| BootFailures.NoGraphicsNoKernel | src/bootloader/src/main.c:127-222 | With a NULL handle buffer the kernel is never entered, whatever the image and the state of memory. |
| Boot.KernelKeepsMemory | src/bootloader/src/main.c:202-270 | On a run that enters the kernel no byte in use before has changed, except in the handle buffer, which is freed, and no byte at all outside new pages and pool buffers handed out. |
| Framebuffer.DrawRect | src/kernel/src/graphics.c:7-28 | The nested loops with 32-bit scanline offsets leave exactly the painted image (the boot loader's draw_rect is the same). |
| Framebuffer.DrawPixel | src/kernel/src/graphics.c:30-39 | One cell is stored, that of the pixel. |
| Framebuffer.PaintedAt | src/kernel/src/graphics.c:20-27 | A filled rectangle changes exactly its own pixels: two pixels inside the pitch never share a cell. |
| Framebuffer.FillsCommute | src/bootloader/src/graphics.c:72-79 | Fills of rectangles without a common pixel commute. |
| Bits.OperatorBits | src/kernel/src/kernel.c:54-55 | The operators used for colours, entries and the texture are disjunction and exclusive disjunction in every bit. |
| Framebuffer.PackInjective | src/kernel/src/graphics.c:41-46 | Colour packing keeps all three components apart. |
| TestScreen.DrawTestScreen | src/bootloader/src/graphics.c:86-106 | The tile loop, with its 16-bit truncations, paints the twelve tiles in order. |
| TestScreen.Checkerboard | src/bootloader/src/graphics.c:88-105 | Each pixel of the 4 x 3 grid has the colour of the parity of its tile coordinates, 0x00FF4000 or 0x00FF80BF; every other cell, padding included, is untouched. |
| TestScreen.LastTileWins | src/bootloader/src/graphics.c:88-105 | For every resolution, truncation included, a pixel has the colour of the last of the twelve tiles it lies in. |
| TestScreen.NoTileNoChange | src/bootloader/src/graphics.c:88-105 | A pixel in no tile is untouched. |
| TestScreen.Neighbours | src/bootloader/src/graphics.c:98-101 | Adjacent tiles differ in colour. |
| TestScreen.CheckerboardExactly | src/bootloader/src/graphics.c:88-105 | The whole grid comes out right for every initial image if and only if the largest tile coordinates fit 16 bits. |
| XorScreen.DrawTestScreen | src/kernel/src/kernel.c:45-66 | Where the nested 16-bit loops end, they leave the texture in every visible pixel. |
| XorScreen.EndsExactly | src/kernel/src/kernel.c:49-53 | The loops with wrapping 16-bit counters end if and only if the height is below 65536 and, unless it is 0, so is the width. |
| XorScreen.Textured | src/kernel/src/kernel.c:52-65 | Each visible pixel (x, y) has, with c = (x ^ y) % 256, the components 255 - c % 128, c and c % 128; everything else is untouched. |
| XorScreen.LatinSquare | src/kernel/src/kernel.c:54-55 | In each aligned 256 x 256 block on screen every colour occurs exactly once in each row and once in each column, at a place given in closed form. |
| XorScreen.SymmetricImage | src/kernel/src/kernel.c:52-65 | The image is symmetric wherever both points are visible. |
| XorScreen.ColoursDiffer | src/kernel/src/kernel.c:55-55 | The 256 texture values have 256 different colours. |
| VgaConsole.EntryParts | src/kernel/src/vga.c:41-45 | A cell entry keeps character and colour apart. |
| VgaConsole.ColorParts | src/kernel/src/vga.c:31-35 | A colour entry keeps foreground and background apart. |
| VgaConsole.BlankParts | src/kernel/src/vga.c:55-61 | The blank is a light grey space on black, 0x0720. |
| VgaConsole.Strlen | src/kernel/src/string.c:14-23 | The length is the index of the first zero. |
| VgaConsole.Console.Initialize | src/kernel/src/vga.c:51-64 | All 2000 cells are 0x0720, the cursor is at the origin, the colour 7, the history empty. |
| VgaConsole.Console.SetColor | src/kernel/src/vga.c:70-73 | Only the colour changes. |
| VgaConsole.Console.PutChar | src/kernel/src/vga.c:79-92 | The cell under the cursor gets the character and the current colour and no other changes; the cursor moves on by one, modulo 2000; the history grows by the entry, and screen and cursor are again those of the history. |
| VgaConsole.Console.Puts | src/kernel/src/vga.c:98-106 | The history grows by the characters before the first zero, in their order and each in the current colour. |
| VgaConsole.Console.Run | src/kernel/src/vga.c:51-106 | After any sequence of calls the cursor is the number of writes modulo 2000 and the screen that of the whole history, each entry in the colour then in effect. |
| VgaConsole.HistoryCharacters | src/kernel/src/vga.c:70-106 | The history of a list of calls grows call by call by the call's characters, in order and in the colour of the last call that set one. |
| VgaConsole.Advance | src/kernel/src/vga.c:85-91 | The row and column cursor counts modulo 2000. |
| VgaConsole.ShowsLast | src/kernel/src/vga.c:79-92 | The screen shows the last 2000 writes, each at its number modulo 2000. |
| VgaConsole.ScreenExactly | src/kernel/src/vga.c:79-92 | Every cell in closed form: blank until reached, then its latest write. |

## Left out

- Debug output, error messages and the wait for a key after an error: output and input only.
- The DEBUG build, which fetches the memory map twice and re-enters `get_memory_map` with an old size.
- Serial port, UART and port input/output: progress depends on the device.
- Protocol discovery, video mode search and setting, watchdog and console reset: thin firmware calls.
- The video fields of the boot information, which are copied before the kernel is loaded.
- The descriptor version of the memory map, which is never used.
- The jump to the kernel, the assembly entry, the linker script and the makefiles.
- The firmware's own allocator, file system and merging of descriptors: only contracts. Descriptor sizes are taken to be such that a map with two more descriptors than there are pages has a 64-bit size.
- Firmware statuses that are warnings: EFI_ERROR treats them as success, and so does the model.
- Faults of memory accesses past the end of memory: such bytes are dropped on writing and read as zero.
- KernelImage.FailedKernel: of the pool buffers that error paths leave behind, it names those of the headers; whether a temporary buffer stays as well, `RunBuffers` bounds.
- LoadConditions.HarmlessExactly: shows the damage for `load_segment` on a machine of its own and not for an image that `load_kernel_image` accepts, and asks for numbers that leave room for segment, payload and buffer below 2^64.
- Segment.LoadSpec: a segment with an unaligned address is taken to occupy the pages from the one its address lies in, since the UEFI Specification does not say what AllocatePages does with one.
