# A verified model of TNTOS

TNTOS is a small x86-64 operating system. This project models the parts of it that keep
complicated state in raw memory, in Dafny, and proves what they promise. Objects whose methods
update fields are classes here, loops are loops, and each method is proved against a
specification that is a value: a page-map tree, a chain of clusters, a stream of bits, a
picture. What the system promises is then proved about those values.

- **Virtual memory** (`MapLine`, `MemoryManager`, `PageMapEntry`, `FlatMemory`, `FlatHistory`,
  `PageTree`, `PageClean`, `Isolation`, `Paging`, `AppRuns`, `PagingExamples`). A physical
  memory of frames, a bitmap allocator, the recursive page-map builder, copier and cleaner,
  page faults with copy-on-write and file-backed pages, and the life of an application from
  loading its image to its exit. A ghost tree says which frame holds which node of which
  address space; the hardware walk of Intel SDM volume 3A, section 4.5, is a function over the
  frames. `AppRuns.Run` is the result over whole runs. An application cannot tell its memory
  from a plain array of words: whatever the others do, and in whatever order pages are shared,
  copied and loaded, a read gives the word it stored last (`AppRuns.ReadsBack`), or else its
  image's, a zero, or the mapped file's (`AppRuns.ReadsStart`, `AppRuns.ReadsHeap`,
  `AppRuns.ReadsFile`). Spaces that do not act see no change, and once the applications that a run started have gone the
  allocator's bitmap is what it was. All this holds until a system call writes to a shared page.
- **DEFLATE and PNG** (`Bits`, `BitStream`, `PrefixCode`, `Huffman`, `Deflate`, `DeflateStream`,
  `DeflateHeaders`, `DeflateWritten`, `DeflateEnds`, `Inflate`, `ZlibDecode`; `PngFilter`,
  `PngRows`, `PngImage`, `Adam7`, `PngInterlaced`, `PngFile`). The canonical prefix code of RFC 1951, section 3.2.2, as a definition; the table builder with its
  nine-bit fast table; both decoders; blocks of all three kinds and whole streams, against a
  specification that reads the input bit by bit. Whatever was compressed, in any blocks, codes,
  tokens and code lengths, is decoded again (`DeflateWritten.StreamRead`, `ZlibDecode.Decode`).
  Scanline filters of RFC 2083, section 6, are
  undone in place in the strided output; the seven Adam7 passes are a partition of the image,
  and an image, filtered in any way and compressed in any way, comes back pixel by pixel
  (`PngFile.LoadInterlaced`, `PngFile.LoadPlain`).
- **FAT32 files** (`FatTable`, `FileSystem`, `FileBytes`, `FileGrowth`, `Files`, `FileSession`).
  Cluster chains as lists in the table, allocation, sequential and random reads, and writes,
  up to the round trip of any sequence of writes and reads.
- **The compositor** (`Rectangles`, `FrameBuffers`, `Layers`, `Compositor`, `ActiveLayers`,
  `Desktop`). Incremental redraws keep the back buffer and the screen equal to painting every
  layer anew, from start-up on.
- **The scheduler and pipes** (`RunQueues`, `Scheduler`, `PipeStream`). The regions between
  `cli` and `sti` are atomic steps; the invariants hold over every interleaving of them.
- **Two text algorithms** (`ModulePath`, `ModuleResolver`; `Utf8`, `Utf8Forms`,
  `Utf8Decoding`, `TextFile`).
  The in-place module name resolver refines a stack of components; it is said exactly when the
  editor's save and load undo each other, in either order.

Where the code does not do what one would expect, the model keeps the code and the exact
condition is stated:

- `FileDescriptor::Write` extends the chain by several clusters and continues in the last of
  them. If the file is new or the write ends at most one cluster past the chain, the bytes stand
  where they belong; otherwise the next cluster is skipped and keeps its old bytes, whatever was
  to be written there (`Files.FileDescriptor.Write`, `FileSession.SkippedStays`).
  `FileSession.SkipExample` is an instance.
- A kernel-mode store into a read-only page (protection in kernel mode is switched off) stays
  private exactly when the page is the application's own or the store changes nothing
  (`Isolation.KernelStore`, `Paging.Machine.KernelStoreWord`, `AppRuns.Step`). In
  `PagingExamples.KernelStoreExample` a system call's write changes the cached image.
- A launched application's writable pages are its own exactly when the image maps no page from
  the beginning of the stack on (`Paging.Machine.LaunchApp`, by way of
  `Isolation.SetUpSeparated`). In `PagingExamples.StackImageExample` it does, and a store to
  the stack changes the cached image.
- A word of a mapped file, not stored to, comes from the file exactly when nothing was in its
  page when the file was mapped and the heap had not grown over the page when it was first
  touched (`FlatHistory.MappedWord`, `FlatHistory.FileSeen`): the fault handler asks for the
  heap first, and the heap's growth is not checked against the file area. In
  `PagingExamples.GrownOverExample` it is a zero.
- Saving and loading a text gives the same lines exactly when there is at least one line and
  no line contains a newline character (`TextFile.SavedLoads`). Loading and saving gives the
  same bytes exactly when they are made up of the byte sequences of section 4 of RFC 3629,
  surrogates allowed (`TextFile.LoadedSaves`, `Utf8Forms.WellFormed`). Other bytes are refused
  by the save exactly when one of them had to be marked as undecodable or a character is too
  large (`TextFile.LoadedEncodable`); the rest, overlong forms, are saved shorter.
- Past its input a compressed block reads zeroes. In a buffer that may grow it goes on for ever
  there exactly when the all-zero window is a literal, or a length followed by a distance within
  the output; in one that may not, exactly when it is a length of no bytes followed by such a
  distance (`DeflateEnds.PastInputRuns`). Distance symbols 30 and 31 count: they are distance
  zero, so the bytes passed over stay what the memory held (`Deflate.Extend`). So every block
  with two given codes ends exactly when that window is no code, the end of the block, or a
  length without a distance (`DeflateEnds.AlwaysHaltsIff`), and whether one block or stream ever
  ends can be told after a known number of items (`DeflateEnds.HaltsInTime`,
  `DeflateEnds.StreamHaltsInTime`). `DeflateEnds.CutOffExample` is a code that never ends a
  block that is cut off, and `DeflateEnds.NoBytesExample` one that does so without producing
  anything, in any buffer.
- A task that waits for another's end takes the place of one that waited before it, which then
  is not woken: exactly the last waiter is (`Scheduler.TaskManager.Finish`). In
  `Scheduler.TwoWaitersExample` the first of two sleeps on.
- The mouse is put on top of the windows without being drawn. The screen is right but where it
  is (`Desktop.InitializeMouse`), and everywhere from its first move on
  (`Desktop.StartDesktop`).

Run `dafny verify dfyconfig.toml` to check the project.

## Model

| member | source | states |
|---|---|---|
| `MapLine.PutReadsBack` | kernel/memory/memory_manager.cpp:63-79 | A bit written in a 64-bit map line reads back |
| `MapLine.PutKeepsOthers` | kernel/memory/memory_manager.cpp:70-79 | Writing one bit leaves the other 63 alone |
| `MemoryManager.BitmapMemoryManager.constructor` | kernel/memory/memory_manager.cpp:6-8 | No frame is allocated and the range is all of memory |
| `MemoryManager.BitmapMemoryManager.Allocate` | kernel/memory/memory_manager.cpp:10-34 | Returns the lowest start of n consecutive free frames in the range and takes exactly those; fails only when there is no such run; skipping i + 1 frames passes no valid start |
| `MemoryManager.BitmapMemoryManager.Free` | kernel/memory/memory_manager.cpp:36-41 | The set of allocated frames loses exactly these |
| `MemoryManager.BitmapMemoryManager.MarkAllocated` | kernel/memory/memory_manager.cpp:43-47 | The set of allocated frames gains exactly these |
| `MemoryManager.BitmapMemoryManager.SetMemoryRange` | kernel/memory/memory_manager.cpp:49-52 | Sets the managed range and no frame |
| `MemoryManager.BitmapMemoryManager.GetBit` | kernel/memory/memory_manager.cpp:63-68 | The word and bit of a frame say whether it is in the set of allocated frames |
| `MemoryManager.BitmapMemoryManager.SetBit` | kernel/memory/memory_manager.cpp:70-79 | Writing the bit adds the frame to the set or takes it out |
| `PageMapEntry.PartOfVpn` | kernel/memory/paging.hpp:30-51 | The parts of an address are the base-512 digits of its page number |
| `PageMapEntry.FlagBits` | kernel/memory/paging.hpp:64-80 | The lowest bits of an entry as it lies in memory are present, writable and user; bit 7 is the huge page bit |
| `PageMapEntry.AddrBits` | kernel/memory/paging.hpp:64-80 | Bits 12 to 51 of an entry as it lies in memory are the frame number |
| `PageMapEntry.VpnOfValue` | kernel/memory/paging.hpp:30-40 | The bit fields of an address hold its page number, bits 12 to 47 |
| `PageMapEntry.AdvanceAddress` | kernel/memory/paging.cpp:90-93 | Setting one part to the next index and the lower parts to zero gives the first page below the next entry |
| `PageMapEntry.BytesOfWord` | kernel/memory/paging.hpp:64-90 | Eight bytes stored as one table word read back unchanged, so page contents and page tables share one memory |
| `PageMapEntry.FilePageBytes` | kernel/memory/paging.cpp:144-147 | Byte i of a loaded page is the file's byte at the page's offset plus i, and zero past the file's end |
| `FlatMemory.ServedAt` | kernel/memory/paging.cpp:243-248 | The handler looks at the faulting address, not at its page; a page is in the heap or in a mapping as a whole, so it makes no difference |
| `FlatMemory.LastWordStays` | kernel/console/terminal.cpp:110-113 | Of the words that a segment stores to one place, the last stays |
| `PageTree.WalkFindsLeaf` | kernel/memory/paging.hpp:64-90 | The hardware walk through the tables of a well-shaped tree finds exactly the leaf entry of the page, with that entry's rights |
| `PageTree.AttachKeepsShape` | kernel/memory/paging.cpp:45-59 | Entering a fresh frame for a missing child keeps the tree well shaped: every node has its own frame and the tables say exactly that |
| `PageTree.SetEntryKeepsShape` | kernel/memory/paging.cpp:71-78 | Rewriting one entry's rights keeps the tree well shaped |
| `PageTree.EntrySetStep` | kernel/memory/paging.cpp:65-77 | One step of the builder maps one page or adds one table and changes no other translation |
| `PageTree.SetUpJoins` | kernel/memory/paging.cpp:64-94 | Setting up adjacent ranges one after the other is setting up their union |
| `PageTree.SetUpNests` | kernel/memory/paging.cpp:76-84 | A table entry made present and the pages set up below it are one set-up at the upper level |
| `PageTree.CopyAbsent` | kernel/memory/paging.cpp:215-218 | Where the template has no entry there is nothing to copy |
| `PageTree.CopyLeaf` | kernel/memory/paging.cpp:204-211 | A copied leaf entry maps the template's frame read-only, and changes no other translation |
| `PageTree.CopyTableStep` | kernel/memory/paging.cpp:219-224 | A copied table entry points at a fresh empty table of the copy's own |
| `PageTree.CopiedJoins` | kernel/memory/paging.cpp:215-228 | Copies of adjacent ranges join |
| `PageTree.CopiedNests` | kernel/memory/paging.cpp:223-227 | A copied table entry and the copy below it are one copy at the upper level |
| `PageTree.NothingBelow` | kernel/memory/paging.cpp:101-105 | Below an absent entry no page is mapped and no frame is owned |
| `PageClean.CleanAbsent` | kernel/memory/paging.cpp:102-105 | Passing over an absent entry leaves nothing behind |
| `PageClean.CleanLeaf` | kernel/memory/paging.cpp:113-120 | Clearing a leaf entry unmaps that page, and removes its node if the page was the application's own |
| `PageClean.CleanTable` | kernel/memory/paging.cpp:107-120 | Clearing a table entry after everything below it removes that whole subtree |
| `PageClean.CleanedJoins` | kernel/memory/paging.cpp:101-121 | Cleaning adjacent ranges is cleaning their union |
| `PageClean.ChildlessWhenCleaned` | kernel/memory/paging.cpp:107-120 | A table is freed only when no node hangs below it any more |
| `PageClean.DetachKeepsShape` | kernel/memory/paging.cpp:113-120 | Clearing an entry of an application, with its childless child, keeps the tree well shaped |
| `Isolation.SetUpSeparated` | kernel/memory/paging.cpp:73-74 | Setting up pages keeps writable pages private if and only if no shared page is made writable |
| `Isolation.CopiedSeparated` | kernel/memory/paging.cpp:204-211 | Copying a template read-only keeps writable pages private |
| `Isolation.CleanedSeparated` | kernel/memory/paging.cpp:99-124 | So does cleaning |
| `Isolation.WritableIsPrivate` | kernel/memory/paging.cpp:150-173 | A frame mapped writable at one page of one address space is mapped at no other page of any address space |
| `Isolation.ViewKept` | kernel/memory/paging.cpp:203-230 | An address space sees what it saw while its entry and the frames behind it are kept |
| `Isolation.LocalChange` | kernel/console/terminal.cpp:212-250 | A change inside one address space that is nobody's template leaves every other space's mappings and views as they were |
| `Isolation.OnlySpaceJoins` | kernel/console/terminal.cpp:763-817 | Two such changes of the same space are one |
| `Isolation.SetUpIsLocal` | kernel/memory/paging.cpp:61-97 | Setting up pages of one space is such a change |
| `Isolation.CopiedIsLocal` | kernel/memory/paging.cpp:203-230 | Copying a template is such a change |
| `Isolation.CleanedIsLocal` | kernel/memory/paging.cpp:99-124 | Cleaning an application is such a change |
| `Isolation.SetUpViewKept` | kernel/memory/paging.cpp:46-48 | Pages that are already present keep their contents when a range is set up |
| `Isolation.SetUpViewNew` | kernel/memory/paging.cpp:50-56 | A missing page shows zeroes afterwards if it is in the range, and is still missing otherwise |
| `Isolation.SetUpProvides` | kernel/memory/paging.cpp:193-196 | Both together, for the whole range |
| `Isolation.CopiedView` | kernel/memory/paging.cpp:203-230 | A fresh copy sees its template's memory |
| `Isolation.CopyOnWrite` | kernel/memory/paging.cpp:150-173 | Giving a shared page its own frame with the same contents changes nothing that any space sees and makes the page writable |
| `Isolation.PageStore` | kernel/memory/paging.cpp:235-238 | A store through a page of its own is seen in that page of that space and nowhere else |
| `Isolation.KernelStore` | kernel/memory/paging.cpp:31-33 | With write protection off in kernel mode, a store into an application's page leaves all other spaces' views alone if and only if the page is writable or the store changes nothing |
| `Isolation.KernelStoreSeen` | kernel/memory/paging.cpp:31-33 | The same told by what the application sees: the page is its own, or shows the stored contents already |
| `Isolation.SharedSees` | kernel/memory/paging.cpp:204-211 | A page that is not the application's own shows its image's page |
| `Isolation.AddSpace` | kernel/console/terminal.cpp:131-144 | A root table with an empty upper half is a well-shaped new address space |
| `Isolation.RemoveSpace` | kernel/console/terminal.cpp:146-152 | Removing the root that is left of an application keeps the shape |
| `Paging.Machine.NewPageMap` | kernel/memory/paging.cpp:177-186 | A frame that was free, now taken and zeroed; fails only when no frame of the range is free |
| `Paging.Machine.SetNewPageMapIfNotPresent` | kernel/memory/paging.cpp:45-59 | A present entry is returned as it is; an absent one gets a zeroed frame; failure changes nothing |
| `Paging.Machine.SetEntryBits` | kernel/memory/paging.cpp:67-77 | The entry's exact new value: present, user, writable as asked |
| `Paging.Machine.SetEntryPresent` | kernel/memory/paging.cpp:65-77 | The same for the entry of a page, as a step of the tree |
| `Paging.Machine.NextEntry` | kernel/memory/paging.cpp:90-93 | The loop over lower parts moves the address to the first page below the next entry |
| `Paging.Machine.SetupPageMap` | kernel/memory/paging.cpp:61-97 | Makes exactly the next pages under this table present with the writability asked for, each missing one on a distinct zeroed frame, leaves every other translation unchanged, and returns exactly the number of pages not yet mapped |
| `Paging.Machine.SetupPageMaps` | kernel/memory/paging.cpp:193-196 | The same from the root: num pages, cut off at the end of the address space; on failure, how far it came |
| `Paging.Machine.CleanPageMap` | kernel/memory/paging.cpp:99-124 | Everything of the application under this table from the given entry on is unmapped; tables and private pages are freed once, shared pages are not freed |
| `Paging.Machine.CleanEntry` | kernel/memory/paging.cpp:107-120 | The same for one present entry |
| `Paging.Machine.ReleaseEntry` | kernel/memory/paging.cpp:113-120 | Frees the entry's frame if the entry is writable and zeroes the entry, keeping allocated frames and nodes in step |
| `Paging.Machine.FindFileMapping` | kernel/memory/paging.cpp:126-134 | The first mapping that contains the address, or none if there is none |
| `Paging.Machine.PreparePageCache` | kernel/memory/paging.cpp:136-148 | The faulting page shows the bytes that the file holds now, at its offset, and zeroes past the end; no other page changes |
| `Paging.Machine.FillPage` | kernel/memory/paging.cpp:144-147 | A kernel copy of a whole page is seen in that page; the other spaces see no change if and only if the page is the application's own or the copy changes nothing |
| `Paging.Machine.SetPageContent` | kernel/memory/paging.cpp:150-162 | Walks to the page's entry and changes only its frame and its writable bit |
| `Paging.Machine.CopyOnePage` | kernel/memory/paging.cpp:164-173 | The page becomes writable on a frame of its own; what this and every other space sees stays the same; failure changes nothing |
| `Paging.Machine.WriteFault` | kernel/memory/paging.cpp:235-238 | The same for the fault of a user-mode write |
| `Paging.Machine.HandlePageFault` | kernel/memory/paging.cpp:232-250 | Which of the four outcomes happens when, and that a served page is mapped writable and holds zeroes, file bytes or what it held; memory runs out only when no frame is free |
| `Paging.Machine.CopyEntryBits` | kernel/memory/paging.cpp:219-224 | dest[i] becomes src[i] pointing at a fresh zeroed table |
| `Paging.Machine.CopyTableEntry` | kernel/memory/paging.cpp:219-224 | The same as a step of the tree |
| `Paging.Machine.CopyLeafEntry` | kernel/memory/paging.cpp:209-210 | One page is shared read-only with the template |
| `Paging.Machine.CopySubtree` | kernel/memory/paging.cpp:219-227 | One table entry and everything below it is copied |
| `Paging.Machine.CopyPageMaps` | kernel/memory/paging.cpp:203-230 | Every page of the template under this table is mapped read-only at the same address in tables of the copy's own; on failure, how far it came |
| `Paging.Machine.ProvidePages` | kernel/memory/paging.cpp:193-196 | For the running application: missing pages come up zeroed and its own, pages present are kept, other spaces see no change; writable pages stay private if and only if none of the pages was shared |
| `Paging.Machine.SetupPML4` | kernel/console/terminal.cpp:131-144 | A new space whose root shares the kernel half and maps nothing else |
| `Paging.Machine.FreePML4` | kernel/console/terminal.cpp:146-152 | The application's last frame is freed and the kernel's root is in use |
| `Paging.Machine.LoadSegment` | kernel/console/terminal.cpp:93-116 | The segment's pages are present and read-only, new ones zeroed, with the segment's words stored in order and nothing else changed |
| `Paging.Machine.StoreToImage` | kernel/console/terminal.cpp:110-113 | One word of one page of the image changes |
| `Paging.Machine.LoadImage` | kernel/console/terminal.cpp:227-241 | The image's memory is exactly what its segments describe, wherever in the upper half they lie, and it becomes a cached template; no other space changes |
| `Paging.Machine.LoadApp` | kernel/console/terminal.cpp:212-250 | The new space sees the cached image at every page of the upper half, read-only |
| `Paging.Machine.LaunchApp` | kernel/console/terminal.cpp:769-804 | The new application sees its image, and zeroes where stack and argument page are missing in it; the heap is empty and begins at the first page boundary that is not before the end of the image; the file area is empty and ends where the stack begins; writable pages are private if and only if the image maps no page from the beginning of the stack on, and a stack page that it maps is written through |
| `Paging.Machine.SetTask` | kernel/console/terminal.cpp:799-804 | The bounds of heap and file area |
| `Paging.Machine.ExitApp` | kernel/console/terminal.cpp:810-816 | Nothing of the application is left and no other space changes |
| `Paging.Machine.DemandPages` | kernel/app/syscall.cpp:367-377 | Returns the old end of the heap and moves it by 4096 times the number of pages |
| `Paging.Machine.MapFile` | kernel/app/syscall.cpp:379-397 | The region is page-aligned, large enough for the file as it is now with less than a page to spare, and below every region mapped before |
| `Paging.Machine.WriteFile` | kernel/io/fat.cpp:344-388 | A file is written: what is in memory stays, what is loaded from now on is new |
| `Paging.Machine.SwitchTo` | kernel/app/task.cpp:131-138 | The root table of the current task is in use |
| `Paging.Machine.StoreWord` | kernel/memory/paging.cpp:232-241 | A user write, with the faults it takes, changes that word of that page of that application and nothing that any other space sees; it fails only at a page that neither is there nor can come up, or without a free frame |
| `Paging.Machine.ReadWord` | kernel/memory/paging.cpp:243-248 | A user read gives the word the page shows, which is what it showed or what a missing page must come up with; it fails in the same cases only |
| `Paging.Machine.KernelStoreWord` | kernel/memory/paging.cpp:31-33 | A system call's write with the faults it takes: the other spaces see no change if and only if the page was not shared or the word was there already; a shared page changes in the image too |
| `Paging.Machine.IsOwn` | kernel/memory/paging.cpp:204-211 | The page's entry tells whether it is shared: present and not writable |
| `Paging.Machine.Spoils` | kernel/memory/paging.cpp:204-211 | Whether a system call's write would reach others: the page is shared and the word is not there already |
| `Paging.LaunchSeparated` | kernel/console/terminal.cpp:774-793 | Where the condition of LaunchApp comes from: the argument page and the stack set up over a copied image |
| `FlatHistory.FirstWord` | kernel/memory/paging.cpp:232-250 | Over a whole log: a word that is not stored to is what the page held, or what the page came up with at its first touch, or would come up with now |
| `FlatHistory.LastStore` | kernel/memory/paging.cpp:235-241 | The word stored last is the one shown |
| `FlatHistory.LaunchedWord` | kernel/console/terminal.cpp:769-804 | A word not stored to since the launch is the image's, a zero in stack and argument page, or what its page comes up with |
| `FlatHistory.FetchShowsTheSame` | kernel/memory/paging.cpp:243-248 | Reading never changes what is shown |
| `FlatHistory.AreasAreOk` | kernel/app/syscall.cpp:367-397 | Mappings stay page-aligned and disjoint, whatever is mapped or written and however the heap grows |
| `FlatHistory.MappedWord` | kernel/memory/paging.cpp:243-248 | A word of a mapped page, not stored to, is what was there before, a zero if the heap holds the page at its first touch, and else the word that the file held at that touch |
| `FlatHistory.FileSeen` | kernel/memory/paging.cpp:243-248 | The file's word, where it can be told from a zero and from what was there, is seen if and only if nothing was there when the file was mapped and the heap did not hold the page at its first touch |
| `FlatHistory.FileSeenBelow` | kernel/app/syscall.cpp:367-397 | It is seen in particular as long as the heap does not reach the page |
| `FlatHistory.HeapIsFree` | kernel/console/terminal.cpp:799-802 | If the segments end at or before the end of the image, no page of the heap is in the image |
| `FlatHistory.HeapWord` | kernel/console/terminal.cpp:799-802 | So a heap word below the stack that was never stored to is zero |
| `FlatHistory.RegionBelow` | kernel/app/syscall.cpp:379-397 | No page of a mapped file is a stack page or the argument page |
| `AppRuns.AccessStep` | kernel/memory/paging.cpp:232-250 | A read, a write or a system call's write is a change of that application only and agrees with the flat memory, unless it spoils the image, which a system call's write does if and only if the page is shared and the word is not there already; it is refused only without a free frame or at a page that cannot come up |
| `AppRuns.LifeStep` | kernel/console/terminal.cpp:763-817 | A load, a launch, a growth of the heap, a mapping, a write to a file or an exit is such a change |
| `AppRuns.Step` | kernel/console/terminal.cpp:763-817 | Any operation; what it does to the files |
| `AppRuns.Run` | kernel/console/terminal.cpp:763-817 | Over any run in which no system call's write spoils an image, and over any other up to that point: what each application sees is the flat memory of the log, and every read is true to it; spaces that do not act keep all they map and see; if the spaces that acted existed neither before nor after, the allocated frames are exactly those of before |
| `AppRuns.ReadsBack` | kernel/memory/paging.cpp:232-250 | In a run, a word that is read back is the one stored last |
| `AppRuns.ReadsFile` | kernel/memory/paging.cpp:243-248 | In a run, a word read from a mapped file that was not stored to is the one that the file held when its page was first touched, with the two exceptions above |
| `AppRuns.ReadsStart` | kernel/console/terminal.cpp:769-804 | In a run, a word that was never stored to is the image's, a zero or a file's |
| `AppRuns.ReadsHeap` | kernel/console/terminal.cpp:799-802 | In a run, a word of the heap below the stack that was never stored to reads as zero, if the segments of the application's image end at or before the image's end |
| `PagingExamples.StartOne` | kernel/console/terminal.cpp:763-804 | From power-on: an image of one page and an application started from it, with memory to spare |
| `PagingExamples.KernelStoreExample` | kernel/memory/paging.cpp:31-33 | A system call's write to a page that the application has not written changes the cached image |
| `PagingExamples.StackImageExample` | kernel/console/terminal.cpp:782-793 | The image has a segment on a stack page: a store to the stack changes the cached image |
| `PagingExamples.GrownOverExample` | kernel/memory/paging.cpp:243-248 | A file is mapped and the heap grows over it: its first word reads as zero, which it is not |
| `Paging.AllGone` | kernel/console/terminal.cpp:813-816 | When the spaces that acted are gone, every node has the frame it had before |
| `Paging.CopyDone` | kernel/console/terminal.cpp:220-225 | A copied template keeps writable pages private and is a change of the new space only |
| `Paging.LaunchDone` | kernel/console/terminal.cpp:774-793 | Image, argument page and stack do not overlap |
| `Paging.CleanedAll` | kernel/console/terminal.cpp:813-816 | Cleaning from the first upper-half address leaves only the root |
| `Bits.MaskIsLow` | apps/gview/stb_image.h:4055-4055 | Masking with (1 << n) - 1 keeps the low n bits |
| `Bits.BitReverse16Reverses` | apps/gview/stb_image.h:3952-3959 | The four mask stages reverse the low sixteen bits |
| `Bits.BitReverseReverses` | apps/gview/stb_image.h:3961-3967 | Reversing sixteen and shifting reverses the low bits, for every length up to sixteen |
| `Bits.ReversedTwice` | apps/gview/stb_image.h:3961-3967 | Reversal is its own inverse on n bits |
| `Bits.XorOnes` | apps/gview/stb_image.h:4236-4236 | Complementing sixteen bits is subtracting from all ones |
| `BitStream.ByteValue` | apps/gview/stb_image.h:4036-4040 | A byte of the input is the eight bits at its place, zero past the end |
| `BitStream.StreamOr` | apps/gview/stb_image.h:4046-4047 | Adding a byte above the buffered bits continues the stream |
| `BitStream.StreamShr` | apps/gview/stb_image.h:4056-4057 | Shifting bits out moves the position |
| `BitStream.StreamLow` | apps/gview/stb_image.h:4055-4055 | The low bits of the buffer are the next bits of the stream |
| `BitStream.ReversedStream` | apps/gview/stb_image.h:4066-4066 | Reversing the buffered bits gives the code that starts there, first bit highest |
| `PrefixCode.StartsUnique` | apps/gview/stb_image.h:3983-3994 | At most one symbol's code starts a window |
| `PrefixCode.PrefixFree` | apps/gview/stb_image.h:3983-3994 | No canonical code is a prefix of another symbol's |
| `PrefixCode.FitsIsKraft` | apps/gview/stb_image.h:3980-3990 | The builder's per-length test is Kraft's inequality for the whole list |
| `PrefixCode.NthStarts` | apps/gview/stb_image.h:4071-4073 | The symbol at the computed place starts the window |
| `PrefixCode.BelowStays` | apps/gview/stb_image.h:4066-4070 | Once below the limit of a length, a window is below the first code of every longer one, so the search stops at the right length |
| `PrefixCode.SlotUnique` | apps/gview/stb_image.h:3999-4002 | Symbols have distinct places in the sorted table |
| `PrefixCode.SlotInTable` | apps/gview/stb_image.h:3999-4002 | Those places are within the table |
| `Huffman.EntryParts` | apps/gview/stb_image.h:4000-4000 | A fast-table entry gives back the length and the symbol |
| `Huffman.WindowOfCode` | apps/gview/stb_image.h:4004-4008 | A window starts with a code exactly when its low bits are the reversed code |
| `Huffman.FastStep` | apps/gview/stb_image.h:4003-4009 | Entering one more symbol keeps the fast table exact for the symbols so far |
| `Huffman.Table.FillFast` | apps/gview/stb_image.h:4004-4008 | Sets the entry of exactly the nine-bit windows that start with the code |
| `Huffman.Table.CountSizes` | apps/gview/stb_image.h:3975-3979 | How many symbols have each length |
| `Huffman.Table.AssignCodes` | apps/gview/stb_image.h:3980-3995 | Succeeds exactly when every code fits, and then the rows hold the canonical first codes, places and preshifted limits |
| `Huffman.Table.PlaceSymbol` | apps/gview/stb_image.h:3997-4011 | One symbol's code, place and windows |
| `Huffman.Table.PlaceSymbols` | apps/gview/stb_image.h:3996-4012 | The sorted table and the fast table describe the whole code |
| `Huffman.Table.Build` | apps/gview/stb_image.h:3969-4014 | Refuses exactly the lengths whose codes do not fit, and otherwise the tables describe the canonical code |
| `Deflate.CodeAtUnique` | apps/gview/stb_image.h:4079-4091 | At most one symbol stands at a position of the input |
| `Deflate.LengthsTile` | apps/gview/stb_image.h:4112-4118 | The length symbols cover 3 to 258 without gaps or overlaps, the last one apart |
| `Deflate.ExtraBits` | apps/gview/stb_image.h:4112-4124 | After eight length symbols without extra bits each four take one bit more than those before, the last length takes none; after four distance symbols each two take one more |
| `Deflate.EveryLength` | apps/gview/stb_image.h:4112-4118 | Every length from 3 to 257 is given by exactly one symbol and extra value |
| `Deflate.DistancesTile` | apps/gview/stb_image.h:4120-4124 | The distance symbols cover 1 to 32768 without gaps or overlaps |
| `Deflate.EveryDistance` | apps/gview/stb_image.h:4120-4124 | Every distance from 1 to 32768 is given by exactly one symbol and extra value |
| `Deflate.CopyRepeats` | apps/gview/stb_image.h:4157-4163 | Each copied byte is the one dist before it, also when that one was copied itself |
| `Deflate.CopyIsPeriodic` | apps/gview/stb_image.h:4157-4163 | So the copy repeats the last dist bytes |
| `Deflate.CopyStep` | apps/gview/stb_image.h:4162-4162 | A longer copy is a shorter one and one more byte |
| `Deflate.SkipKeeps` | apps/gview/stb_image.h:4162-4162 | A reference of distance zero copies each byte to itself: the bytes are those the memory held |
| `Deflate.ExtendStep` | apps/gview/stb_image.h:4157-4163 | One more byte of either kind of reference |
| `DeflateStream.LengthsAreSmall` | apps/gview/stb_image.h:4188-4211 | Run-length coded code lengths are exactly as many as announced, each at most 15 |
| `DeflateStream.DynamicCodesLegal` | apps/gview/stb_image.h:4168-4215 | Codes that are accepted are legal and fit |
| `DeflateStream.DefaultCounts` | apps/gview/stb_image.h:4259-4274 | How many codes of each length the fixed codes have |
| `DeflateStream.DefaultsFit` | apps/gview/stb_image.h:4303-4306 | The fixed codes are never refused |
| `DeflateStream.DefaultFirst` | apps/gview/stb_image.h:4259-4274 | The fixed code's first codes are those of section 3.2.6 of RFC 1951 |
| `DeflateStream.FixedCodes` | apps/gview/stb_image.h:4259-4270 | The table of section 3.2.6 of RFC 1951: each of the 288 symbols has the length and the code given there |
| `DeflateStream.FixedDistances` | apps/gview/stb_image.h:4271-4274 | The fixed distance codes are the five-bit numbers |
| `DeflateHeaders.ItemsRead` | apps/gview/stb_image.h:4188-4211 | Code lengths written one by one, as repetitions and as runs of zeroes, are read back as they were |
| `DeflateHeaders.SizesRead` | apps/gview/stb_image.h:4170-4186 | The lengths of the code for code lengths are read in the order of section 3.2.7 of RFC 1951: repetitions, zero, then from eight outwards |
| `DeflateHeaders.HeaderRead` | apps/gview/stb_image.h:4168-4215 | The codes that a header was written for are the codes that it is read as |
| `DeflateHeaders.LetterExample` | apps/gview/stb_image.h:4288-4314 | The three bytes 4B 04 00 mean the letter a |
| `DeflateWritten.BlockRead` | apps/gview/stb_image.h:4126-4166 | A text written as literals and back references, in any way and with any two codes, is what its block means |
| `DeflateWritten.PlainRead` | apps/gview/stb_image.h:4217-4244 | So is a text written uncompressed, with its length and the complement |
| `DeflateWritten.StreamRead` | apps/gview/stb_image.h:4276-4314 | A text written in any sequence of blocks of the three kinds is what the stream means |
| `DeflateEnds.NextPastInput` | apps/gview/stb_image.h:4036-4040 | Past the input the same item stands everywhere, read off the two tables |
| `DeflateEnds.PastInputRuns` | apps/gview/stb_image.h:4126-4166 | There a block goes on for ever if and only if that item is a literal or a reference from within the output, distance zero included, and the buffer may grow, or a reference of no bytes |
| `DeflateEnds.HaltsInTime` | apps/gview/stb_image.h:4126-4166 | A block ever ends if and only if it has ended after as many items as input bits and free bytes are left, plus one |
| `DeflateEnds.AlwaysHaltsIff` | apps/gview/stb_image.h:4126-4166 | Every block with these codes ends, on any input and output, if and only if the all-zero window is no code, the end of the block, or a length without a distance |
| `DeflateEnds.AlwaysHaltsInRoomIff` | apps/gview/stb_image.h:4126-4166 | The same for buffers that may not grow: unless it is length symbol 286 or 287 with any distance |
| `DeflateEnds.CutOffExample` | apps/gview/stb_image.h:4036-4040 | A code that a header can carry and with which a block that is cut off never ends |
| `DeflateEnds.NoBytesExample` | apps/gview/stb_image.h:4112-4124 | A code that a header can carry and with which the decoder past its input neither reads nor writes nor ends, in a buffer that may grow and in one without room |
| `DeflateEnds.BlockEnds` | apps/gview/stb_image.h:4126-4166 | With codes for which an all-zero window ends a block, a block ends within as many items as input bits and free bytes are left, plus one |
| `DeflateEnds.FixedEnds` | apps/gview/stb_image.h:4259-4270 | In the fixed code seven zeroes end the block |
| `DeflateEnds.StreamEnds` | apps/gview/stb_image.h:4288-4314 | A stream ends if the codes of the blocks that it reaches end their blocks |
| `DeflateEnds.StreamPastInput` | apps/gview/stb_image.h:4295-4302 | Past the input no block is well-formed |
| `DeflateEnds.StreamHaltsInTime` | apps/gview/stb_image.h:4288-4314 | A stream ever ends if and only if it has ended after a known number of items |
| `DeflateEnds.StreamStalls` | apps/gview/stb_image.h:4288-4314 | A stream whose codes are followed by the end of the input never ends if they stall there |
| `Inflate.Filled` | apps/gview/stb_image.h:4042-4049 | Refilling keeps the buffer equal to the stream at the position, at the input's end too |
| `Inflate.Drained` | apps/gview/stb_image.h:4055-4057 | Taking n bits gives the next n of the stream |
| `Inflate.FastFinds` | apps/gview/stb_image.h:4083-4088 | The fast table finds a symbol exactly when a code of at most nine bits stands here |
| `Inflate.SearchStart` | apps/gview/stb_image.h:4066-4067 | After a miss in the fast table the search may start at ten bits |
| `Inflate.SearchStep` | apps/gview/stb_image.h:4067-4069 | Comparing sixteen reversed bits with a preshifted limit compares the first s bits with the limit |
| `Inflate.SearchEnd` | apps/gview/stb_image.h:4070-4076 | Where the search ends there is no code, or the symbol is in the sorted table at the computed place |
| `Inflate.NoneStarts` | apps/gview/stb_image.h:4070-4070 | At or above the longest limit no code stands here |
| `Inflate.NoneShort` | apps/gview/stb_image.h:4067-4069 | With no short code in the window it is at or above every short limit |
| `Inflate.ZBuf.Get8` | apps/gview/stb_image.h:4036-4040 | The next byte, or zero past the end |
| `Inflate.ZBuf.FillBits` | apps/gview/stb_image.h:4042-4049 | No bit is lost or repeated |
| `Inflate.ZBuf.Receive` | apps/gview/stb_image.h:4051-4059 | The next n bits of the stream as a number |
| `Inflate.ZBuf.HuffmanDecode` | apps/gview/stb_image.h:4079-4091 | The unique symbol whose canonical code stands at the position, with exactly its length consumed; -1 exactly when there is none |
| `Inflate.ZBuf.HuffmanDecodeSlowpath` | apps/gview/stb_image.h:4061-4077 | The same by the search, when no code of at most nine bits stands there |
| `Inflate.ZBuf.Expand` | apps/gview/stb_image.h:4093-4110 | Makes room by doubling and changes no byte already produced; fails exactly when the buffer may not grow |
| `Inflate.DoublingEnds` | apps/gview/stb_image.h:4100-4104 | The doubling reaches what is needed if and only if the buffer is not empty or nothing is needed |
| `Inflate.ZBuf.CopyMatch` | apps/gview/stb_image.h:4157-4163 | Both copying loops append the overlapping copy; at distance zero they leave what the memory held |
| `Inflate.ZBuf.ReceiveMatch` | apps/gview/stb_image.h:4145-4151 | Length and distance of a back reference are the ones the specification reads |
| `Inflate.ZBuf.PutLiteral` | apps/gview/stb_image.h:4133-4137 | Appends one byte, or fails exactly when there is no room and none can be made |
| `Inflate.ZBuf.PutMatch` | apps/gview/stb_image.h:4152-4163 | The same for a back reference of any distance within the output, zero included |
| `Inflate.ZBuf.ParseHuffmanBlock` | apps/gview/stb_image.h:4126-4166 | The output becomes exactly the expansion of a block that ends, by section 3.2.3 of RFC 1951, and the position its end, or the block fails where the specification does |
| `Inflate.ZBuf.ReadCodeLengthSizes` | apps/gview/stb_image.h:4181-4185 | The three-bit lengths in their permuted order |
| `Inflate.ZBuf.ReceiveRun` | apps/gview/stb_image.h:4192-4205 | One run of code lengths |
| `Inflate.ZBuf.ReadCodeLengths` | apps/gview/stb_image.h:4188-4211 | The announced number of code lengths, or failure where the specification fails |
| `Inflate.ZBuf.ReadBlockLengths` | apps/gview/stb_image.h:4168-4211 | Counts, code for code lengths, and all lengths of a dynamic block |
| `Inflate.ZBuf.ComputeHuffmanCodes` | apps/gview/stb_image.h:4168-4215 | Both tables describe the codes the block carries, or it fails exactly when the specification does |
| `Inflate.ZBuf.AlignToByte` | apps/gview/stb_image.h:4221-4222 | Moves to the next byte boundary of the input |
| `Inflate.ZBuf.DrainHeader` | apps/gview/stb_image.h:4223-4233 | The header's four bytes are the next four of the input, whether buffered or not |
| `Inflate.ZBuf.ParseUncompressedBlock` | apps/gview/stb_image.h:4217-4244 | Appends the stored bytes, or fails on a wrong complement, missing input or missing room |
| `Inflate.ZBuf.PrepareTables` | apps/gview/stb_image.h:4303-4309 | Fixed or dynamic codes as tables |
| `Inflate.ZBuf.ParseBlock` | apps/gview/stb_image.h:4298-4311 | One block of any kind does what the specification says |
| `Inflate.ZBuf.ParseBlocks` | apps/gview/stb_image.h:4295-4312 | So does the sequence of blocks up to the final one |
| `Inflate.ZBuf.ParseZlib` | apps/gview/stb_image.h:4288-4314 | So does the stream, after its header if it has one |
| `ZlibDecode.HeaderFields` | apps/gview/stb_image.h:4246-4257 | The header that is accepted, in the fields of RFC 1950: deflate, no dictionary, a multiple of 31 |
| `ZlibDecode.Decode` | apps/gview/stb_image.h:4347-4361 | What the stream means, or failure exactly where it means none; so what was compressed in any way comes back, whatever the first size of the buffer |
| `FatTable.ChainUnique` | kernel/io/fat.cpp:107-113 | There is one chain from a cluster |
| `FatTable.ChainAcyclic` | kernel/io/fat.cpp:107-113 | A terminated chain has no cycle |
| `FatTable.ChainsMerge` | kernel/io/fat.cpp:107-113 | Chains that meet end together, so chains from different ends are disjoint |
| `FatTable.LinkedExtends` | kernel/io/fat.cpp:198-206 | Free clusters linked behind a chain's end make it that chain followed by them |
| `FatTable.LinkedKeeps` | kernel/io/fat.cpp:198-206 | And every other chain stays as it is |
| `FatTable.FreeFromAll` | kernel/io/fat.cpp:198-201 | No free cluster is passed over |
| `FileSystem.Volume.NextCluster` | kernel/io/fat.cpp:107-113 | The chain's next cluster, or the end mark; every entry from 0x0ffffff8 on is one |
| `FileSystem.Volume.LastCluster` | kernel/io/fat.cpp:191-193 | The walk ends at the chain's last cluster |
| `FileSystem.Volume.ExtendCluster` | kernel/io/fat.cpp:189-208 | From any cluster of a chain: the chain grows by the n lowest free clusters, only their entries and the old end's change, the new last cluster is returned |
| `FileSystem.Volume.AllocateClusterChain` | kernel/io/fat.cpp:299-313 | A new chain of the n lowest free clusters, of one at least; no other entry changes |
| `FileBytes.PieceOfCluster` | kernel/io/fat.cpp:328-331 | A piece of a cluster is the piece of the file at its offset |
| `FileBytes.ClusterWritten` | kernel/io/fat.cpp:373-376 | Overwriting a piece of a cluster overwrites that piece of the file and no other byte |
| `FileBytes.NumClusterHolds` | kernel/io/fat.cpp:345-347 | That many clusters hold the bytes |
| `FileBytes.NumClusterStep` | kernel/io/fat.cpp:345-347 | No bytes take no cluster, up to one cluster of bytes takes one, and a full cluster more takes one more |
| `FileGrowth.PutStraight` | kernel/io/fat.cpp:373-378 | Bytes copied to the current cluster follow those written before them in the file |
| `FileGrowth.GrowStraight` | kernel/io/fat.cpp:364-370 | One more cluster continues the file |
| `FileGrowth.GrowStep` | kernel/io/fat.cpp:366-366 | An extension only adds clusters that were free |
| `FileGrowth.PutSkewed` | kernel/io/fat.cpp:373-378 | A skipped cluster is never written afterwards |
| `FileGrowth.SufficesGrow` | kernel/io/fat.cpp:363-371 | Enough clusters stay free for the rest of the write |
| `Files.HalvesJoin` | kernel/io/fat.hpp:72-75 | The two halves of a first cluster's number, as Write stores them, join to that number |
| `Files.FileDescriptor.ReadChunk` | kernel/io/fat.cpp:328-337 | The bytes at the position as far as the cluster goes, and the position moved on |
| `Files.FileDescriptor.Read` | kernel/io/fat.cpp:319-342 | The next len bytes of the file, or those left |
| `Files.FileDescriptor.Load` | kernel/io/fat.cpp:390-403 | The len bytes at an offset, or those left; this descriptor does not move |
| `Files.FileDescriptor.NextWriteCluster` | kernel/io/fat.cpp:363-371 | On to the chain's next cluster, or to the last of the clusters it is extended by |
| `Files.FileDescriptor.PutChunk` | kernel/io/fat.cpp:373-378 | One copy into the current cluster |
| `Files.FileDescriptor.WriteBytes` | kernel/io/fat.cpp:361-379 | The bytes stand in the file where they belong if at most one cluster was missing, and skip a cluster otherwise |
| `Files.FileDescriptor.AllocateFirst` | kernel/io/fat.cpp:353-355 | A new file gets as many clusters as the bytes take, one at least, and its entry names the first |
| `Files.FileDescriptor.StartWriting` | kernel/io/fat.cpp:349-357 | The write position on first use |
| `Files.FileDescriptor.Write` | kernel/io/fat.cpp:344-388 | The file's bytes from the position on become the buffer's and no others change if the file is new or the write ends at most one cluster past its chain; otherwise the next cluster is skipped; the chain only grows, by clusters that were free |
| `Files.WriteEnds` | kernel/io/fat.cpp:361-382 | The two outcomes, seen from before the write |
| `FileSession.OtherFileKept` | kernel/io/fat.cpp:344-388 | Every other file keeps its chain and its bytes |
| `FileSession.GrownTwice` | kernel/io/fat.cpp:344-388 | Growth by one write after another |
| `FileSession.Appended` | kernel/io/fat.cpp:381-382 | A write behind what was written appends to it |
| `FileSession.WriteAll` | kernel/io/fat.cpp:344-388 | Writes through one new descriptor leave the file starting with their concatenation, its size their total |
| `FileSession.ReadAll` | kernel/io/fat.cpp:319-342 | Reads through one new descriptor give the file's bytes in order |
| `FileSession.RoundTrip` | kernel/io/fat.cpp:319-388 | What is read is what was written, however both were cut up, and no other file changes |
| `FileSession.SkippedStays` | kernel/io/fat.cpp:364-370 | The skipped cluster is part of the file and keeps its old bytes, whatever was written |
| `FileSession.SkipExample` | kernel/io/fat.cpp:364-370 | Three bytes written to a file of one one-byte cluster do not read back |
| `RunQueues.SleepQueued` | kernel/app/task.cpp:140-154 | Sleeping takes a task out of its queue; each awake task stays in the queue of its level, once, and in no other |
| `RunQueues.FinishQueued` | kernel/app/task.cpp:213-220 | So does finishing |
| `RunQueues.WakeQueued` | kernel/app/task.cpp:173-183 | Waking puts a sleeping task at the end of a queue and keeps the same |
| `RunQueues.MoveQueued` | kernel/app/task.cpp:252-266 | Changing the level of an awake task keeps the same |
| `RunQueues.WithoutAt` | kernel/app/task.cpp:252-255 | Taking a task out of a queue leaves the others in their order |
| `RunQueues.MovedReplaces` | kernel/app/task.cpp:247-273 | A task that changes level leaves its queue, whose order stays, and goes behind all others of the new level, or before them if it is current; every other queue stays |
| `RunQueues.TurnQueued` | kernel/app/task.cpp:276-281 | A turn of a queue keeps the same |
| `RunQueues.CarryScheduled` | kernel/app/task.cpp:263-272 | The current task takes the current level along, and a higher level left behind is marked |
| `RunQueues.TurnedBy` | kernel/app/task.cpp:276-281 | n turns rotate the queue by n places |
| `RunQueues.EachTakesATurn` | kernel/app/task.cpp:275-297 | In a round every task of the level runs exactly once, in queue order |
| `Scheduler.TaskManager.constructor` | kernel/app/task.cpp:113-124 | The first task is current and the idle task waits at level 0 |
| `Scheduler.TaskManager.NewTask` | kernel/app/task.cpp:126-129 | A new task with a new number, asleep |
| `Scheduler.TaskManager.SwitchTask` | kernel/app/task.cpp:131-138 | The current task goes behind the others of its level; afterwards the current level is the highest non-empty one |
| `Scheduler.TaskManager.SleepTask` | kernel/app/task.cpp:140-154 | The task leaves its queue, whose order stays; if it was current, the highest non-empty level takes over |
| `Scheduler.TaskManager.ChangeLevelOther` | kernel/app/task.cpp:252-260 | A task that is not current goes behind all others of its new level; the current one stays current, and a higher level is marked |
| `Scheduler.TaskManager.Sleep` | kernel/app/task.cpp:156-165 | By number, of any task; fails exactly when there is none; every invariant of the manager is kept |
| `Scheduler.TaskManager.Wake` | kernel/app/task.cpp:167-185 | A sleeping task joins the end of a queue; the current task stays current |
| `Scheduler.TaskManager.Wakeup` | kernel/app/task.cpp:187-196 | By number; fails exactly when there is no such task |
| `Scheduler.TaskManager.SendMessage` | kernel/app/task.cpp:198-207 | The message goes behind the others of that task, which is awake afterwards |
| `Scheduler.TaskManager.ReceiveOrSleep` | kernel/console/terminal.cpp:1133-1139 | Takes the first message, or sleeps exactly when there is none: no wake-up is lost |
| `Scheduler.TaskManager.Finish` | kernel/app/task.cpp:213-230 | The current task is gone, its exit code is kept, and of the tasks asleep waiting for it exactly the one that no other has overtaken is woken |
| `Scheduler.TaskManager.WaitFinish` | kernel/app/task.cpp:232-245 | Takes the exit code if it is there, or sleeps registered as the waiter, overtaking the one registered before |
| `Scheduler.TaskManager.ChangeLevelRunning` | kernel/app/task.cpp:247-273 | The task leaves its queue, whose order stays; it goes behind all others of its new level, or before them if it is current, and then takes the current level along; current level and mark |
| `Scheduler.TaskManager.RotateCurrentRunQueue` | kernel/app/task.cpp:275-297 | After every rotation the current level is the highest non-empty one, and stays if nothing was marked |
| `Scheduler.TaskManager.Ticks` | kernel/app/task.cpp:131-138 | Undisturbed ticks turn the current level's queue |
| `Scheduler.TaskManager.DoOther` | kernel/app/task.cpp:140-207 | What the steps other than Finish and WaitFinish do to messages |
| `Scheduler.TaskManager.DoEnd` | kernel/app/task.cpp:213-230 | Finish as a step |
| `Scheduler.TaskManager.Do` | kernel/app/task.cpp:113-297 | Any allowed step keeps the invariant; which exit codes it gives and takes; a task is overtaken exactly by a second one that waits for the same task |
| `Scheduler.TaskManager.Run` | kernel/app/task.cpp:113-297 | Over any run: the invariant holds and every exit code given is either still kept or was taken once |
| `Scheduler.WaitsSleep` | kernel/app/task.cpp:241-242 | A task asleep in WaitFinish is the registered waiter of a task that has not finished, or was overtaken |
| `Scheduler.WaitsFinish` | kernel/app/task.cpp:222-227 | When a task ends, the waiting tasks that are awake are those that were, and the one that no other has overtaken |
| `Scheduler.WaitsDone` | kernel/app/task.cpp:236-240 | Taking the code ends the wait and no other |
| `Scheduler.CodesKept` | kernel/app/task.cpp:222-240 | Exit codes are conserved by one more step |
| `Scheduler.TwoWaitersExample` | kernel/app/task.cpp:232-245 | Two tasks wait for a third: its end wakes the second, which takes the exit code, and the first sleeps on |
| `PipeStream.SendStep` | kernel/console/terminal.cpp:1163-1168 | A message sent keeps read, left-over and queued bytes equal to the bytes sent |
| `PipeStream.ReceiveStep` | kernel/console/terminal.cpp:1141-1154 | So does taking a message, whole or in part; the end mark comes when everything was read |
| `PipeStream.ClosedDelivered` | kernel/console/terminal.cpp:1145-1148 | A closed pipe has delivered everything but its left-over bytes |
| `PipeStream.ApartKeeps` | kernel/app/task.cpp:66-79 | Steps of the rest of the system leave the pipe's bytes alone |
| `PipeStream.PipeDescriptor.constructor` | kernel/console/terminal.cpp:1116-1117 | An empty pipe to a task |
| `PipeStream.PipeDescriptor.WriteRound` | kernel/console/terminal.cpp:1162-1169 | The next sixteen bytes, or those left, are sent, and the reader is awake |
| `PipeStream.PipeDescriptor.FinishWrite` | kernel/console/terminal.cpp:1173-1179 | The end mark is sent and the reader is awake |
| `PipeStream.PipeDescriptor.ReadLeft` | kernel/console/terminal.cpp:1120-1126 | Left-over bytes come first |
| `PipeStream.PipeDescriptor.ReadMessage` | kernel/console/terminal.cpp:1132-1155 | The next bytes or, at the end mark, none; asleep only with an empty message queue |
| `PipeStream.PipeDescriptor.ReadRound` | kernel/console/terminal.cpp:1119-1156 | What has been read is a prefix of what was sent; a result of zero for a read of some bytes means all of it, and then zero for ever |
| `PipeStream.PipeDescriptor.Elsewhere` | kernel/app/task.cpp:113-297 | Any other step of the system keeps the pipe |
| `PipeStream.Run` | kernel/console/terminal.cpp:1119-1179 | Over every interleaving: the bytes read are a prefix of the bytes written, all of them once the end is read; a blocked reader sleeps only while its queue is empty |
| `ModulePath.ResolveIsProper` | apps/oden/duktape/duk_module_duktape.c:90-170 | Resolving on a stack of components yields proper components, at least one |
| `ModulePath.ResolvedIsStable` | apps/oden/duktape/duk_module_duktape.c:90-170 | A resolved name resolves to itself |
| `ModuleResolver.NameTaken` | apps/oden/duktape/duk_module_duktape.c:90-170 | A resolved name in front of more text puts its components on the stack |
| `ModuleResolver.RelativeRequest` | apps/oden/duktape/duk_module_duktape.c:62-80 | A request that begins with a period means what it means from the place of the current module, without the last component of its name |
| `ModuleResolver.QuuxExample` | apps/oden/duktape/duk_module_duktape.c:70-72 | './quux', required by 'foo/bar', is 'foo/quux' |
| `ModuleResolver.EatSlashes` | apps/oden/duktape/duk_module_duktape.c:161-169 | Repeated slashes are skipped |
| `ModuleResolver.Backtrack` | apps/oden/duktape/duk_module_duktape.c:123-136 | The write cursor goes back over exactly the last component |
| `ModuleResolver.DotTerm` | apps/oden/duktape/duk_module_duktape.c:107-138 | A dot term is skipped, a double dot pops a component, and anything else fails, as on the stack |
| `ModuleResolver.CopyTerm` | apps/oden/duktape/duk_module_duktape.c:142-158 | The term is copied over input already read: the write cursor never passes the read cursor |
| `ModuleResolver.ResolveInPlace` | apps/oden/duktape/duk_module_duktape.c:88-171 | The loop ends, fails exactly when the stack resolver fails, and otherwise leaves its joined components and the last one |
| `ModuleResolver.ResolveModuleId` | apps/oden/duktape/duk_module_duktape.c:31-184 | A request that begins with a period is resolved from the current module's components less the last, if the text fits; any other request, or one without a current module, from nothing; the result is the joined components and the last one |
| `ModuleResolver.TermStep` | apps/oden/duktape/duk_module_duktape.c:142-158 | What a term with more behind it means |
| `Utf8.Following` | apps/tedit/tedit.cpp:116-118 | A following byte is recognised and gives back its six bits |
| `Utf8.Lead2` | apps/tedit/tedit.cpp:115-118 | The lead byte of two is recognised as such and gives back its bits |
| `Utf8.Lead3` | apps/tedit/tedit.cpp:123-128 | The lead byte of three |
| `Utf8.Lead4` | apps/tedit/tedit.cpp:135-143 | The lead byte of four |
| `Utf8.Decodes2` | apps/tedit/tedit.cpp:115-118 | Two encoded bytes decode to their character |
| `Utf8.Decodes3` | apps/tedit/tedit.cpp:123-129 | Three do |
| `Utf8.Decodes4` | apps/tedit/tedit.cpp:135-144 | Four do |
| `Utf8.DecodesEncoded` | apps/tedit/tedit.cpp:162-183 | Wherever an encoded character stands, it decodes to itself and takes exactly its bytes; only a newline begins with the newline byte |
| `Utf8Forms.EncodedForm` | apps/tedit/tedit.cpp:162-183 | What is written for a character has the lead and following bytes of section 4 of RFC 3629 |
| `Utf8Forms.FormEncoded` | apps/tedit/tedit.cpp:162-183 | And whatever has them is what is written for some character |
| `Utf8Decoding.LeadTests` | apps/tedit/tedit.cpp:113-143 | The masks tell the lead bytes of two, three and four by their ranges, and leave the bits behind their tags |
| `Utf8Decoding.TailTest` | apps/tedit/tedit.cpp:117-118 | A following byte is one from 0x80 to 0xbf, and gives its lower six bits |
| `Utf8Decoding.DecodedIs` | apps/tedit/tedit.cpp:113-154 | Any byte takes as many bytes as it calls for; if they are whole they are the number that their bits make, and otherwise each of them is kept, marked by a value past the last code point |
| `TextFile.LoadFile` | apps/tedit/tedit.cpp:95-158 | The lines of the file, undecodable bytes marked; a file that cannot be opened is one empty line |
| `TextFile.SaveLine` | apps/tedit/tedit.cpp:204-217 | The line's encoding is appended; fails exactly on a value past the last code point |
| `TextFile.SaveFile` | apps/tedit/tedit.cpp:185-228 | The file is the lines' encodings with newlines between them; fails exactly on a value past the last code point |
| `TextFile.TextParsed` | apps/tedit/tedit.cpp:107-155 | Lines without newlines load as they were saved |
| `TextFile.TextCount` | apps/tedit/tedit.cpp:107-155 | Each newline character in a line loads as one more line |
| `TextFile.NoNewlines` | apps/tedit/tedit.cpp:108-112 | The count is zero exactly when no line contains a newline |
| `TextFile.TwoLinesExample` | apps/tedit/tedit.cpp:108-112 | Two lines of one letter and the three bytes of their file |
| `TextFile.SavedLoads` | apps/tedit/tedit.cpp:95-228 | Load after save is the identity if and only if there is a line and no line contains a newline |
| `TextFile.SaveAndLoad` | apps/tedit/tedit.cpp:95-228 | The same for the two methods |
| `TextFile.TextJoined` | apps/tedit/tedit.cpp:197-217 | What is saved is the encoding of the lines joined by newlines |
| `TextFile.SplitJoins` | apps/tedit/tedit.cpp:107-112 | Cutting a text at its newlines and joining the lines gives it back, and no line keeps one |
| `TextFile.FormsAreEncodings` | apps/tedit/tedit.cpp:162-183 | Bytes are encodings one behind the other if and only if they are well-formed |
| `TextFile.LoadedSaves` | apps/tedit/tedit.cpp:95-228 | Save after load is the identity if and only if the bytes are well-formed: no stray byte, nothing cut off, overlong or too large |
| `TextFile.LoadedEncodable` | apps/tedit/tedit.cpp:95-228 | What was loaded can be saved if and only if every character was whole and none past the last code point |
| `TextFile.LoadAndSave` | apps/tedit/tedit.cpp:95-228 | The same for the two methods; the save is refused if and only if a byte was marked or a character is too large |
| `PngFilter.PaethIsNearest` | apps/gview/stb_image.h:4464-4473 | The predictor is the neighbour nearest to a + b - c, ties in the order a, b, c |
| `PngFilter.UnfilterUndoes` | apps/gview/stb_image.h:4557-4573 | Undoing any of the five filters gives the scanline back |
| `PngFilter.FilterUndoes` | apps/gview/stb_image.h:4557-4573 | And filtering it again gives the filtered bytes |
| `PngFilter.UnfilteredAt` | apps/gview/stb_image.h:4565-4568 | Each byte is its filtered byte plus what its neighbours predict |
| `PngFilter.FirstRowIsZeroPrior` | apps/gview/stb_image.h:4455-4462 | The special filters of the first row are the general ones below a row of zeroes |
| `PngFilter.FilterAdds` | apps/gview/stb_image.h:4557-4573 | What each filter of section 6 of RFC 2083 adds to a byte, modulo 256: the byte one pixel left; the byte above; half their sum, rounded down; the nearest of left, above and above left to left + above - above left, ties in that order; nothing |
| `PngRows.PlaceByte` | apps/gview/stb_image.h:4523-4570 | A byte put at its strided place extends the scanline and disturbs none of it |
| `PngRows.NotAlpha` | apps/gview/stb_image.h:4578-4587 | Alpha bytes are at no place of a colour byte |
| `PngRows.DecodeByte` | apps/gview/stb_image.h:4524-4534 | One byte in place, from its neighbours in the buffer |
| `PngRows.DecodeBytes` | apps/gview/stb_image.h:4557-4573 | Bytes that stand together |
| `PngRows.SetAlpha` | apps/gview/stb_image.h:4536-4546 | One alpha byte, leaving the scanline as it is |
| `PngRows.DecodePixels` | apps/gview/stb_image.h:4574-4589 | The pixels after the first, with their alpha |
| `PngRows.SetSecondAlpha` | apps/gview/stb_image.h:4591-4598 | The low bytes of 16-bit alpha |
| `PngRows.DecodeRow` | apps/gview/stb_image.h:4504-4599 | The row's colour bytes are the unfiltered scanline, its alpha bytes 255, and no other byte changes |
| `PngImage.DecodeImageRow` | apps/gview/stb_image.h:4504-4600 | Row j from the raw bytes and the row above it |
| `PngImage.CreateImage` | apps/gview/stb_image.h:4478-4600 | Succeeds exactly when there are enough bytes and every filter is known, and then every row stands in the output |
| `PngImage.DecodesEncoded` | apps/gview/stb_image.h:4504-4600 | Rows filtered by any choice of filters come back as they were |
| `PngImage.RowAdds` | apps/gview/stb_image.h:4504-4573 | The same for every byte of every row of an image |
| `Adam7.PassSizeCounts` | apps/gview/stb_image.h:4708-4709 | The size formula counts exactly the places of a pass along an axis |
| `Adam7.OnePlace` | apps/gview/stb_image.h:4702-4719 | Every pixel is one place of one pass |
| `Adam7.PassIsPattern` | apps/gview/stb_image.h:4702-4705 | A pixel is in a pass exactly when the eight by eight pattern of section 2.6 of RFC 2083 says so |
| `Adam7.PlaceWithin` | apps/gview/stb_image.h:4708-4719 | A place is within its pass exactly when the pixel is within the image |
| `Adam7.RowIsShared` | apps/gview/stb_image.h:4701-4709 | The passes share out each row completely |
| `Adam7.PassesAddUp` | apps/gview/stb_image.h:4701-4709 | The pass sizes add up to the image |
| `Adam7.PlaceStep` | apps/gview/stb_image.h:4716-4722 | Copying one pixel of a pass writes its place and no place written before |
| `Adam7.PlacePass` | apps/gview/stb_image.h:4716-4723 | After it, every pixel of this pass and the passes before it holds its own pixel of its own pass |
| `PngInterlaced.PixelDecoded` | apps/gview/stb_image.h:4719-4721 | The bytes copied for a pixel are those of its place in its scanline, then alpha |
| `PngInterlaced.CreateInterlaced` | apps/gview/stb_image.h:4690-4732 | Fails exactly when bytes or a known filter of a pass are missing; else every pixel is read from its own scanline of its own pass |
| `PngInterlaced.InterlacedGood` | apps/gview/stb_image.h:4710-4715 | The bytes of an image filtered in any way are all there |
| `PngInterlaced.InterlacedUndoes` | apps/gview/stb_image.h:4690-4732 | And a pixel read from them is the one of the image |
| `PngInterlaced.RoundTrip` | apps/gview/stb_image.h:4690-4732 | Any image of any size, its rows filtered in any way, comes back pixel by pixel |
| `PngFile.LoadInterlaced` | apps/gview/stb_image.h:4988-5004 | An interlaced image whose passes were filtered in any way and compressed in any way comes back pixel by pixel |
| `PngFile.LoadPlain` | apps/gview/stb_image.h:4988-5004 | So does an image without interlacing, row by row, with its alpha |
| `Rectangles.IntersectIsCommon` | kernel/graphic/graphics.hpp:75-87 | The intersection holds exactly the common points, whether or not the rectangles meet |
| `FrameBuffers.CopyAreaIs` | kernel/io/frame_buffer.cpp:70-74 | The clipped area is exactly what is in the target, the source and the area asked for |
| `FrameBuffers.FrameBuffer.Copy` | kernel/io/frame_buffer.cpp:59-86 | Exactly those pixels are copied, shifted, and all others stay, at any strides |
| `FrameBuffers.FrameBuffer.MoveLine` | kernel/io/frame_buffer.cpp:96-115 | One line moved, also onto itself |
| `FrameBuffers.FrameBuffer.Move` | kernel/io/frame_buffer.cpp:88-118 | Every pixel of the target is the pixel the source had before, even when they overlap, and the others stay |
| `Layers.DrawnInside` | kernel/graphic/layer.cpp:84-89 | Inside the area, drawing the layers in order shows the topmost colour |
| `Layers.DrawnOutside` | kernel/app/window.cpp:72-85 | Outside it, transparent layers on top that ignore the area can only show what is already right |
| `Layers.TransparentDrawn` | kernel/app/window.cpp:72-85 | A transparent layer's colours are right wherever the area is |
| `Layers.BackgroundCovers` | kernel/graphic/layer.cpp:277-287 | With the background at the bottom every point has a colour |
| `Layers.DrawRestores` | kernel/graphic/layer.cpp:95-113 | Drawing from the changed layer up, clipped to the area, equals painting everything anew |
| `Layers.MovedOnce` | kernel/graphic/layer.cpp:115-122 | After the first of a move's two redraws only the new place can be wrong, whatever the old one showed |
| `Layers.RemovedOnce` | kernel/graphic/layer.cpp:324-325 | Redrawing a removed layer's place makes everything right |
| `Layers.ReorderedElsewhere` | kernel/graphic/layer.cpp:154-155 | A layer put elsewhere in the stack changes no point that it does not cover |
| `Compositor.DrawLayerTo` | kernel/app/window.cpp:64-86 | An opaque window is drawn within the area, a transparent one everywhere but in its transparent colour |
| `Compositor.LayerManager.constructor` | kernel/graphic/layer.cpp:62-68 | No layers, and a back buffer of the screen's size |
| `Compositor.LayerManager.DrawFrom` | kernel/graphic/layer.cpp:85-87 | The layers from a height up are drawn in order |
| `Compositor.LayerManager.DrawArea` | kernel/graphic/layer.cpp:84-89 | All layers in an area, and the area shown on the screen |
| `Compositor.LayerManager.DrawLayer` | kernel/graphic/layer.cpp:95-113 | A layer and those above it in its window's area, and that area shown on the screen |
| `Compositor.LayerManager.Repaint` | kernel/graphic/layer.cpp:95-113 | After an opaque window changes inside an area and that area is drawn, back buffer and screen are again what painting every layer anew gives |
| `Compositor.LayerManager.Move` | kernel/graphic/layer.cpp:115-131 | After a move back buffer and screen are right everywhere, even if the layer was not drawn before |
| `Compositor.LayerManager.GetHeight` | kernel/graphic/layer.cpp:198-205 | The height of a layer, or -1 |
| `Compositor.LayerManager.UpDown` | kernel/graphic/layer.cpp:133-156 | The stack with the layer at that height among the others, or without it for a negative height |
| `Compositor.LayerManager.Hide` | kernel/graphic/layer.cpp:158-164 | The stack without the layer |
| `Compositor.RepaintRight` | kernel/graphic/layer.cpp:95-113 | Incremental redraw after a repaint equals full redraw |
| `ActiveLayers.TwoStepsRaise` | kernel/graphic/layer.cpp:247-248 | To the bottom, then to the mouse's height less one, is to just below the mouse |
| `ActiveLayers.TwoStepsInsert` | kernel/graphic/layer.cpp:247-248 | So it is for a window that was not shown |
| `ActiveLayers.RaisedRight` | kernel/graphic/layer.cpp:246-249 | Raising a repainted window and drawing it and what is above it equals full redraw |
| `ActiveLayers.InsertedRight` | kernel/graphic/layer.cpp:246-249 | So does putting a new window below the mouse and drawing it and what is above it |
| `ActiveLayers.RaiseRight` | kernel/graphic/layer.cpp:243-251 | Both, for any window that may become active |
| `ActiveLayers.ActiveLayer.Activate` | kernel/graphic/layer.cpp:231-252 | Activation keeps the screen coherent and puts the window, shown or not, just below the mouse; the window that was active shows its inactive look, this one its active look, and no other layer changes |
| `ActiveLayers.ActiveLayer.Raise` | kernel/graphic/layer.cpp:243-251 | The newly active window's part of it |
| `ActiveLayers.ActiveLayer.CloseLayer` | kernel/graphic/layer.cpp:313-330 | Closing removes the layer, shown or not, and keeps the screen coherent; the window that was active shows its inactive look, and no other layer changes; fails exactly when there is no such layer |
| `ActiveLayers.ActiveLayer.Open` | kernel/app/syscall.cpp:69-88 | A new window is a layer at its place, active and with its active look, just below the mouse; the one that was active shows its inactive look, no other layer changes, and the screen is coherent |
| `ActiveLayers.Painted` | kernel/io/frame_buffer.cpp:59-86 | Within the area, as far as the paint reaches, the window shows the paint, and elsewhere what it showed before |
| `ActiveLayers.ActiveLayer.Remove` | kernel/graphic/layer.cpp:324-325 | The removal and the redraw of its place |
| `ActiveLayers.ActiveLayer.Do` | kernel/graphic/layer.cpp:295-330 | Any step of the window system keeps the screen coherent; what it makes of the stack, of every layer (place, picture) and of the active window |
| `ActiveLayers.ActiveLayer.Run` | kernel/graphic/layer.cpp:295-330 | So over any run: back buffer and screen equal painter-order composition of the stack |
| `Desktop.InitializeLayer` | kernel/graphic/layer.cpp:257-290 | Background and console, and everything drawn: the screen is coherent |
| `Desktop.InitializeMouse` | kernel/io/mouse.cpp:173-193 | The mouse is the top layer, and the screen coherent but where it is |
| `Desktop.StartDesktop` | kernel/main.cpp:139-152 | From the first move of the mouse on, the window system is ready for any run |

## Left out

- Hardware: the TLB, the accessed and dirty bits, interrupt entry and the saved registers. A context switch is a change of the current task, and the regions between `cli` and `sti` are atomic.
- The kernel half of the address space: huge pages of the identity map, and faults there.
- Paging.Machine.LoadImage: file contents of a segment are given as stores of whole words, in order, in place of memcpy and memset of bytes; segments must lie in the upper half, because the lower half is the kernel's. ELF header checks are left out.
- Paging.Machine.LaunchApp: the argument vector that ExecuteFile writes into the argument page is left out, and the image's end is a parameter; when memory runs out, the partly built space stays, as it does in the code.
- Paging.Machine.MapFile: the file must not be larger than the file area's end; a size the code would wrap around with is left out. Addresses are their low 48 bits.
- Paging.Machine.PreparePageCache: loading from past the file's end is left out, as in Files.FileDescriptor.Load; a run therefore refuses to make a file shorter that is mapped.
- Paging.Machine.CleanPageMap: the lower parts of the address must be zero, because the same parts are used again in every subtree; the only call has them zero.
- AppRuns.Run: images lie below the stack, where LaunchApp says they must; about what is seen after a system call has spoiled an image nothing is said.
- Paging.Machine.HandlePageFault: what a task knows about its memory is a value in a map of the machine, and each space is labelled as a template or an application of a template; aliasing of task objects is not captured.
- MemoryManager.BitmapMemoryManager.Free: frames outside the bitmap are excluded, where the code would leave its array. Stat, which counts whole words only, and the walk over the boot memory map are left out.
- MemoryManager.BitmapMemoryManager.MarkAllocated: the same frames are excluded.
- MemoryManager.BitmapMemoryManager.SetMemoryRange: the range ends within the bitmap.
- Inflate.ZBuf.ParseHuffmanBlock: the specification runs for n items, and the caller names an n within which the block ends; DeflateEnds says exactly when such an n exists, and which one suffices. What memory holds before it is written is a parameter, place by place. Failing memory allocation and sizes beyond an int are left out, and the reasons of failures are not told apart.
- Inflate.ZBuf.ParseBlock: the same n; so it is for ParseBlocks and ParseZlib.
- Inflate.ZBuf.Expand: doubling is on unbounded numbers. An empty buffer that may grow is left out where bytes are produced, because the doubling never ends (Inflate.DoublingEnds); so it is from Deflate.Block, whose growing buffers are not empty.
- ZlibDecode.Decode: a first buffer of no bytes is left out, because its doubling never ends; so is failing memory allocation. The same n as above.
- PngImage.CreateImage: depths below eight bits, the byte order of 16-bit samples, and failing allocation are left out, in PngImage.DecodeImageRow and PngRows.DecodeRow as well. The loops that switch on the filter once per row are one loop that switches per byte.
- PngInterlaced.CreateInterlaced: the same depths; the image is an array of pixels in place of their bytes.
- PngFile.LoadInterlaced: the chunks of a file are not read here, and whether the stream has a header is a parameter in place of the iPhone flag; palettes, transparency and the steps after the image is made are left out, and so in LoadPlain.
- Files.FileDescriptor.Write: enough clusters must be free, because running out of them is not handled by the code, and so for WriteBytes, StartWriting, AllocateFirst and NextWriteCluster; the second copy of the table, time stamps, directory entries and names are left out. The file size is modulo 2^32 as stored.
- FileSystem.Volume.ExtendCluster: n clusters must be free; the code would search on past the table.
- FileSystem.Volume.AllocateClusterChain: the same.
- Files.FileDescriptor.Load: an offset past the end of the file is left out, as is reading while the file grows.
- FileSession.WriteAll: there is a write; the number of free clusters asked for is a bound that suffices, not the least one.
- Scheduler.TaskManager.WaitFinish: a task that waits for another goes on waiting for that one until it has its exit code. The idle task neither sleeps nor waits. Three model fields record in which loop a suspended task stands and which waiters were overtaken.
- Scheduler.TaskManager.Sleep: a task that is awake in WaitFinish is not put to sleep by another one; no part of the system does so.
- PipeStream.Run: there is one reader and one writer.
- Compositor.LayerManager.DrawLayer: the area must have both sizes negative or neither, because the code redraws a rectangle of negative extent otherwise; the layer must be in the stack, because the code copies an uninitialised area otherwise. The background is not moved. Conversions of pixel formats are left out, and a window's pixels are held once, not in a shadow buffer as well.
- Compositor.LayerManager.UpDown: positions in the stack are numbers in place of vector iterators.
- ActiveLayers.ActiveLayer.Activate: what windows paint when they become active or inactive is a parameter; the messages sent to their tasks are left out.
- ActiveLayers.ActiveLayer.Do: windows are opaque, and the mouse and the background stay in their places.
- Desktop.InitializeMouse: the redraws of setting the mouse's first position are left out; the layer is not in the stack yet.
- TextFile.SaveFile: failures of the file system are left out.
- ModuleResolver.ResolveModuleId: names are C strings, without zero bytes.
- The boot loader, ACPI, PCI and USB, device drivers, fonts, the applications' user interfaces, the other image formats of gview, and the scripting engine around the module resolver.
