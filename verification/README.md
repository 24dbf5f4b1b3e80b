# BursztynOS in Dafny

BursztynOS is an x86-64 kernel with Ring 3 applications. This project models the parts of it that keep state with
real invariants, and proves what they keep.

* **The BSP2 file system** (`Bsp*.dfy`). A RAM image of typed blocks (superblock, bitmap, index nodes, directory and
  data blocks) with a disk image of the same shape, a list of blocks still to be written, an allocator for nodes and one
  for blocks, directories stored in data blocks, the path resolver, create, write, read, delete, rename, move, recursive
  copy, the formatter, and the mount with its metadata check. `Store` is the global state of `psf.cpp`, updated in
  place; its ghost fields `mem` and `shape` say which memory the image holds and why it is a tree. A user's view is
  `Contents()`, a map from paths to directories and file bytes, and every call is specified on that map. The number of
  blocks is arbitrary; the pointers per node, the entries per block, the depth limit of a copy and the length of the list
  are those of the source.
* **The kernel heap** (`Heap.dfy`). First fit over a doubly linked list of headers in memory, splitting and joining on
  both sides. The list refines a sequence of blocks on which whole runs of calls are studied.
* **Physical frames** (`PmmBits.dfy`, `Pmm.dfy`, `PmmBoot.dfy`, `PmmInfo.dfy`). Packed bitmaps as sets of frames, next
  fit, runs of frames, and the set-up from a Multiboot2 memory map, for any map a boot loader lays out.
* **The text editor's document** (`NoteText.dfy`, `Notepad.dfy`, `NoteRows.dfy`, `NoteScreen.dfy`, `NoteFiles.dfy`). One
  byte buffer with NUL separators, edited in place, refined to a list of lines with a cursor; soft-wrapped rows for any
  glyph widths; saving and opening in the same buffer.
* **Two rings, step by step** (`KeyboardRing.dfy`, `ReceiveRing.dfy`). The lock-free keyboard ring over every
  interleaving of single loads and stores, and the E1000 receive ring against a card that completes its descriptors,
  or scribbles in them, whenever it likes.
* **The .bur loader** (`BurLoader.dfy`) and **the calculator** (`Calculator.dfy`).

`LittleEndian.dfy` holds the fields of the two binary formats, as they are written and as they are read. Contracts of the
main calls state limits and formats in plain numbers.

The names of the original functions are given in backquotes beside the methods that model them. A reader may start at
`BspRuns.dfy`, whose `Session` starts the machine on any medium and makes any sequence of calls, and `Restart`, which
mounts what was written again. Which transfers a medium serves is part of a `Store` (`medium`), so whether a write or a
mount succeeds is determined before it begins.

Where the code falls short of what its comments promise, the exact condition is proved, and a concrete case is shown:

* The mount check does not make an image a file system. `BspTidy.WhenATree` says exactly when an accepted memory is one,
  `BspMount.Mount` what that means for any image, and `BspMount.MountsSharedNode` mounts a medium of ten blocks on which
  one node has two entries.
* A typed character can be cut at the 64 KiB limit, although notatnik.cpp:727-733 speaks of the whole character:
  `Notepad.WholeOrNothing` says exactly when it is not, `Notepad.LimitCutsLetter` shows a document one byte short.
* The up key does not always leave its row: `NoteScreen.Screen.Up` says exactly when, from where the cursor stands;
  `NoteScreen.UpStays` shows lines of letters that fill two rows, in a view of any width.
* In RAM-only mode a committed write is reported as failed: `BspFiles.Write`.

## Model

| member | source | states |
|---|---|---|
| `BspPaths.CheckPath` | psf.cpp:1333-1388 | A path is accepted exactly when it is absolute, below 512 bytes and has no empty segment (canonical), `/` included. |
| `BspPaths.JoinSplit` | psf.cpp:1756-1815 | Joining the segments of any string with slashes gives the string back. |
| `BspPaths.SplitCut` | psf.cpp:1756-1815 | Cutting a string at a slash cuts its list of segments there. |
| `BspPaths.PathOfInjective` | psf.cpp:1333-1388 | Two accepted paths with the same segments are the same string. |
| `BspPaths.PathWritten` | psf.cpp:1333-1388 | For any names, none empty and none with a NUL or a slash, the accepted path that leads along them is the string of a slash before each, if that is below 512 bytes, and there is no other. |
| `BspPaths.PrefixTest` | psf.cpp:4246-4253 | The byte loop answers whether the folder string is the path itself or the path followed by a slash. |
| `BspPaths.BytePrefixIsPathPrefix` | psf.cpp:4246-4253 | On accepted paths that byte test holds exactly when the folder's segments begin with the path's segments. |
| `BspForest.OneParent` | psf.cpp:1597-1750 | In a forest two entries never lead to the same node. |
| `BspForest.Attach` | psf.cpp:1597-1750 | Entering a root that is not the directory's own root leaves a forest, with every node below it one place further down. |
| `BspForest.Detach` | psf.cpp:3787-3981 | Taking an entry away leaves a forest in which the node and all below it are a tree of their own, and the directory is not in it. |
| `BspStore.Store.MarkBlock` | psf.cpp:441-477 | A written block is marked once; on the 257th different block the whole system is marked instead, so no change is ever forgotten. |
| `BspStore.Store.SetUsed` | psf.cpp:954-994 | Exactly one bit of the stored bitmap changes, and its block is marked. |
| `BspStore.Store.AllocBlock` | psf.cpp:996-1086 | Next fit from the hint with one wrap: the first free block in that order, zeroed; it fails only when no block is free. |
| `BspStore.Store.FreeBlock` | psf.cpp:1088-1150 | A used block is zeroed and released; a free or foreign number changes nothing. |
| `BspStore.Store.AllocNode` | psf.cpp:1197-1227 | The lowest free node, cleared; it fails only when no node is free. |
| `BspStore.Store.FreeNode` | psf.cpp:1229-1251 | A live node is cleared, anything else is refused. |
| `BspStore.Store.WriteAll` | psf.cpp:479-518 | Succeeds exactly when the medium serves every transfer it makes, and then the whole image is on disk; a transfer that fails may leave anything in its own sectors. |
| `BspStore.Store.WriteListed` | psf.cpp:608-651 | Succeeds exactly when the medium serves every transfer it makes, and then every listed block is on disk; blocks not listed are not touched even when it fails. |
| `BspStore.Store.Flush` | psf.cpp:561-660 | Succeeds exactly when the medium is attached, may be written and serves every transfer, and then disk and RAM are equal and nothing is marked; failure keeps every unwritten block marked; blocks not marked are never touched. |
| `BspDirectory.FindEntry` | psf.cpp:1459-1540 | A found slot holds the name in a directory; not found means a bad name, no directory, a bad pointer, or a name that is not listed. |
| `BspDirectory.FoundIffNamed` | psf.cpp:1459-1540 | In a directory in order, each name is listed in exactly one slot. |
| `BspDirectory.DirEmpty` | psf.cpp:1542-1595 | True exactly for a directory whose pointers are in range and none of whose slots is taken. |
| `BspDirectory.AddEntry` | psf.cpp:1597-1750 | All or nothing: the entry goes into the first free slot in slot order, in a new block if it must, or the memory is unchanged and one of the source's reasons holds. |
| `BspDirectory.AddedStruct` | psf.cpp:1597-1750 | An added entry gives a directory with one name more, and leaves all other nodes, blocks and owners in order. |
| `BspDirectory.NextSegment` | psf.cpp:1756-1815 | Returns the next segment of the path exactly when it is a valid name, and where the rest begins. |
| `BspDirectory.Resolve` | psf.cpp:1817-1931 | The resolver returns the node at the end of the walk along the path's segments, or its parent and last name, and 0 otherwise. |
| `BspApi.Create` | psf.cpp:2707-2796 | Succeeds exactly when the path is new in an existing directory, its name has 1 to 55 bytes, none of them a control character or a slash of either kind, and is not `.` or `..`, and there is a node and room; then the tree gains that one empty directory or empty file, and if the write-through succeeded nothing is left to write; a refused call changes neither memory nor disk. |
| `BspApi.Remove` | psf.cpp:3787-3981 | Succeeds exactly for a file or an empty directory other than the root; then exactly that path disappears and its blocks and node are free. |
| `BspApi.Rename` | psf.cpp:4066-4172 | Succeeds exactly when the object exists and the new name is valid and not taken; then the whole subtree is found under the new name. |
| `BspApi.Move` | psf.cpp:4215-4278 | Succeeds exactly when the folder exists elsewhere, lies outside the object, has room and no such name; then the subtree is relocated unchanged. |
| `BspApi.InsideIffPrefix` | psf.cpp:4246-4253 | A node lies in the subtree of another exactly when its path extends the other's. |
| `BspFiles.CheckNodePtrs` | psf.cpp:2084-2149 | True exactly when every pointer of the node names a used data block and no block twice. |
| `BspFiles.CheckPtrs` | psf.cpp:2802-2850 | The same for a node that is a file. |
| `BspFiles.Reserve` | psf.cpp:3206-3265 | All missing blocks are taken, or none: it fails exactly when there are too few free blocks, and then the memory is as before. |
| `BspFiles.Write` | psf.cpp:3137-3386 | The file is replaced exactly when it exists, the data are at most 490 times 4096 bytes and the missing blocks are free; no other item changes; the answer is true exactly when besides the medium is attached, may be written and serves every transfer. |
| `BspFiles.Read` | psf.cpp:3392-3497 | Delivers the first bytes of the file up to the limit and leaves the rest of the buffer alone. |
| `BspFiles.LoadFile` | psf.cpp:3503-3623 | Delivers the whole file to the loader exactly when it is not empty and has at most 512 KiB. |
| `BspFiles.FileOnDisk` | psf.cpp:3392-3497 | Byte y of a file is byte y mod 4096 of the data block that pointer y / 4096 of its node leads to, in the RAM image itself, and the bit of that block is set. |
| `BspFiles.EntryOnDisk` | psf.cpp:1459-1540 | The name of every object stands with its node number in one of the 64 slots of a data block its folder points to, in the RAM image itself. |
| `BspPurge.FreeCopy` | psf.cpp:2856-2887 | Frees exactly the nodes of an unpublished subtree and the blocks they own, and nothing else. |
| `BspExtend.ExtendsTree` | psf.cpp:2889-2960 | Trees that were there before look the same while a copy grows beside them. |
| `BspExtend.Restored` | psf.cpp:2856-2887 | Freeing exactly what was added gives back the very same nodes, bitmap and blocks. |
| `BspCost.InsideHolds` | psf.cpp:2889-2960 | The part of a tree at or below a path is a finite set of paths. |
| `BspCost.CostCounts` | psf.cpp:2889-2960 | Counted on the tree alone: the depth limit allows a copy exactly when no path of it is more than 31 names below its top; it takes a node for each path, a block for each 4096 bytes begun of a file, and a block for each 64 children begun of a folder. |
| `BspCost.RoomCounts` | psf.cpp:1597-1750 | A folder takes another entry exactly when it has fewer children than 64 for each block it holds, or when it holds fewer than 490 and a block is free. |
| `BspClone.CloneFile` | psf.cpp:2889-2931 | A file's copy has its bytes in blocks of its own; it fails exactly when the blocks do not suffice, and then the memory is as before. |
| `BspCopy.Clone` | psf.cpp:2889-2960 | The recursion ends with a tree equal to the source's beside an unchanged file system exactly when nodes, blocks and the depth limit suffice, else with the memory as before. |
| `BspCopy.Copy` | psf.cpp:4280-4318 | Succeeds exactly when the level is at most 5, object and folder exist, the folder lies outside the object and has no such name, no path of the object is more than 31 names below it, there is a free node for each of its paths and a free block for each 4096 bytes and each 64 entries begun, and the folder takes one entry more; then the tree gains an equal subtree, else nodes, entries and bitmap are exactly as before. |
| `BspCopy.RoomIs` | psf.cpp:2889-2960 | What the recursion spends, slot by slot, is what the paths of the tree cost. |
| `BspFormat.CheckGeometry` | psf.cpp:1951-2078 | Accepts exactly the geometries of at least ten blocks of 4096 bytes in order, with 32768 bits to a bitmap block, and computes the counts of nodes and data blocks. |
| `BspFormat.LayoutAccepted` | psf.cpp:2418-2483 | Every layout the formatter can produce is accepted by the mount's geometry check; its bitmap is the smallest with a bit for every block, and its nodes are a quarter of what is left, at least one. |
| `BspFormat.Format` | psf.cpp:2381-2577 | From ten blocks on it leaves a sound file system that is one empty directory; with writing on it is on disk exactly when the medium serves every transfer. |
| `BspValidate.ValidateDir` | psf.cpp:2151-2277 | True exactly when every taken slot has a valid name used once, a live node named once in that directory, and the count is right. |
| `BspValidate.ValidateFile` | psf.cpp:2279-2375 | True exactly when the pointers are sane and as many as the size asks for, from the first on. |
| `BspValidate.ValidateMetadata` | psf.cpp:2279-2375 | True exactly when every live node passes its check and the root is a directory. |
| `BspValidate.NamesCounted` | psf.cpp:2151-2277 | The entry count of a sound directory is the number of its taken slots. |
| `BspValidate.RootedPasses` | psf.cpp:2279-2375 | The check returns true in every sound state, so in every state the calls can reach. |
| `BspValidate.AcceptsSharedNode` | psf.cpp:2279-2375 | A concrete memory with one node under two names passes the check, and no tree explains it. |
| `BspMount.HeldDecodes` | psf.cpp:2583-2701 | An image that holds a memory decodes to that memory. |
| `BspMount.SavedMountable` | psf.cpp:2583-2701 | Whatever a sound file system has written is accepted by the mount and decodes to the same memory. |
| `BspMount.SavedTidy` | psf.cpp:2583-2701 | What a sound file system has written is mounted as the same memory and is a file system again. |
| `BspMount.MountsSharedNode` | psf.cpp:2583-2701 | A medium of ten blocks on which one node has two entries is mounted, although no tree has its memory. |
| `BspMount.Mount` | psf.cpp:2583-2701 | Mounts exactly when the medium serves every read and what it holds passes every check; the mounted state is a file system exactly when its memory is tidy and clear, whoever wrote it; a damaged file system is never offered for writing, a blank medium is. |
| `BspMount.Init` | psf.cpp:2968-3081 | Start-up never writes to a damaged or mounted medium and formats otherwise; it goes on with the medium exactly when that serves every read and passes the checks, and writing is on exactly when it was blank or mounted. |
| `BspRuns.Perform` | psf.cpp:2707-4318 | Each of create, write, delete, rename, move and copy is carried out exactly when the tree allows it, in terms of names, paths and sizes alone, and there is space, and has exactly its effect on the tree; refused, it changes neither memory nor disk. |
| `BspRuns.Run` | psf.cpp:2707-4318 | After any sequence of calls, refused ones included, the tree is what the effects say step by step, and the state is tidy. |
| `BspTidy.RootedTidy` | psf.cpp:996-1251 | Without any bookkeeping: each live node but the root has exactly one entry and is reached from the root, and a bit is set exactly when one pointer of one live node holds the block. |
| `BspTidy.WhenATree` | psf.cpp:2279-2375 | A memory is a file system exactly when the mount check accepts it, it is tidy, what is not in use is cleared, and files and directories keep nothing beyond their sizes; the tree is then built from the memory alone. |
| `BspTidy.CheckMeans` | psf.cpp:2084-2375 | What the mount check accepts: the root is a directory, pointers lead to used blocks and no two of a node to the same, files have a pointer for every 4096 bytes begun, and the taken slots of a directory are a list of as many names as its size says, each well formed, once, and for another live node. |
| `BspTidy.OneShape` | psf.cpp:2279-2375 | One memory never shows two different trees: owners, directories and places are determined by it. |
| `BspRuns.Session` | psf.cpp:2381-4318 | From the start of the machine on any medium that is blank, unreadable, damaged or holds a file system, and for every sequence of calls, the file system stays a tidy tree with the contents of the trace, which begins with the empty tree or the one on the medium. |
| `BspRuns.Restart` | psf.cpp:561-3081 | The write-through succeeds exactly when writing is on and the medium serves it; a new start on the same medium that is served every read then shows the same memory, tree and contents, and on a medium that serves everything this is sure. |
| `Heap.CheckList` | heap.cpp:245-332 | True exactly when the range is in order and some sequence of blocks tiles the heap with the headers in memory linked as it says. |
| `Heap.Heap.Init` | heap.cpp:484-586 | A heap is set up exactly when the area, cut to multiples of 16, holds 64 bytes; it is then one free block of all but 48 of its bytes. |
| `Heap.Heap.Kmalloc` | heap.cpp:592-734 | Returns the data of the lowest free block of at least the size asked for, and 0 exactly when there is none; the block is cut to the least multiple of 16 that is at least 16 and at least the size when 64 bytes are left over, else taken whole. |
| `Heap.Heap.Kfree` | heap.cpp:740-823 | The live block whose data start at the pointer becomes one free block with the free neighbours it has; any other pointer changes nothing. |
| `Heap.AllocMeans` | heap.cpp:606-734 | Rounding the size up turns no block away: a free block is large enough for the rounded size exactly when it is large enough for the size. |
| `Heap.TakenSize` | heap.cpp:592-734 | What a caller gets has the bytes asked for and less than a header and two smallest blocks more. |
| `Heap.FreeMeans` | heap.cpp:740-823 | A release in the list is that of the one live block with its data there. |
| `Heap.Heap.Join` | heap.cpp:338-438 | A free block swallows its right neighbour exactly when that is free too, and the links in memory follow. |
| `Heap.Heap.Find` | heap.cpp:440-476 | Finds the one block whose data start at the pointer, although it stops at the first block beyond it. |
| `Heap.RunsSane` | heap.cpp:592-823 | After any sequence of allocations and frees the blocks tile the heap and no two neighbours are free. |
| `Heap.LiveApart` | heap.cpp:592-734 | Live regions are aligned to 16, lie inside the heap and do not overlap. |
| `Heap.PlacedUsed` | heap.cpp:592-734 | An allocation adds one live block, at most a header and a smallest block larger than asked, and touches no other. |
| `Heap.FreedUsed` | heap.cpp:740-823 | A free takes away that live block and no other. |
| `Heap.FreedSane` | heap.cpp:740-823 | Joining with both neighbours keeps the tiling and leaves no two free neighbours. |
| `Heap.AllocThenFree` | heap.cpp:592-823 | Freeing what was just allocated restores the exact list of blocks. |
| `Heap.FreeAll` | heap.cpp:740-823 | Freeing every live pointer, in any order, leaves one block of the initial size. |
| `Heap.RunsToEmpty` | heap.cpp:592-823 | Whenever nothing is allocated, whatever happened before, the heap is one block of the initial size. |
| `PmmBits.OneBit` | pmm.cpp:258-295 | Changing one bit of the packed map adds or removes that frame and no other. |
| `Pmm.Pmm.AllocFrame` | pmm.cpp:1203-1315 | Hands out a free frame not held by anyone, the first from the cursor on with one wrap, and fails only when no frame below 1 GiB is free. |
| `Pmm.Pmm.FreeFrame` | pmm.cpp:1354-1422 | Releases an available, busy frame given by its exact address; reserved, foreign, unaligned and repeated frees change nothing. |
| `Pmm.Pmm.Unlock` | pmm.cpp:952-982 | Makes an available frame free whoever holds it, so it ends the holder's claim. |
| `Pmm.Pmm.Secure` | pmm.cpp:984-1004 | Takes one frame out of the free ones. |
| `Pmm.Pmm.IsFree` | pmm.cpp:1006-1026 | True exactly for an address inside a free frame. |
| `Pmm.Pmm.AllocRun` | pmm.cpp:1317-1348 | Finds the lowest run of free frames from frame 256 on and fails only when there is none, although it skips past each busy frame. |
| `Pmm.Pmm.FreeRun` | pmm.cpp:1424-1441 | Releases the whole run when all of it is held, else nothing. |
| `PmmBoot.AddRange` | pmm.cpp:476-528 | Exactly the frames that lie wholly inside the range become available. |
| `PmmBoot.Reserve` | pmm.cpp:534-590 | Exactly the frames the range touches stop being available. |
| `PmmBoot.AddMap` | pmm.cpp:727-808 | A tag that holds one or more whole entries of at least 24 bytes and nothing else makes exactly the frames inside its available entries available; any other is refused. |
| `PmmBoot.AddTags` | pmm.cpp:1052-1093 | Succeeds exactly for a proper tag list with exactly one memory map in order. |
| `PmmBoot.WalkMeans` | pmm.cpp:650-721 | The walk over the tags ends well exactly when they follow each other in steps of 8 bytes up to an end tag of 8 bytes inside the structure, and has then found all of them. |
| `PmmBoot.ReserveTag` | pmm.cpp:814-896 | A module or framebuffer tag takes away exactly the frames its area touches. |
| `PmmBoot.Init` | pmm.cpp:1032-1197 | Succeeds exactly for good boot information; then a frame is free exactly when one available entry below 4 GiB wholly holds it and no reserved area touches it; otherwise nothing is free. |
| `PmmInfo.Start` | pmm.cpp:1032-1197 | Started with any tags a boot loader lays out byte by byte, with fields of any value and map entries of any length from 24 bytes on, the allocator is ready exactly when one tag is a map, a region of type 1 holds a whole frame below 4 GiB and the kernel is not empty; then free are exactly the frames inside one such region and outside the first MiB, the kernel, the information, modules, framebuffers and the two APIC pages. |
| `PmmInfo.TagsMean` | pmm.cpp:650-896 | Read back from those bytes, the map grants exactly the frames its regions hold and the tags keep exactly the frames they touch. |
| `PmmInfo.MapRead` | pmm.cpp:727-808 | A map laid out with its regions is read as those regions. |
| `LittleEndian.LongRead` | pamiec.h:162-167 | A 64-bit field reads as the number written to it, lowest byte first. |
| `NoteText.FlatPut` | notatnik.cpp:719-745 | Putting a byte into a line is putting it into the flat buffer at the line's offset. |
| `NoteText.FlatBreak` | notatnik.cpp:816-831 | Splitting a line is putting one NUL into the flat buffer. |
| `NoteText.FlatJoin` | notatnik.cpp:747-814 | Joining two lines is taking that NUL out. |
| `NoteText.EditsStayWellFormed` | notatnik.cpp:719-889 | In text made of whole UTF-8 characters every edit and move keeps every line whole and the cursor between two characters, and Backspace and Delete take exactly one character out of a line. |
| `NoteText.BackspaceUndoesChar` | notatnik.cpp:747-784 | Backspace after a typed character, of one to four bytes, gives back the document and cursor. |
| `NoteText.BackspaceUndoesBreak` | notatnik.cpp:747-784 | Backspace after Enter does too. |
| `NoteText.ScalarIsChar` | notatnik.cpp:727-784 | The UTF-8 form of every Unicode scalar value from the space on is one character, and Backspace takes it back whole wherever it was typed. |
| `NoteText.ContinuesMeans` | notatnik.cpp:530-540 | The bytes taken for the inside of a character are exactly those that follow the first one in the UTF-8 form of some scalar value. |
| `NoteText.RightUndoesLeft` | notatnik.cpp:837-889 | From between two characters the right arrow goes back where the left one came from. |
| `NoteText.LeftUndoesRight` | notatnik.cpp:837-889 | ... and the left one where the right one came from. |
| `NoteText.BackspaceIsDelete` | notatnik.cpp:747-860 | Backspace is the left arrow and then Delete. |
| `Notepad.Notepad.Shift` | notatnik.cpp:490-503 | Moves the bytes as if through a copy, whichever way the areas overlap, or nothing. |
| `Notepad.Notepad.LineOffset` | notatnik.cpp:505-515 | Finds where a line begins by counting NULs. |
| `Notepad.Notepad.LineLength` | notatnik.cpp:539-547 | Finds a line's length; 0 for a line that does not exist. |
| `Notepad.Notepad.Normalise` | notatnik.cpp:682-713 | Puts the cursor on the character boundary at or before it and changes no text. |
| `Notepad.Notepad.InsertByte` | notatnik.cpp:719-745 | Inserts the byte exactly when the character it begins would still fit, else leaves the text. |
| `Notepad.Notepad.TypeChar` | notatnik.cpp:2772-2782 | Typing the bytes of a character inserts each at the boundary before the cursor; with no continuation byte at the cursor the character goes in whole when it fits, otherwise the trailing bytes that still fit go in alone. |
| `Notepad.WholeOrNothing` | notatnik.cpp:727-733 | A character is typed whole or not at all exactly when the buffer has room for it or not one byte is left. |
| `Notepad.LimitCutsLetter` | notatnik.cpp:727-733 | In a well-formed document that leaves one byte of the buffer, a two-byte letter leaves its second byte alone at the start of the line, and the text is no longer well formed. |
| `Notepad.Notepad.Backspace` | notatnik.cpp:747-784 | Takes out the character before the cursor, or the line break, on lines and cursor. |
| `Notepad.Notepad.Delete` | notatnik.cpp:786-814 | Takes out the character at the cursor, or the line break after it. |
| `Notepad.Notepad.Break` | notatnik.cpp:816-831 | Splits the line at the cursor exactly when a byte is left. |
| `Notepad.Notepad.Left` | notatnik.cpp:837-860 | One character back, over the line's start to the end of the line before. |
| `Notepad.Notepad.Right` | notatnik.cpp:862-889 | One character on, over the line's end to the start of the next line. |
| `NoteRows.RowEndOnly` | notatnik.cpp:1052-1073 | A row's end is the only place that is whole characters away, not too wide unless it is a single character, and leaves no room for one more. |
| `NoteRows.RowsPartition` | notatnik.cpp:1075-1101 | The rows cut the document up: first to last, each right under the one before, at character boundaries, at least one character in each row of a line that has any. |
| `NoteRows.OneRowHolds` | notatnik.cpp:1175-1203 | No place of the document is drawn in two rows. |
| `NoteRows.SomeRowHolds` | notatnik.cpp:1175-1203 | Every place is drawn in some row. |
| `NoteScreen.WrapAt` | notatnik.cpp:1052-1073 | The loop with its running width finds that row end. |
| `NoteScreen.PlaceAt` | notatnik.cpp:1312-1331 | The place chosen for a pixel is behind exactly the characters of the row whose middle it has reached; it is as near as any, to a pixel. |
| `NoteScreen.ChosenOnce` | notatnik.cpp:1312-1331 | That description fits no other place. |
| `NoteScreen.ChosenEnd` | notatnik.cpp:1312-1331 | The end of a row is chosen exactly from the middle of its last character on. |
| `NoteScreen.Screen.CountRows` | notatnik.cpp:1075-1101 | The count is the number of rows of the partition. |
| `NoteScreen.Screen.FetchRow` | notatnik.cpp:1103-1141 | The look-up by index returns that row of the partition, and fails exactly beyond it. |
| `NoteScreen.Screen.NextRow` | notatnik.cpp:1143-1173 | The incremental step from any row value leads to what comes right under it; from a row of the document that is the next one, and it fails exactly at the last. |
| `NoteScreen.Screen.CursorRow` | notatnik.cpp:1175-1203 | The number returned is that of the one row that holds the cursor. |
| `NoteScreen.Screen.FitScroll` | notatnik.cpp:1333-1366 | Afterwards the cursor's row is visible, with no more empty room than needed, and no visible position is nearer to the old one. |
| `NoteScreen.Screen.Up` | notatnik.cpp:891-909 | Lands at the place chosen in the row above; it is drawn there exactly when that row ends its line or the cursor stood left of the middle of its last character, otherwise in the row it came from. |
| `NoteScreen.Screen.Down` | notatnik.cpp:911-929 | Lands at the place chosen in the row below; it is drawn there exactly under the same condition, otherwise one row further. |
| `NoteScreen.UpStays` | notatnik.cpp:891-909 | With a line of equal letters that fills two rows and the cursor at its end the condition fails, for every width of view and letter: the up key stays in the row. |
| `NoteFiles.Serialise` | notatnik.cpp:1457-1467 | The buffer then holds the lines with an LF between any two. |
| `NoteFiles.Restore` | notatnik.cpp:1469-1473 | Every LF but one in the last place becomes a NUL. |
| `NoteFiles.Save` | notatnik.cpp:1475-1544 | What is written is the lines with a byte 10 between any two, and the document is byte for byte as before whether the write succeeds or not. |
| `NoteFiles.Parse` | notatnik.cpp:1550-1583 | Accepts exactly files that fit and hold no NUL, and turns them into their lines in place, never writing where it has yet to read; `NoteFiles.AnyBreaks` says which lines those are. |
| `NoteFiles.Open` | notatnik.cpp:1585-1643 | Opens exactly files below 64 KiB without a NUL; lines joined by any choice of LF, CR LF and CR are shown as those lines, with the cursor at the start, unless a lone CR, an empty line and a lone LF meet; a file that is too long leaves the document alone. |
| `NoteFiles.AnyBreaks` | notatnik.cpp:1557-1563 | Lines joined by any choice of LF, CR LF and CR are read as those lines exactly when no CR and LF of two breaks meet. |
| `NoteFiles.EveryFile` | notatnik.cpp:1557-1563 | Every file without a NUL is its lines joined by such breaks, none of which meet so, so there is no other way to read it. |
| `NoteFiles.DosOrUnix` | notatnik.cpp:1557-1563 | Lines ended with CR LF throughout and lines ended with LF throughout are the same document. |
| `NoteFiles.OpenSaved` | notatnik.cpp:1457-1583 | Opening a saved document gives back the same lines. |
| `NoteFiles.SaveOpened` | notatnik.cpp:1457-1583 | Saving an opened file gives the file with CRLF and CR turned into LF. |
| `NoteFiles.UnifiedSame` | notatnik.cpp:1550-1583 | That is the same file exactly when it has no CR. |
| `NoteFiles.OpenSaveOpen` | notatnik.cpp:1457-1583 | Saving and opening again changes nothing more. |
| `NoteFiles.SavedOpens` | notatnik.cpp:1457-1583 | A document that fits the buffer is saved as a file that opens again. |
| `KeyboardRing.RunInv` | klawiatura.cpp:181-216 | The invariant over every interleaving of single loads and stores of one producer and one consumer. |
| `KeyboardRing.FirstInFirstOut` | klawiatura.cpp:181-216 | The bytes delivered are the first of those accepted, once and in order; never more than 255 wait; the overflow counter is the number refused. |
| `KeyboardRing.NoRace` | klawiatura.cpp:181-216 | The cell the producer is about to write is never the one the consumer is about to read. |
| `KeyboardRing.RefusedWhenFull` | klawiatura.cpp:181-216 | In every run, a call that ends has its byte accepted exactly when fewer than 255 bytes were waiting as it loaded the tail, and refused exactly when 255 were. |
| `KeyboardRing.TakesOldest` | klawiatura.cpp:575-604 | In every run, a call for a byte that ends has delivered the oldest waiting one exactly when something was waiting as it loaded the head, and else nothing. |
| `ReceiveRing.RunInv` | e1000.cpp:2542-2677 | The invariant over every run of driver and card. |
| `ReceiveRing.ReadInOrder` | e1000.cpp:2542-2677 | Packets are read once each in the order completed, at most 31 wait, and exactly those with the end of packet, no error and 14 to 1518 bytes are passed on. |
| `ReceiveRing.StopsWhenEmpty` | e1000.cpp:2542-2677 | A call of the driver ends only when nothing completed is left to read or when it has read 32 packets, and never reads more. |
| `ReceiveRing.AfterTail` | e1000.cpp:2542-2677 | Between two turns of the loop the next slot is the one after RDT, modulo 32. |
| `ReceiveRing.HandsOff` | e1000.cpp:2542-2677 | The descriptor the driver works on is completed and not the card's. |
| `ReceiveRing.Partition` | e1000.cpp:1823-1864 | Between two turns every descriptor is completed, or the card's, or the one at RDT, and only one of these. |
| `ReceiveRing.AlwaysThirtyOne` | e1000.cpp:1823-1864 | So the completed and the card's descriptors together always number 31. |
| `BurLoader.CheckHeader` | loader.cpp:389-540 | Accepts exactly the images whose segments are aligned, inside the user window and the file, and do not overlap, with the entry point in the code. |
| `BurLoader.PagesApart` | loader.cpp:389-540 | In an accepted image no page belongs to two of code, data and stack. |
| `BurLoader.AddressSpace.MapSegment` | loader.cpp:542-623 | Maps exactly the segment's pages, each to a frame of its own with the segment's bytes and zeros behind them; fails only for want of a frame. |
| `BurLoader.AddressSpace.LoadImage` | loader.cpp:847-914 | Code, data and stack are mapped page by page, and nothing else; fails only for want of a frame. |
| `BurLoader.Load` | loader.cpp:745-914 | A file is loaded exactly when its header is accepted and no frame was missing; for an image laid out field by field that is the header laid out. |
| `BurLoader.HeaderRead` | loader.h:68-80 | The header read from an image is the one whose fields were written there. |
| `BurLoader.ProcessSees` | loader.cpp:847-914 | The program sees its code, its data followed by zeros to the end of the last page, a zeroed stack, and an entry point inside code it cannot write; data and stack it can. |
| `Calculator.StrToInt` | kalkulator.cpp:186-226 | Succeeds exactly for a decimal number within 64 bits, and returns it. |
| `Calculator.IntToStr` | kalkulator.cpp:228-270 | Prints any 64-bit number, the smallest included; too short a buffer takes the first characters and is still ended. |
| `Calculator.TextReadsBack` | kalkulator.cpp:186-270 | The printed form of a number reads back as that number. |
| `Calculator.DigitsOfValue` | kalkulator.cpp:186-270 | Printing the value of a number without leading zeros gives its digits back. |
| `Calculator.QuotientTruncates` | kalkulator.cpp:272-294 | The quotient leaves a remainder smaller than the divisor and with the dividend's sign. |
| `Calculator.OnlyOneOverflow` | kalkulator.cpp:272-294 | A quotient overflows exactly for the smallest number divided by -1. |
| `Calculator.Compute` | kalkulator.cpp:272-294 | Gives the sum, difference, product or truncated quotient exactly when it exists within 64 bits; the overflow tests made beforehand are exact. |
| `Calculator.Calculator.Click` | kalkulator.cpp:327-460 | Each button does to the buffers what it does to the abstract entry; C shows 0, and a digit after a result or an error starts a new number. |
| `Calculator.Calculator.ClickAll` | kalkulator.cpp:327-460 | After any buttons the display is the rendering of the left-to-right evaluation, in at most 52 of its 64 bytes. |
| `Calculator.Evaluates` | kalkulator.cpp:327-460 | From a cleared calculator, the buttons of numbers and operators and '=' show the value of working from left to right, or ERR when the last step has none; an operator in place of '=' shows it after the value. |
| `Calculator.TwoNumbers` | kalkulator.cpp:272-460 | Two numbers with an operator between them and `=` after them show the text of their sum, difference, product or whole quotient, or ERR when it does not fit 64 bits or the divisor is 0. |
| `Calculator.ShownFits` | kalkulator.cpp:154-170 | No rendering of an entry is longer than 52 characters, so no append is ever refused. |
| `Calculator.ReadNumber` | kalkulator.cpp:312-321 | A typed number that fits shows exactly the text of its value. |

## Left out

File system:

- BspStore.Store.Flush: a failed transfer may leave anything in its own sectors; nothing is claimed about a loss of power between two transfers, as there is no journal.
- BspMount.Mount: an accepted image that is not tidy is mounted as the source mounts it, and nothing is promised of later calls on it.
- BspApi.Create: the answer is about the tree in memory, as in the source, for the other calls that change names too; whether the write-through succeeded is only in `lastFlushOk`.
- The packing of structures into bytes: a block is typed by its use, a zeroed data block serves as either kind, and bytes of a file are never read as directory entries.
- Bytes behind the NUL of a stored name, the time stamps and the PZB security bits of a node (a copy takes only the range check of its level), and log messages.
- Indirect blocks do not exist in BSP2: the direct-pointer limit of a file is the source's.
- A RAM disk whose size is not a multiple of 4096 bytes: the rest behind the last block is never used by the source.
- `wylistuj_katalog`, `pobierz_metadane_tworu`, `rozmiar_pliku` and `zapewnij_katalog`: readers and a wrapper that add no new invariant.
- Locks and disabled interrupts: every public call is one step.
- The AHCI driver: a transfer is a step that succeeds or fails.

Memory:

- Heap.Heap.Kmalloc: user data inside blocks are not stored in the model; headers are kept by address.
- Pmm.Pmm.Unlock: a frame made free this way counts as released, since the source lets anyone take it away.
- PmmBoot.Init: the tags are read from a snapshot of the boot information, which the source assumes not to change.
- The weaker heap of `bursztyn_gui.cpp`, the page tables and the scheduler.

Editor:

- NoteFiles.Open: an opening refused because of a NUL has already replaced the buffer's bytes, so nothing is promised about the document then.
- NoteRows.RowEndOnly: glyph advances are any function of a character's bytes, standing for the font and its cache.
- Home, End, the mouse, menus, drawing and the planner of partial redraws.
- Keys other than characters, Enter, Backspace, Delete and the arrows.

Rings:

- KeyboardRing.FirstInFirstOut: holds for one producer, as klawiatura.cpp:69-70 says; the USB path (klawiatura.cpp:608-630) also calls the producer and is not part of this model. Loads and stores are taken one at a time in program order, which the acquire and release operations of the source justify for this ring.
- ReceiveRing.ReadInOrder: the transmit ring, interrupts, statistics and link state are left out; the card may complete or scribble only in descriptors it owns (section 3.2.6 of the Intel 8254x Software Developer's Manual).

Loader and calculator:

- BurLoader.Load: process slots, kernel stacks, the argument string and cleaning up after a failure are not modelled; mapping a page is an update of a map.
- Calculator.Calculator.Click: hit testing and drawing are not modelled.
