# Yunix, verified in Dafny

A model of the stateful parts of the Yunix kernel (a 32-bit x86 hobby kernel in C) with proofs about
it. Run `dafny verify dfyconfig.toml` in this directory to check everything.

| file | models |
|---|---|
| `Bytes`, `CStrings`, `Memory` | bytes, little-endian words, NUL-terminated strings, the routines of `lib/string.c` that others call |
| `HeapLayout`, `HeapRuns`, `HeapMemory`, `Heap` | `kernel/heap.c` |
| `FishTree`, `FishSteps`, `FishSpec`, `FishPaths`, `Fish` | `fs/fish.c`, everything in memory |
| `Disk`, `FishImage`, `FishSession` | `fish_save` and `fish_load` over one-sector transfers; whole runs of Fish |
| `FishHandles` | `fish_save_cwd` and `fish_restore_cwd` around whole runs |
| `FishLaws` | what several calls of Fish do together, in names and bytes |
| `User` | `kernel/user.c`, the shell's `save` and the end of `kernel_main` |
| `KeyDecoder`, `KeyLayout`, `Keyboard` | `drivers/keyboard.c`: the decoder, the layout it types, and the driver with the interrupt at any point of the reader |
| `Terminal`, `Vga`, `Shell` | `drivers/vga.c` and `read_line` of `kernel/shell.c` |
| `Console` | keyboard and `read_line` together |
| `Numbers`, `Timer` | `utoa`, `itoa` and `timer_sleep` |

## How the model is built

State that the kernel changes in place is a class with array or scalar fields, and every method is
proved against a function of the old state; the laws are then proved about those functions.

* **Heap.** The arena is an array of 262144 bytes. The three header words of a block lie in it, little
  endian, between the payloads, and links are 32-bit addresses from an arbitrary non-null base on. A
  ghost list of blocks is tied to those bytes. All sizes below 2^32 are covered, with the wrap-around
  of `align_up`.
* **Fish.** A slot keeps its raw buffers, so that left-over bytes of an earlier owner are there to be
  hidden. The abstract view is a map from paths to directories and file contents, plus the path of the
  current directory. Beside it stands a map from used slots to paths, which gives the handles of
  `fish_save_cwd` their meaning. `char` is signed on the target: bytes above 127 count as control characters.
  A null name and the empty name take the same branch in `fish_mkdir`, `fish_create` and `fish_chdir`
  and are one value.
* **Disk.** Each transfer of a sector either works or fails, as a function given with the disk decides; a
  write that fails leaves arbitrary bytes behind. Whole runs of Fish are followed on every disk: without
  one, on one that works, and on one on which any transfers fail.
* **Keyboard.** `keyboard_getchar` is four atomic steps (load `head`, compare with `tail`, load the slot,
  store `tail`) and a complete interrupt may come between any two. C leaves the order of the first two
  loads open; the model loads `head` first. The histories of scanned bytes and
  of accepted and returned keys are part of the state.
* **Terminal.** The reference is a tape of rows of 80 cells that only ever grows; the screen is its last
  25 rows.

## Where the code and its documentation part

* `include/heap.h` promises a block of at least `size` bytes. For the seven sizes above 2^32 - 8
  `align_up` wraps to zero and `kmalloc` hands out a block that is too small. `Heap.KernelHeap.Kmalloc`
  states the promise with its exact condition.
* For the same seven products `kcalloc` passes its own overflow test and then clears memory far beyond
  the block (`HeapRuns.CallocContainedExactly`, `HeapRuns.CallocOverrun`). `Heap.KernelHeap.Kcalloc`
  excludes exactly these calls where a block is found, because what they overwrite is outside any model
  of the arena.
* `include/fish.h:56-57` promises that a saved current directory lets you "come back". A handle is a slot,
  and `fs/fish.c:232-234` looks only at whether the slot holds a directory now. After `mkdir a`, `cd a`,
  save, `cd /`, `rm a`, `mkdir b`, restoring ends in `/b` (`FishHandles.RecycledHandle`, for any two
  names). The handle leads back for as long as no call takes that directory itself away
  (`FishHandles.HandleLeadsBack`), and over whole runs exactly if the last call that gave or took it gave it
  (`FishHandles.HandleExactly`). `user_save` and `user_load`, its only callers, remove nothing in between
  and do come back (`User.UserConfig.UserSave`, `User.UserConfig.UserLoad`).
* `timer_sleep` waits for the right number of ticks up to 42949662 ms and for too few beyond
  (`Timer.WantedExactly`). `include/timer.h` promises milliseconds, and the first tick may come right after
  the call: a sleep is only sure to last more than `10 * (wanted - 1)` ms, can come as close to that as one
  likes, and so can be shorter than asked for, for every time of at least 1 ms (`Timer.SleepLasts`,
  `Timer.SleepCanBeThatShort`, `Timer.SleepCanBeTooShort`).
* The comment in `itoa` says that the cast to `long` makes the negation of -2^31 safe. `long` has 32
  bits on this target, so it overflows, which section 6.5 of ISO C99 leaves undefined.

## Model

| member | source | states |
|---|---|---|
| `HeapLayout.AlignUpRounds` | kernel/heap.c:29-32 | `align_up` is the next multiple of 8 if and only if the size is at most 2^32 - 8, and zero otherwise |
| `HeapLayout.Canonical` | kernel/heap.c:17-21 | two block lists that tile the same stretch without adjacent free blocks and have the same live blocks are identical |
| `HeapLayout.TakeWellFormed` | kernel/heap.c:51-85 | splitting and handing out a block keeps tiling, alignment and maximal free blocks, and makes exactly one more block live |
| `HeapLayout.MergeCoalesces` | kernel/heap.c:103-116 | the merge loop that does not advance ends with every maximal run of free blocks merged and every live block as it was |
| `HeapLayout.ReleaseWellFormed` | kernel/heap.c:118-129 | freeing a live block keeps the list well formed and makes exactly that block not live |
| `HeapLayout.ReleaseUndoesTake` | kernel/heap.c:51-129 | giving back what was just taken restores the exact list, through canonicity |
| `HeapLayout.FirstFitComplete` | kernel/heap.c:68-85 | a block is found if and only if some stretch of the arena for header and payload meets no live block: fragmentation never hides room |
| `HeapLayout.FirstFitLowest` | kernel/heap.c:76-82 | the block taken is the lowest one that fits |
| `HeapLayout.BytesConserved` | kernel/heap.c:131-145 | used bytes, free bytes and headers add up to the whole arena |
| `HeapLayout.UsedAfterTake` | kernel/heap.c:131-145 | handing out a block adds its size to the used bytes |
| `HeapLayout.UsedAfterRelease` | kernel/heap.c:131-145 | giving a block back takes its size off the used bytes, however much is merged |
| `HeapRuns.CallocRejectsOverflow` | kernel/heap.c:89-94 | the division test rejects exactly the products of 2^32 and more |
| `HeapRuns.CallocContainedExactly` | kernel/heap.c:89-98 | the bytes cleared lie in the block if and only if the product is not one of the seven that wrap in `align_up` |
| `HeapRuns.CallocOverrun` | kernel/heap.c:87-99 | the concrete call `kcalloc(1, 0xffffffff)` on a fresh heap gets a block of zero bytes |
| `HeapRuns.RunWellFormed` | kernel/heap.c:34-129 | every run of the interface keeps the list tiled, 4-byte aligned and coalesced |
| `HeapRuns.SameLiveSameHeap` | kernel/heap.c:34-129 | two runs that end with the same live blocks end with identical lists |
| `HeapRuns.NothingLiveIsInitial` | kernel/heap.c:34-129 | a run after which nothing is live has restored the state of `heap_init` |
| `HeapRuns.FreeOrderIrrelevant` | kernel/heap.c:118-129 | freeing the same blocks in any order gives the same heap |
| `HeapRuns.FreeUndoesMalloc` | kernel/heap.c:68-129 | `kfree` right after a successful `kmalloc` restores the exact prior list |
| `HeapRuns.KeptSince` | kernel/heap.c:68-129 | along any run, a block that is live at some moment, also one handed out on the way, and not freed after it ends with what it held then, changed exactly by the stores into it |
| `Heap.KernelHeap.HeapInit` | kernel/heap.c:34-40 | the header bytes in the arena spell one free block over all of it |
| `Heap.KernelHeap.SplitBlock` | kernel/heap.c:51-66 | the five header words written in place turn the in-band list into the one with the block cut, and no byte outside the block changes |
| `Heap.KernelHeap.Kmalloc` | kernel/heap.c:68-85 | null exactly without room (or size 0, or no `heap_init`); otherwise a pointer behind the header of a new live block at the first fit, good for exactly the bytes of that block, all other contents untouched; large enough if and only if `align_up` did not wrap, and fewer than 20 bytes larger than `align_up` asked for |
| `Heap.KernelHeap.PointerReaches` | kernel/heap.c:45-48 | the bytes a live pointer is good for lie in the arena, are the contents of its block, and no header is among them |
| `Heap.KernelHeap.PointersApart` | kernel/heap.c:45-48 | the bytes of two live pointers do not overlap and have a header between them |
| `Heap.KernelHeap.Kcalloc` | kernel/heap.c:87-99 | null exactly for zero or overflowing products or without room; otherwise as `kmalloc`, with the bytes asked for zeroed; only calls that would clear bytes behind their block are excluded |
| `Heap.KernelHeap.Coalesce` | kernel/heap.c:103-116 | the in-place loop terminates with the merged list in the arena and no live byte changed |
| `Heap.KernelHeap.Kfree` | kernel/heap.c:118-129 | null does nothing; a live pointer removes exactly its block from the contents of the heap |
| `Heap.KernelHeap.HeapStats` | kernel/heap.c:131-145 | the sums walked along the in-band list, and used + free + 12 * blocks = HEAP_SIZE |
| `Heap.KernelHeap.Replay` | kernel/heap.c:68-129 | over any run of calls and of stores by callers the arena follows the list, and the contents of all live blocks, those handed out during the run included, go from one call to the next exactly as the call says: a store changes its byte, `kcalloc` hands out cleared bytes, everything else stays |
| `Fish.IsValidName` | fs/fish.c:30-46 | the loop accepts exactly the valid names |
| `FishTree.PathInjective` | fs/fish.c:49-57 | no two nodes of a tree have the same path |
| `FishTree.FullExactly` | fs/fish.c:61-67 | the abstract tree has 64 entries if and only if every slot is used |
| `FishSteps.ChildExactly` | fs/fish.c:49-57 | a directory has a child of that name if and only if the longer path is in the tree |
| `FishSteps.Insert` | fs/fish.c:70-87 | filling a recycled slot keeps the tree and adds exactly one path, with an empty file or directory |
| `FishSteps.Rewrite` | fs/fish.c:160-190 | new contents of a file change that path only |
| `FishSteps.Delete` | fs/fish.c:139-158 | clearing the used flag of a childless node keeps the tree and removes exactly its path |
| `Fish.FileChildless` | fs/fish.c:148-154 | the child check that `fish_remove` skips for files can never find anything |
| `Fish.FishFs.FishInit` | fs/fish.c:91-102 | the empty filesystem |
| `Fish.FishFs.FindChild` | fs/fish.c:49-57 | the slot of the entry, and -1 only if there is none |
| `Fish.FishFs.Allocate` | fs/fish.c:61-67 | the lowest unused slot, and -1 exactly when the tree has 64 entries |
| `Fish.FishFs.FishMkdir` | fs/fish.c:104-108 | exactly the abstract effect and error code; the new node is in the lowest unused slot |
| `Fish.FishFs.FishCreate` | fs/fish.c:110-114 | exactly the abstract effect and error code; the new node is in the lowest unused slot |
| `Fish.FishFs.FishChdir` | fs/fish.c:116-137 | exactly the abstract effect and error code |
| `Fish.FishFs.FishRemove` | fs/fish.c:139-158 | exactly the abstract effect and error code; the slot of the removed path, and no other, is given back |
| `Fish.FishFs.FishWrite` | fs/fish.c:160-174 | exactly the abstract effect and error code |
| `Fish.FishFs.FishAppend` | fs/fish.c:176-190 | exactly the abstract effect and error code |
| `Fish.FishFs.FishRead` | fs/fish.c:192-200 | finds exactly the files, and the first `size` bytes are exactly what was written |
| `FishLaws.WriteAppendRead` | fs/fish.c:160-200 | write, append, read: the bytes written and then the bytes appended, and no other path changed |
| `FishLaws.CreateRead` | fs/fish.c:110-200 | a new file is found and empty, whatever its slot held |
| `FishLaws.RemoveRead` | fs/fish.c:139-200 | every file can be removed and is not found afterwards |
| `FishLaws.RemoveDirectory` | fs/fish.c:139-158 | a directory can be removed if and only if it has no entry |
| `FishLaws.MakeEnterLeave` | fs/fish.c:104-137 | a new directory can be entered, and ".." leads back to where it was made, at any depth |
| `FishLaws.Navigation` | fs/fish.c:116-130 | ".." is one step up and none from the root, "." stays, "/" goes to the root |
| `FishLaws.SuccessExactly` | fs/fish.c:70-190 | for each call exactly when it succeeds |
| `FishLaws.Errors` | include/fish.h:24-35 | for each call which error number is reported when |
| `FishLaws.FailureChangesNothing` | fs/fish.c:70-190 | a call that fails changes neither tree nor directory |
| `FishLaws.OtherPathsStay` | fs/fish.c:70-190 | no call changes another path than the one it names |
| `Fish.FishFs.FishNext` | fs/fish.c:209-223 | the first child at or after the handle, zero only when there is none |
| `Fish.FishFs.List` | kernel/shell.c:174-185 | iterating until zero yields every child once, in slot order, and nothing else |
| `Fish.FishFs.FishSaveCwd` | fs/fish.c:225-228 | the handle is the slot of the current path, and restoring it at once leads to that path |
| `Fish.FishFs.FishRestoreCwd` | fs/fish.c:230-238 | the path of whichever directory is in the slot of the handle now, or the root if none is; that need not be the directory that was saved |
| `FishHandles.DenotesStep` | fs/fish.c:61-158 | one call: the handle stands for a path afterwards if and only if the call put it into that slot, or it did so before and the call did not take it out |
| `FishHandles.HandleLeadsBack` | fs/fish.c:225-238 | over every run: the handle leads back to its path if no call took the directory away; after that it leads to the root or to a directory that the run made or loaded; so, for a path below the root that the run does not bring back, it leads back if and only if no call took it away |
| `FishHandles.HandleExactly` | fs/fish.c:225-238 | over every run, also one that brings the path back: the handle leads to a path below the root if and only if the last call that gave or took it gave it |
| `FishHandles.RecycledHandle` | include/fish.h:56-57 | the promise to come back fails: after six calls on an empty filesystem the handle of the first directory leads into the second, for any two names and any disk |
| `FishHandles.SaveRunRestore` | fs/fish.c:225-238 | the same on the node pool: save, any run that leaves a tree, restore |
| `Fish.FishFs.Climb` | fs/fish.c:251-254 | the bound on the depth never cuts the walk to the root short |
| `Fish.FishFs.FishPath` | fs/fish.c:240-273 | for every size of at least 1 exactly the first min(length, size - 1) characters of the full path and a terminator, and nothing behind it |
| `Fish.SpelledReads` | fs/fish.c:240-273 | read as a string, the buffer is the whole path name if it fits and its first size - 1 characters otherwise |
| `FishPaths.PathStringStep` | fs/fish.c:240-273 | the root is "/", and each further name comes behind a slash |
| `FishPaths.ComponentsOfPathString` | fs/fish.c:256-272 | cutting a printed path at its slashes gives the path back |
| `FishPaths.NamesDistinguishNodes` | fs/fish.c:240-273 | distinct nodes have distinct full path names |
| `FishPaths.PathShort` | fs/fish.c:251-254 | a path has fewer than 64 steps, because its ancestors are distinct slots |
| `FishPaths.TreeRooted` | fs/fish.c:91-158 | in every tree the parent path of every entry is a directory, names are valid, files have at most 512 bytes, there are at most 64 entries |
| `FishPaths.NavigationArrives` | fs/fish.c:116-137 | `fish_chdir("/")` and then one `fish_chdir` per component succeeds at each step and arrives at that very node |
| `Disk.SaveMemory` | fs/fish.c:321-331 | memory of any length goes to consecutive sectors, the last one padded with zeros; success exactly when every transfer works; otherwise everything in front of the failing transfer is written and nothing behind it |
| `Disk.LoadMemory` | fs/fish.c:355-364 | memory of any length comes from consecutive sectors; up to the transfer that fails if one does, with the bytes behind it as they were |
| `Disk.ReadBack` | fs/fish.c:321-364 | what is loaded from where memory was saved is that memory, for lengths that are no multiple of 512 too |
| `Disk.ReadIsStored` | fs/fish.c:355-364 | memory read from sectors is exactly the bytes that they hold |
| `Disk.CopiedBytes` | fs/fish.c:355-364 | byte by byte what a load that stopped behind k sectors has overwritten and what it has not |
| `FishImage.PoolRoundTrip` | fs/fish.c:15-22 | the 35840 bytes of the node array determine the pool, left-over bytes included |
| `FishImage.PoolMemoryOf` | fs/fish.c:15-22 | every 35840 bytes are the memory of exactly the pool that is read out of them |
| `FishImage.NodeLayout` | fs/fish.c:15-22 | the offsets of the fields of a node and the byte order of its words |
| `FishImage.SuperSectorRecognised` | fs/fish.c:282-317 | the superblock written is accepted and carries the current directory |
| `FishImage.RecognisedExactly` | fs/fish.c:282-352 | the first sector is accepted if and only if its first 16 bytes are those that a save writes |
| `FishImage.ImageStored` | fs/fish.c:300-383 | the sectors that a completed save leaves behind are accepted and hold exactly the pool and the directory that were saved |
| `FishImage.FishSave` | fs/fish.c:300-334 | success exactly with a disk and working transfers, and then the disk holds the image; a save that fails has written everything in front of the failing transfer and nothing behind it; only sectors 2048 to 2118 are written |
| `FishImage.SavedBytes` | fs/fish.c:300-334 | byte by byte what a save that stopped behind k sectors has written |
| `FishImage.FishLoad` | fs/fish.c:336-383 | for every disk the exact result; no disk, or a first sector that is unreadable or unknown, changes nothing; after success every byte of the pool is that of the sectors and the current directory is the one named, if it is one; a pool without a root empties the filesystem; a transfer that fails in between leaves the directory and the bytes behind it alone |
| `FishSession.Replay` | fs/fish.c:91-383 | on every disk, failing transfers included, every run of Fish calls, handles, saves and loads returns what the map of paths returns and ends in the same tree with the same paths in the same slots |
| `FishSession.LoadUndoesSave` | fs/fish.c:300-383 | with transfers that work, loading gives back the state that was saved, whatever the pool held in between |
| `User.SetField` | kernel/user.c:17-32 | accepts exactly the acceptable values and stores their first 31 characters |
| `User.ConfigRoundTrip` | kernel/user.c:62-109 | the parser undoes the printer for every pair of names a field can hold |
| `User.FieldExactly` | kernel/user.c:17-32 | a line of printing characters becomes the value; an empty one, or one with a space or control character, changes nothing |
| `User.UserConfig.UserInit` | kernel/user.c:34-38 | the default names |
| `User.UserConfig.UserSave` | kernel/user.c:52-72 | succeeds exactly if "ys.conf" is a file or there is room for it, changes that path only, and leaves the current directory where it was |
| `User.ConfigStored` | kernel/user.c:52-72 | when storing works, which bytes "ys.conf" then holds, and that every other path holds what it did |
| `User.UserConfig.UserLoad` | kernel/user.c:74-112 | each name becomes its line of the file if that is acceptable and stays otherwise, for any contents; tree and current directory are unchanged |
| `User.CmdSave` | kernel/shell.c:299-310 | names into the tree, tree to the disk, and nothing to any other sector |
| `User.Boot` | kernel/kernel.c:43-51 | the image is restored exactly if it is accepted and can be read to its end, with the current directory and the names in "ys.conf"; otherwise the default names, and an empty filesystem unless a transfer failed behind the superblock |
| `User.SaveAndReboot` | kernel/kernel.c:43-51 | `save` changes "ys.conf" and nothing else in the tree, and after it and a reboot user name, host name, tree and current directory are those from before the reboot |
| `KeyDecoder.FlagsMeaning` | drivers/keyboard.c:84-120 | after any bytes: `extended` iff the last is 0xE0, `caps_on` is the parity of plain 0x3A bytes, `shift_held` iff the latest plain shift event is a press |
| `KeyDecoder.LetterCase` | drivers/keyboard.c:124-133 | a letter is in upper case exactly when shift and caps lock differ |
| `KeyLayout.UnshiftedLayout` | drivers/keyboard.c:19-32 | each row of keys types its row of the US layout |
| `KeyLayout.ShiftedLayout` | drivers/keyboard.c:34-48 | behind either shift key it types the shifted row |
| `KeyLayout.OnePress` | drivers/keyboard.c:113-134 | a byte not behind 0xE0 adds exactly one key if it is the press of a key with a character, and none otherwise |
| `KeyLayout.CapsLockFlips` | drivers/keyboard.c:121-131 | caps lock turns a letter into the same letter in the other case and leaves every other key alone |
| `KeyLayout.PrefixedPress` | drivers/keyboard.c:91-111 | behind 0xE0 exactly nine bytes add a key, each its own |
| `KeyLayout.FlagsStep` | drivers/keyboard.c:84-121 | what every byte does to each of the three flags |
| `Console.Keystroke` | drivers/keyboard.c:65-134 | on a fresh driver, from the byte in the data port to `keyboard_getchar`: the character of the key, or nothing |
| `Keyboard.KeyboardDriver.BufferPush` | drivers/keyboard.c:65-72 | the in-place push is the one of the interleaved system |
| `Keyboard.KeyboardDriver.KeyboardCallback` | drivers/keyboard.c:84-134 | one interrupt updates the flags and the ring as the decoder says |
| `Keyboard.StepsAreGetchar` | drivers/keyboard.c:74-81 | the reader's atomic steps without interrupts amount to one call |
| `Keyboard.FullExactly` | drivers/keyboard.c:67-69 | a key is refused exactly when 127 are waiting |
| `Keyboard.RunKeepsInv` | drivers/keyboard.c:60-81 | the ring invariant holds after every interleaving of interrupts and reader steps |
| `Keyboard.KeysInOrder` | drivers/keyboard.c:60-81 | the keys returned are a prefix of the keys accepted; the others, at most 127, are in the ring unharmed; drops happen exactly when the ring is full; a zero means the ring was empty when `head` was read; all other results are the keys |
| `Keyboard.KeysCounted` | drivers/keyboard.c:60-134 | every key that the bytes spell is accepted or counted as lost |
| `Keyboard.AcceptedAreKeys` | drivers/keyboard.c:60-134 | for every interleaving, the keys accepted are exactly those the bytes spell if and only if no key met a full ring |
| `Terminal.ScrolledOffStays` | drivers/vga.c:61-133 | whatever is printed, rows that have left the screen never change |
| `Terminal.BackspaceErases` | drivers/vga.c:75-87 | a character and a backspace: the cursor is back, the cell is blank, no other cell has changed |
| `Terminal.TabBlanks` | drivers/vga.c:90-101 | a tab blanks the cells up to the next column divisible by 8 and no other |
| `Terminal.RowsStart` | drivers/vga.c:103-133 | line feed and carriage return go to the start of the next and of this row and change no cell |
| `Terminal.TextStands` | drivers/vga.c:103-138 | printed text stands on the tape as it is, across row ends and scrolling |
| `Vga.VgaScreen.Scroll` | drivers/vga.c:62-72 | the in-place copy loops move every row up and blank the last |
| `Vga.VgaScreen.Backspace` | drivers/vga.c:75-87 | the step back on the tape, clipped at the top left corner |
| `Vga.VgaScreen.Tab` | drivers/vga.c:90-101 | blanks up to the next multiple of 8 on the tape, across the row end |
| `Vga.VgaScreen.VgaPutchar` | drivers/vga.c:103-133 | the screen stays the last 25 rows of the tape, row < 25 and col < 80 |
| `Vga.VgaScreen.OnScreen` | drivers/vga.c:61-133 | the 2000 cells in memory are the last of the tape, and row and column point at its cursor |
| `Vga.VgaScreen.VgaWrite` | drivers/vga.c:135-138 | the same for every string |
| `Vga.VgaScreen.VgaClear` | drivers/vga.c:45-53 | a blank screen, 25 new rows on the tape |
| `Shell.EraseCharacter` | kernel/shell.c:523-529 | with something typed the cursor is never in the corner where backspace stops, so the last character goes and nothing else |
| `Shell.TypeCharacter` | kernel/shell.c:536-537 | a typed character lands right behind the line, across row ends and scrolling |
| `Shell.EndLine` | kernel/shell.c:517-521 | ending the line moves the cursor to the next row and changes no cell |
| `Shell.EraseUndoesType` | kernel/shell.c:523-537 | backspace takes back the character typed before it |
| `Shell.PlainKeysSpell` | kernel/shell.c:531-537 | up to 255 character keys make exactly the line that they spell |
| `Shell.OneMoreKey` | kernel/shell.c:523-537 | one more key appends its character, is dropped behind 255, takes the last one off, or changes nothing |
| `Shell.TypedShows` | kernel/shell.c:505-539 | on a screen that is blank behind the prompt, exactly the line stands behind it |
| `Shell.ReadLine` | kernel/shell.c:505-539 | for any key stream the cursor is `length` cells behind the prompt, those cells spell the line, earlier cells are untouched, and the buffer holds the edited line throughout |
| `Console.ReadTyped` | kernel/shell.c:505-539 | for every interleaving of keyboard interrupts and reader steps, and from any call of `keyboard_getchar` on: a line is delivered exactly when a line feed comes out, it is the edited first line of the keys accepted and not consumed before, and the next line begins behind its line feed; before that the screen and the buffer show exactly the keys that have come out |
| `Console.NothingLost` | drivers/keyboard.c:60-134 | if no key met a full ring, those are the keys that the bytes spell, counted from where the line before ended |
| `Numbers.PrintedReadsBack` | lib/string.c:80-109 | for every 32-bit value and base 2 to 16 the text reads back as the value, without leading zero, in at most 10 digits in base 10 |
| `Numbers.DigitChars` | lib/string.c:82-82 | the sixteen digit characters |
| `Numbers.Utoa` | lib/string.c:80-109 | digit loop and in-place reversal produce that text, and the empty text for a bad base |
| `Numbers.SignedReadsBack` | lib/string.c:111-121 | the signed text reads back as the value in base 10, from at most 11 characters |
| `Numbers.PatternReadsBack` | lib/string.c:111-121 | in every other base the text reads back as the value modulo 2^32 |
| `Numbers.Itoa` | lib/string.c:111-121 | writes that text into any buffer with room for it and a terminator |
| `Timer.WantedExactly` | drivers/timer.c:41-41 | the computed ticks are the time asked for, rounded up, if and only if it is at most 42949662 ms, and too few otherwise |
| `Timer.WaitsExactly` | drivers/timer.c:42-46 | the comparison of differences is right for every start value, across the wrap of the counter |
| `Timer.Clock.TimerSleep` | drivers/timer.c:38-49 | the loop is never left early and is left at the first look that is not more than 2^31 ticks late |
| `Timer.SleepLasts` | include/timer.h:17-19 | a sleep lasts longer than one tick less than wanted; woken by the last tick it lasts at most the ticks wanted, and long enough if and only if the call came early enough behind its last tick |
| `Timer.SleepCanBeThatShort` | include/timer.h:17-19 | for every time there is a moment to call at which the sleep comes as close to that bound as one likes |
| `Timer.SleepCanBeTooShort` | include/timer.h:17-19 | every sleep of at least 1 ms can be shorter than asked for |

## Left out

- Heap.KernelHeap.Kcalloc: the seven products above 2^32 - 8 are excluded when a block is found for them, because the code then writes outside the arena.
- Heap.KernelHeap.Kfree: only null and live pointers, because `include/heap.h` leaves a second free undefined.
- Numbers.Itoa: excludes -2^31 in base 10, because the negation overflows a 32-bit `long`.
- FishHandles.HandleLeadsBack: runs that `FishSession.Replay` follows, see there.
- FishImage.FishLoad: an accepted pool is not claimed to be a tree, because the code checks neither parent links nor names.
- FishSession.Replay: on a pool that a load left half overwritten only `fish_init`, `fish_save` and `fish_load` are followed, and after a failed save no load of what it left, because in both cases the pool is not known to be a tree.
- User.Boot: an accepted image that can be read to its end must hold a tree, for the same reason; after a transfer that fails behind the superblock nothing is said about the filesystem.
- Fish.FishFs.Climb: the chain of slots is a sequence instead of a 64-element buffer on the stack; its bound is kept.
- Fish nodes are values in an array: copying into `name` and `data` replaces the buffer of the slot instead of writing bytes one by one.
- The port handshakes of `drivers/ata.c`; a transfer is one step with a result.
- Segment and interrupt tables, interrupt acknowledgement and all assembly: no state beyond table filling.
- Shell commands other than `read_line`, `save` and the loop of `ls`: text output and thin calls into Fish.
- `memmove`, `memcmp` and `strncmp`: no caller. `update_cursor` and the cursor keys of the screen: device output only.
- `fish_error` and the programming of the timer chip: constants.
- Alignment of payload pointers to 8 bytes: the header has 12 bytes, so the code provides multiples of 4 only.

Nothing was executed: all statements are about the model and are proved by the Dafny verifier.
