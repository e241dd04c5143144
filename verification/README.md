# Nachos in Dafny: a verified model

This project models the kernel and the simulated machine of an extended Nachos 4.1 and proves what they are
meant to guarantee. Every core is modelled in the form the C++ has: objects with fields that their methods
change, loops over arrays and linked nodes, and state machines where threads and device interrupts interleave.
Beside each object stands a specification on values; the methods are proved to follow it, and the properties
are proved about it.

* **Synchronisation and scheduling** (`ThreadIds`, `Semaphore`, `Condition`, `Monitor`, `SynchList`,
  `Scheduler`). `Semaphore.dfy` and `SynchList.dfy` hold step relations over any number of threads, in which a
  thread may be switched out at every point where interrupts can be on; the classes are the sections between
  such points. `Scheduler.dfy` accounts for the place of every thread.
* **Simulated time** (`Interrupt`, `DiskLatency`): the queue of pending interrupts, over every run of requests,
  ticks and idle jumps with whatever the handlers schedule, and the latency arithmetic of the disk.
* **Devices** (`DeviceProtocol`, `DiskProtocol`, `Network`): the lock, semaphore and interrupt protocol around a
  device that takes one request at a time, with the cached disk and the network as its two users, and the
  delivery of packets into mailboxes.
* **File system** (`Words`, `Bits`, `Bitmap`, `SynchDisk`, `FileHeader`, `FileContents`, `Volume`, `OpenFile`,
  `Path`, `DirTable`, `Directory`, `FileTree`, `PathWalk`, `Creation`, `Removal`, `Reach`, `Format`, `FileRun`,
  `FileSystem`, `Mishap`). The disk is 1024 sectors of 128 bytes; headers, free map and directories are read and written as bytes. The
  invariant `FileTrees.Tree` says that every sector of every file has one owner and is marked in the free map on
  disk, and that the directories form a tree; `Volumes.Exact` says that nothing else is marked. Operations are
  specified by the sectors they write and what is then in them; that both hold in every state from `Format` on is
  derived from that (`FileRun.dfy`), and `FileSystems.Session` carries out any sequence of commands with the methods.
* **Demand paging** (`Paging`, `MemoryManager`, `Replacement`, `PageFile`): page tables, frame table, replacement and
  write-back are indistinguishable from one flat array of bytes per address space, over files of the host as all makefiles
  build them (`FILESYS_STUB`); which page replacement takes, over whole runs.
* **Processor** (`Mult`, `LoadStore`): the shift-and-add multiplier and the unaligned load and store pairs, with
  the delayed-load slot.
* **Containers and the journal** (`List`, `HashTable`, `Journal`, and `Wrappers` for a value or none).

32-bit fields are `word` (0 up to 2^32 - 1) or `bv32`; where the C++ wraps, shifts or truncates, the model does so
explicitly. A failed ASSERT or a null dereference is a result of its own. Clock values, uninitialised memory and
lost packets are free choices. Ghost parameters named `f` and `hs` say to which header sector a handle belongs and
what the current headers of all files are; they decide nothing.

## Where the code does not do what one would expect

The model follows the code; the exact condition under which the expected property does hold, or that it holds all the
same, is proved in each case.

* `WriteAt` sets the limit to the end of what it wrote, so a write that ends before the old end cuts the file off
  (`FileContents.KeepsTailIffReachesEnd`, `ShortOverwriteTruncates`).
* `Deallocate` visits all 32 entries of an indirect block; the unused ones are 0, so a part-filled block also
  unmarks sector 0 (`FileHeaders.FreedSectors`, `FileTrees.ReservedSectorLost`), and after such a `Remove` no set
  of files fits the stored map (`Removals.MapLost`); `Mishaps.LoseTheMap` does it with a file of 25 sectors.
* `Allocate` compares the free count with the data blocks only; when an indirect block is needed as well and the
  count is exact, an ASSERT fails (`FileHeaders.FileHeader.Allocate`). Its last `return FALSE` is never reached.
* `Create` of a directory carries on after a refused `Allocate` (`Creations.HeaderIsLost`): this happens exactly
  with fewer than three free sectors.
* A path without elements makes `skipelem` return 0, which `namex` dereferences (`PathWalks.Namex`).
* `Remove` leaves every other file within reach of the root if and only if what it removes is not a directory with
  entries (`Reachability.RemovalKeepsEnteredIff`); what such a directory held stays marked for good
  (`Removals.OrphansStayMarked`, `Mishaps.LoseAFile`).
* Comments call the replacement strategy LRU, but a weight is the time at which a page was brought in
  (`Replacements.WeightIsLoadTime`): it is first in, first out. The page that goes is the least recently used one if and
  only if every page that was brought in by the time of its last use has been used since
  (`Replacements.VictimIsLruIff`); a run of four accesses shows the difference (`Replacements.LastUsedPageGoes`).
* On the file system of this repository, rather than files of the host, a page that is written back cuts the executable
  off behind it, because of what `WriteAt` does to the limit: the pages of the space survive if and only if it is the
  last one (`PageFiles.WriteBackKeepsPagesIff`).
* `sendBusy` is never set, so the check for it in `Send` checks nothing; the lock and the semaphore of the post office
  see to it that sends do not overlap (`Networks.SendsNeverOverlap`).
* A packet of length 0 leaves the inbox counted as empty although a message was signalled
  (`Networks.HandshakeIffPositive`). `NetworkOutput::Send` asserts that the length is positive, so only a foreign
  sender on the socket can cause this.
* `SWL` and `SWR` take the register itself, not a load that is on its way to it: a pair right behind such a load can
  store a mixture of the old and the new value (`LoadStores.StorePairStores`, `SettledIff`).
* A record with a negative test number is written to the journal but refused when read (`Journals.ReadBackIff`).

## Model

| member | source | states |
|---|---|---|
| Words.ToWordsToBytes | code/filesys/filehdr.cc:166-181 | storing an array of 32-bit words as bytes and loading it back is the identity, for arrays of any length |
| Words.ToBytesToWords | code/filesys/filehdr.cc:166-181 | loading whole words from bytes and storing them back is the identity |
| Words.WordsLieInOrder | code/filesys/filehdr.cc:166-181 | word k of an array takes up its bytes 4k to 4k + 3, least significant first |
| Bitmaps.OrMarksOneBit | code/lib/bitmap.cc:55-63 | or-ing a shifted 1 into its word sets exactly that bit of the whole bitmap |
| Bitmaps.AndNotClearsOneBit | code/lib/bitmap.cc:72-80 | and-ing with the complement clears exactly that bit of the whole bitmap |
| Bitmaps.AndTestsOneBit | code/lib/bitmap.cc:89-99 | the masked word is non-zero exactly when the bit is set |
| Bitmaps.FindFailsIffFull | code/lib/bitmap.cc:110-139 | a search for a clear bit fails exactly when the number of clear bits is 0 |
| Bitmaps.CountClearAfterMark | code/lib/bitmap.cc:110-139 | marking a clear bit lowers the number of clear bits by exactly one |
| Bitmaps.Bitmap.constructor | code/lib/bitmap.cc:21-36 | a new bitmap, cleared bit by bit, has no bit set |
| Bitmaps.Bitmap.Mark | code/lib/bitmap.cc:56-63 | the bits afterwards are the bits before with one set |
| Bitmaps.Bitmap.Clear | code/lib/bitmap.cc:73-80 | the bits afterwards are the bits before with one cleared |
| Bitmaps.Bitmap.Test | code/lib/bitmap.cc:90-99 | the result is the bit |
| Bitmaps.Bitmap.FindAndSet | code/lib/bitmap.cc:111-120 | returns and marks the lowest clear bit, or returns -1 and changes nothing if there is none |
| Bitmaps.Bitmap.NumClear | code/lib/bitmap.cc:129-139 | the loop counts the clear bits |
| SynchDisks.SynchDisk.constructor | code/filesys/synchdisk.cc:28-38 | an empty cache over a disk with any contents, whatever was in the cache array |
| SynchDisks.SynchDisk.FindInCache | code/filesys/synchdisk.cc:67-76 | finds a live entry of the sector, and -1 only if there is none |
| SynchDisks.SynchDisk.FindVictim | code/filesys/synchdisk.cc:89-104 | picks an entry with the least time stamp, as long as no entry has validity 0, a value that is never stored |
| SynchDisks.ReadKeepsCoherent | code/filesys/synchdisk.cc:67-111 | a read that looks at an entry with the sector, or at any entry when none has it, returns what the disk holds and leaves the cache coherent |
| SynchDisks.WriteKeepsCoherent | code/filesys/synchdisk.cc:131-138 | marking all entries of the written sector dead leaves the cache coherent with the changed disk |
| SynchDisks.SynchDisk.ReadLocked | code/filesys/synchdisk.cc:66-114 | the part under the lock does to the cache what a read step of the disk protocol does; the entry looked at then has the sector and the new time stamp, and on a miss it was one with the least, as long as no entry has validity 0 |
| SynchDisks.SynchDisk.WriteLocked | code/filesys/synchdisk.cc:131-138 | so does the loop of a write |
| SynchDisks.SynchDisk.ReadSector | code/filesys/synchdisk.cc:63-115 | hit or miss, returns what the disk holds and keeps the cache coherent: live entries equal their sectors, no sector is cached twice |
| SynchDisks.SynchDisk.WriteSector | code/filesys/synchdisk.cc:127-140 | replaces exactly that sector and leaves no live entry of it in the cache |
| DeviceProtocols.StepKeepsInv | code/filesys/synchdisk.cc:63-152 | every step of any number of threads that take a lock, send a request, wait on the device semaphore and release the lock keeps the protocol invariant; a request finds the device free |
| DeviceProtocols.InterruptKeepsInv | code/filesys/synchdisk.cc:149-152 | so does the interrupt, at whatever moment it comes |
| DeviceProtocols.OneRequest | code/filesys/synchdisk.cc:94-152 | semaphore value plus active flag equals the number of threads between sending and the return of P, at most 1 |
| DeviceProtocols.NobodyStuck | code/filesys/synchdisk.cc:63-152 | when nothing can move and no interrupt is due, every thread is outside the protocol |
| DiskProtocols.Safety | code/filesys/synchdisk.cc:62-152 | in every state of every run of any number of threads: the drive is never asked while active, the semaphore accounts for the one request, every read returned the last data written, the cache agrees with the disk |
| DiskProtocols.RunKeepsInv | code/machine/disk.cc:116-163 | the protocol and data invariants hold in every state of every run, whatever the threads do and whenever interrupts come |
| DiskProtocols.NobodyStuck | code/filesys/synchdisk.cc:62-152 | a run that comes to rest leaves no thread inside a read or write |
| FileHeaders.ParseImage | code/filesys/filehdr.cc:166-181 | fetching a header that was written back yields the same header |
| FileHeaders.HeaderLayout | code/filesys/filehdr.cc:166-181 | in which four bytes of its sector each field of a header lies |
| FileHeaders.BlocksFor | code/filesys/filehdr.cc:56-69 | the least number of blocks that holds so many bytes |
| FileHeaders.FileHeader.constructor | code/filesys/filehdr.cc:41-50 | the header of an empty file |
| FileHeaders.FileHeader.Allocate | code/filesys/filehdr.cc:56-119 | decides by size, capacity and free count alone between success, refusal without any change, and the failed assertion of a map that holds exactly the data blocks but not the missing indirect block; never ends at the last return; success adds exactly the needed, distinct, previously clear sectors and moves no old block |
| FileHeaders.GrownFromTaken | code/filesys/filehdr.cc:70-117 | old blocks in place plus freshly taken sectors make a well-formed file again: all its sectors differ, capacity is blocks times sector size |
| FileHeaders.FileHeader.FillDirect | code/filesys/filehdr.cc:70-80 | the direct loop takes clear sectors one by one and its assertion cannot fail |
| FileHeaders.FileHeader.MakeIndirect | code/filesys/filehdr.cc:90-97 | an indirect block is made and zeroed when there is none; it fails exactly on a full map |
| FileHeaders.FileHeader.FillIndirect | code/filesys/filehdr.cc:101-109 | the indirect loop fills the first unused entries in order, and runs dry exactly when too few sectors are clear |
| FileHeaders.FileHeader.Deallocate | code/filesys/filehdr.cc:128-157 | clears exactly the bits it visits and no other, and empties the header |
| FileHeaders.FreedSectors | code/filesys/filehdr.cc:141-152 | what is given back is exactly the file's blocks, and sector 0 besides if and only if an indirect block in use has unused entries |
| FileHeaders.FileHeader.ByteToSector | code/filesys/filehdr.cc:193-209 | below the capacity it finds the block's sector and its assertions cannot fail |
| FileHeaders.FileHeader.SetFileLimit | code/filesys/filehdr.cc:222-227 | accepts exactly 0 up to the capacity |
| FileHeaders.FileHeader.FetchFrom | code/filesys/filehdr.cc:166-169 | the fields are those stored in the sector |
| FileHeaders.FileHeader.WriteBack | code/filesys/filehdr.cc:178-181 | the sector then holds the header, no other sector changes |
| FileContents.FileFrame | code/filesys/filehdr.cc:193-209 | contents and block map of a file depend only on its own blocks and indirect block |
| FileContents.ByteLies | code/filesys/filehdr.cc:193-209 | byte x of a file is byte x mod 128 of the sector that direct entry x / 128, or entry x / 128 - 24 of the indirect block, names |
| FileContents.AllStored | code/filesys/openfile.cc:145-199 | laying out whole sectors and writing them amounts to storing the bytes at their position: old bytes in front kept, nothing but the file's header and blocks written |
| FileContents.KeepsTailIffReachesEnd | code/filesys/openfile.cc:165-172 | a write leaves the bytes behind it in the file if and only if it reaches the old end: since the limit is set to its own end, a shorter write cuts the file off |
| FileContents.ShortOverwriteTruncates | code/filesys/openfile.cc:165-172 | one byte written at the start of a two-byte file leaves a file of one byte |
| FileContents.ConsecutiveWrites | code/filesys/directory.cc:95-99 | two writes one behind the other equal one write of both |
| OpenFiles.OpenFile.constructor | code/filesys/openfile.cc:29-34 | the handle holds the header that is on disk, position 0 |
| OpenFiles.OpenFile.ReadAt | code/filesys/openfile.cc:116-142 | reads nothing exactly for an empty request or a position outside the file; else as many bytes as asked for, or up to the limit, whichever is less: exactly that slice of the contents, across partial first and last sectors, and touches nothing else in the buffer |
| OpenFiles.OpenFile.ReadSectors | code/filesys/openfile.cc:132-136 | the loop fills the buffer with every full or partial sector of the request |
| OpenFiles.OpenFile.FillBuffer | code/filesys/openfile.cc:174-191 | the buffer holds old bytes before the position and the new bytes from it on |
| OpenFiles.OpenFile.StoreBuffer | code/filesys/openfile.cc:193-196 | the loop stores the buffer in exactly the blocks of the request and moves no block |
| OpenFiles.OpenFile.WriteAt | code/filesys/openfile.cc:145-199 | for every request: an empty one or one outside the file changes nothing; otherwise contents become the old ones up to the position followed by the new bytes, growing the file and the stored free map if needed, other files untouched; it stops at a failed assertion exactly if the file cannot grow |
| OpenFiles.OpenFile.Grow | code/filesys/openfile.cc:156-166 | growth succeeds exactly if size and free sectors allow; then header, indirect block and stored free map agree and every file keeps its contents |
| OpenFiles.OpenFile.Read | code/filesys/openfile.cc:74-79 | the same at the seek position, which moves by what was read |
| OpenFiles.Print | code/threads/main.cc:152-158 | reading in pieces of any positive size until nothing comes puts out exactly the rest of the file |
| OpenFiles.OpenFile.Write | code/filesys/openfile.cc:82-87 | writes at the seek position and moves it by what was written, with every outcome as for WriteAt: nothing for a rejected request, the failed assertion exactly if the file cannot grow |
| OpenFiles.PersistentBitmap.FetchFrom | code/filesys/pbitmap.cc:63-66 | the bits are those stored in the file |
| OpenFiles.PersistentBitmap.WriteBack | code/filesys/pbitmap.cc:76-79 | the file then stores exactly these bits |
| Volumes.OwnedAfterGrow | code/filesys/filehdr.cc:56-119 | growing one file keeps every sector of every file with one owner and marked, and all other files' contents |
| Volumes.OwnedAfterStore | code/filesys/openfile.cc:145-199 | so does writing into a file |
| Volumes.OwnedAfterRemove | code/filesys/filesys.cc:294-303 | so does giving back all sectors of a file whose indirect block, if any, is full |
| Volumes.NewFileOwned | code/filesys/filesys.cc:200-212 | so does an empty file on a sector that was clear |
| Volumes.VolumeAfterStore | code/filesys/openfile.cc:145-199 | a write within the capacity keeps the stored headers and the stored free map right |
| Volumes.GrowthComposes | code/filesys/openfile.cc:156-198 | allocation, storing the map, storing the bytes: together they do what a growing write promises |
| Volumes.MapWritten | code/filesys/filesys.cc:229 | storing a map that accounts for all files makes the volume sound on disk |
| Volumes.ReplacedKeepsVolume | code/filesys/filesys.cc:200-230 | a step that gives one file clear sectors, marks exactly these, and writes nothing but that file, the map and the blocks of one directory leaves a sound volume: one owner per sector, stored headers current, every other file byte for byte as before |
| Volumes.VacatedKeepsVolume | code/filesys/filesys.cc:294-303 | so does one that unmarks exactly the sectors of one file and writes nothing but the map and the blocks of one directory |
| Volumes.ExactIff | code/filesys/filesys.cc:97-106 | the two halves of the invariant together: a sector is marked on disk if and only if some file owns it |
| Volumes.ReplacedKeepsExact | code/filesys/filesys.cc:200-230 | a creation or a growing write leaves no sector marked that no file owns |
| Volumes.VacatedKeepsExact | code/filesys/filesys.cc:294-303 | nor does a removal |
| Volumes.StoreKeepsExact | code/filesys/openfile.cc:145-199 | nor does a write in place |
| Paths.ElementsAre | code/filesys/directory.cc:144-169 | repeated skipelem yields exactly the non-empty pieces between slashes, each cut to nine characters, for every path |
| Paths.Skipelem | code/filesys/directory.cc:144-169 | finds the next element and the rest of the path; null exactly if there is no element |
| Paths.CopyElement | code/filesys/directory.cc:158-165 | the name buffer then compares as the element cut to nine characters |
| Paths.CStringIs | code/filesys/directory.cc:110-116 | a buffer compares as the text in front of its terminator, nine characters at most |
| DirTables.AddThenFind | code/filesys/directory.cc:240-255 | adding keeps live names distinct, succeeds if and only if the name is new and an entry is free, and then exactly this name leads to the new sector, all others where they led |
| DirTables.RemoveThenFind | code/filesys/directory.cc:288-294 | removing keeps live names distinct, succeeds if and only if the name was there, and then exactly this name is gone |
| DirTables.RemoveUndoesAdd | code/filesys/directory.cc:240-294 | removing what was added restores every lookup |
| DirTables.EnteredAt | code/filesys/directory.cc:245-253 | entering a name writes flag, name and sector of that entry and no byte of another |
| DirTables.EntryLayout | code/filesys/directory.cc:245-253 | in which bytes of an entry the flag, the padded name and the sector are written |
| DirTables.LookupIs | code/filesys/directory.cc:110-129 | with distinct names a lookup finds the one live entry of the name |
| Directories.FetchAfterWriteBack | code/filesys/directory.cc:80-99 | fetching a directory that was written back gives its sector and its table unchanged |
| Directories.DirLayout | code/filesys/directory.cc:95-99 | the own sector comes first in the file, the table behind it |
| Directories.Directory.constructor | code/filesys/directory.cc:36-60 | no entry is in use, whatever the memory held |
| Directories.Directory.FetchFrom | code/filesys/directory.cc:80-85 | sector and table are those in the file |
| Directories.Directory.WriteBack | code/filesys/directory.cc:95-99 | the two writes leave exactly the directory's image in the file |
| Directories.Directory.FindIndex | code/filesys/directory.cc:110-116 | the loop finds the first live entry with the name, or -1 |
| Directories.Directory.DirLookup | code/filesys/directory.cc:120-129 | the sector entered for the name, or -1 |
| Directories.Directory.AddInCurrentDir | code/filesys/directory.cc:240-255 | changes the table as the specification of adding says, byte for byte |
| Directories.Directory.RemoveInCurrentDir | code/filesys/directory.cc:288-294 | changes the table as the specification of removing says |
| FileTrees.TreeAfterAdd | code/filesys/directory.cc:240-278 | a new file entered under a new name leaves a tree: every entry names a file, no file is entered twice |
| FileTrees.TreeAfterRemove | code/filesys/directory.cc:288-317 | so does taking a file or directory out |
| FileTrees.ResolveAfterAdd | code/filesys/directory.cc:176-212 | after adding, the new path leads to the new file, and every path that led to a file still leads to it |
| FileTrees.ResolveAfterRemove | code/filesys/directory.cc:176-212 | after removing, the path leads nowhere, and no path leads to a different file than before |
| FileTrees.DirWritten | code/filesys/directory.cc:270-274 | writing a changed table back changes this directory's table and no other file, and keeps the volume |
| FileTrees.CreationCompletes | code/filesys/filesys.cc:212-230 | once the map is stored, the volume with the new file is sound |
| FileTrees.NewFileJoins | code/filesys/filesys.cc:200-230 | from sectors and tables alone: a new file, plain or an empty directory, entered in a directory and written to clear sectors, joins the tree |
| FileTrees.TreeAfterWrite | code/filesys/openfile.cc:145-199 | a write to any plain file, growing or not, keeps the whole file system and every other file's contents |
| FileTrees.ReservedSectorLost | code/filesys/filehdr.cc:141-152 | after removal the map still marks sector 0 if and only if the file had no part-filled indirect block |
| FileTrees.FileLeaves | code/filesys/filesys.cc:294-303 | from sectors and tables alone: a file whose entry is dropped and whose sectors are unmarked leaves a tree behind |
| PathWalks.WalkUnfolds | code/filesys/directory.cc:176-212 | the specified walk takes one element at a time through plain directories, and fails at a missing name or a file that is no directory |
| PathWalks.Namex | code/filesys/directory.cc:176-212 | the recursive walk through directory files equals the walk over the tree, for every path; with nameparent the last element is left in the buffer; a path without elements is the null dereference |
| PathWalks.AddPath | code/filesys/directory.cc:258-278 | adds the last element to the directory the path leads to, exactly if that directory exists and can take it; else nothing changes |
| PathWalks.RemovePath | code/filesys/directory.cc:298-317 | removes the last element from the directory the path leads to, exactly if it is there |
| Creations.CreatedResolves | code/filesys/filesys.cc:181-237 | the created path led nowhere and now leads to the new file; every path that led to a file still does |
| Creations.CreatableIff | code/filesys/filesys.cc:194-209 | with a sector for the header, the path can be created exactly if the addition to the parent directory succeeds |
| Creations.CreatableMeans | code/filesys/filesys.cc:181-209 | a path can be created exactly if it leads nowhere, its directory is there and has an entry not in use, and some sector is clear |
| Creations.CreationDone | code/filesys/filesys.cc:206-230 | the writes of a creation, parent directory, new file and map, come to exactly the effect on sectors and tables that a creation is specified by |
| Creations.CreationKeepsTree | code/filesys/filesys.cc:181-237 | from that effect it follows that the file system is sound, has one more name and one more file, and every other file as it was |
| Creations.HeaderIsLost | code/filesys/filesys.cc:215-219 | a directory without room is entered all the same, its header has no block, and the next sector the stored map gives away is the header's own |
| Creations.LostHeaderMeans | code/filesys/filesys.cc:212-219 | what that leaves, in numbers: the name leads to the lowest sector that the stored map has clear, which holds a header of type directory without blocks |
| Removals.RemovedResolves | code/filesys/filesys.cc:280-308 | the removed path leads nowhere, every other path leads where it led or, below a removed directory, nowhere |
| Removals.RemovalDone | code/filesys/filesys.cc:288-303 | the writes of a removal, parent directory and map, come to exactly the effect on sectors and tables that a removal is specified by |
| Removals.RemovalKeepsTree | code/filesys/filesys.cc:280-308 | from that effect it follows that the file system is sound, has one name less, and every other file as it was |
| Removals.OrphansStayMarked | code/filesys/filesys.cc:280-308 | what a removed directory still contained keeps its sectors marked and is in no directory any more |
| Removals.MapLost | code/filesys/filehdr.cc:141-152 | once sector 0 is unmarked, the stored map is wrong for whatever files one assumes on the disk |
| Reachability.CreationKeepsEntered | code/filesys/filesys.cc:181-237 | if every file can be reached from the root before a creation, so it is after |
| Reachability.RemovalKeepsEnteredIff | code/filesys/filesys.cc:280-308 | after a removal every file can be reached if and only if what was removed is not a directory with an entry in use |
| Mishaps.LoseAFile | code/filesys/filesys.cc:280-308 | a program, from formatting on: a directory, a file in it, the directory removed; the file is then out of reach |
| Mishaps.LoseTheMap | code/filesys/filehdr.cc:141-152 | a program, from formatting on: a file of 25 sectors written and removed; then no set of files fits the map on disk |
| Formats.AllocateReserved | code/filesys/filesys.cc:97-106 | none of the three assertions of formatting fails; 14 sectors are taken |
| Formats.ReservedOwned | code/filesys/filesys.cc:87-99 | the three reserved headers have sectors of their own, marked, and 1021 are free |
| Formats.WriteContents | code/filesys/filesys.cc:122-132 | with map and root directory written the disk holds a file system, whose map marks exactly the 14 sectors in use |
| FileSystems.FileSystem.Format | code/filesys/filesys.cc:83-142 | from a disk with any contents: a sound file system with an empty root, three reserved files, 1010 free sectors and no sector marked that no file owns |
| FileSystems.FileSystem.Mount | code/filesys/filesys.cc:143-149 | opening the two files of a sound disk |
| FileSystems.FileSystem.Find | code/filesys/filesys.cc:250-263 | equals the tree walk |
| FileSystems.FileSystem.Open | code/filesys/filesys.cc:250-263 | a handle with the file's current header exactly if the walk finds the path |
| FileSystems.FileSystem.Create | code/filesys/filesys.cc:181-237 | each outcome if and only if its condition on path, directory, free entry and free sectors holds; failure changes nothing; success keeps the invariant, adds exactly this file, takes 1 or 3 clear sectors, leaves every other file's contents; a directory with fewer than 3 free sectors loses its header |
| FileSystems.FileSystem.Remove | code/filesys/filesys.cc:280-308 | finds what the walk finds; unless the file has a part-filled indirect block, exactly its own sectors become free, exactly its name goes and the invariant holds; if it has one, the stored map is broken for good |
| FileSystems.FileSystem.WritePipe | code/filesys/filesys.cc:375-380 | the pipe then contains exactly the written bytes, other files are untouched, the invariant holds |
| FileSystems.FileSystem.ReadPipe | code/filesys/filesys.cc:363-372 | delivers the whole contents of the pipe; reports that it would run over the end of the caller's buffer exactly if that is shorter than the contents |
| FileSystems.FileSystem.WriteOpen | code/filesys/openfile.cc:145-199 | a write to an open plain file keeps the file system sound and is one step of a run; it crashes exactly if the file cannot grow |
| FileSystems.FileSystem.OpenAndWrite | code/filesys/filesys.cc:250-263 | opening a path and writing: nothing changes unless the walk leads to a plain file and the position is within it; else one step of a run, or the crash of a file that cannot grow |
| FileSystems.Execute | code/filesys/filesys.cc:181-308 | any command on a sound file system fails exactly if it is one of those that the code does not guard against, and else leaves a sound file system one step further |
| FileSystems.FatalMeans | code/filesys/filesys.cc:181-308 | which commands are fatal, in numbers: a path without names; creating a directory with one or two clear sectors; removing a file of 25 to 55 blocks; a write that needs more than 56 blocks or more sectors than are clear |
| FileSystems.Session | code/filesys/filesys.cc:83-308 | any sequence of creations, removals and writes on a freshly formatted disk: every state up to the first fatal command is sound, with a map that marks exactly the sectors in use |
| FileRuns.RunKeepsTree | code/filesys/filesys.cc:83-308 | in every state of every run from format on, of creations, removals and writes given by their effect on sectors and tables only: each sector of each file has one owner and is marked in the map on disk, nothing else is marked, the stored headers are current, the directories form a tree |
| FileRuns.MarkedIffOwned | code/filesys/filesys.cc:83-308 | in every state of every run a sector is marked on disk if and only if some file has it |
| FileRuns.StepKeepsEnteredIff | code/filesys/filesys.cc:181-308 | a step leaves every file within reach of the root if and only if it is not the removal of a directory in use |
| FileRuns.RunKeepsEntered | code/filesys/filesys.cc:83-308 | up to the first such removal every file of a run can be reached from the root |
| FileRuns.ContentsStay | code/filesys/filesys.cc:181-308 | over any run a file keeps its header and every byte unless the run writes to it or removes it |
| FileRuns.PathStays | code/filesys/directory.cc:176-227 | over any run without removals a path that leads to a file keeps leading to it |
| Semaphores.Semaphore.TryP | code/threads/synch.cc:76-92 | one pass of P: takes a unit, or queues up behind all others and sleeps |
| Semaphores.Semaphore.V | code/threads/synch.cc:103-117 | raises the value in any case and readies the first sleeper |
| Semaphores.StepKeepsInv | code/threads/synch.cc:75-117 | every step keeps: value not negative, initial value plus Vs equals value plus Ps, the queue holds exactly the sleepers, and a non-empty queue means value at most the number woken and not yet run |
| Semaphores.RunKeepsInv | code/threads/synch.cc:75-117 | this holds in every state of every run of any number of threads |
| Semaphores.NobodySleepsOnPositive | code/threads/synch.cc:75-117 | once everybody woken has run, a thread sleeps only on value 0: no wakeup is lost |
| Semaphores.ReadiedInOrder | code/threads/synch.cc:75-117 | over whole runs, told from the threads alone: those that went to sleep are, in this order, those that were readied followed by the queue |
| Conditions.Lock.TryAcquire | code/threads/synch.cc:181-185 | takes the lock, or queues up behind all others and sleeps on it |
| Conditions.Lock.RecordHolder | code/threads/synch.cc:181-185 | the caller is the holder |
| Conditions.Lock.Release | code/threads/synch.cc:198-203 | refuses exactly if the caller does not hold the lock; else frees it and readies one sleeper |
| Conditions.Condition.StartWait | code/threads/synch.cc:244-256 | queues a fresh semaphore with value 0 and gives the lock back; refuses exactly if the caller does not hold the lock |
| Conditions.Condition.Signal | code/threads/synch.cc:273-283 | posts the semaphore of the first waiter and no other |
| Conditions.Condition.Broadcast | code/threads/synch.cc:292-297 | posts every waiter exactly once and empties the queue; the lock is checked only if somebody waits, and nothing changes if that check fails |
| Monitors.SynchList.Append | code/threads/synchlist.cc:53-59 | item at the end, first waiter posted, lock given back |
| Monitors.SynchList.RemoveFront | code/threads/synchlist.cc:71-81 | takes the front item and gives the lock back, or, exactly on an empty list, starts to wait |
| Monitors.SynchList.Remove | code/threads/synchlist.cc:139-144 | its assertions hold exactly if the item is there once; otherwise the lock is still held and the list has lost its first occurrence, if any |
| Monitors.AppendAlone | code/threads/synchlist.cc:53-59 | the steps of an Append that nobody interrupts come to what the method does |
| Monitors.RemoveFrontAlone | code/threads/synchlist.cc:71-81 | so do those of a pass of RemoveFront, with an item or without |
| Monitors.RemoveAlone | code/threads/synchlist.cc:139-144 | and those of a Remove of an item that is there once |
| SynchLists.StepKeepsInv | code/threads/synchlist.cc:53-144 | every step of every thread, with a possible switch between any two, keeps lock, condition and list invariants, and no lock assertion fails |
| SynchLists.RunKeepsInv | code/threads/synchlist.cc:53-144 | every state of every run with any number of threads satisfies them |
| SynchLists.Safety | code/threads/synchlist.cc:53-144 | the list is always what an atomic queue would hold; no item lost or duplicated; first in, first out as long as nothing is picked out; mutual exclusion, lock value plus holders is 1; while a waiter is queued the list is no longer than the signalled consumers plus a pending signal |
| SynchLists.NothingLost | code/threads/synchlist.cc:53-144 | over any legal history the items put in are those taken from the front, those picked out and those in the list |
| SynchLists.FirstInFirstOut | code/threads/synchlist.cc:53-81 | without picking out, items put in equal items taken followed by the list |
| SynchLists.NobodyStuck | code/threads/synch.cc:244-283 | when nobody can move, nobody sleeps on the lock and a consumer sleeps only because the list is empty |
| SynchLists.ServedInOrder | code/threads/synch.cc:75-117 | over whole runs the lock readies threads in the order in which they went to sleep on it, and Signal picks consumers in the order in which they found the list empty |
| SynchLists.NeverUndefined | code/threads/synchlist.cc:139-144 | a runnable thread is held up only by a Remove of an item that is not in the list exactly once |
| Schedulers.StepKeepsInv | code/threads/scheduler.cc:73-187 | every action keeps each living thread in exactly one place with the matching status and the ready list in order of urgency, smaller numbers first, and no assertion on its way fails |
| Schedulers.RunKeepsInv | code/threads/thread.cc:174-290 | so in every state of every run |
| Schedulers.MostUrgentFirst | code/threads/scheduler.cc:27-41 | in every state of every run the priority numbers do not fall along the ready list |
| Schedulers.DispatchesMostUrgent | code/threads/scheduler.cc:91-101 | a thread that is dispatched has a priority number no greater than that of any ready thread |
| Schedulers.GoesBehind | code/threads/scheduler.cc:73-80 | a thread that becomes ready goes behind those with the same or a smaller number and in front of the others |
| Schedulers.NeverOvertaken | code/threads/scheduler.cc:73-101 | over any run, with any priorities: while a thread is ready, no thread behind it and none that becomes ready with the same or a greater number gets in front of it or runs |
| Schedulers.WakeReadiesFirst | code/threads/synch.cc:103-117 | a V makes the thread at the front of the queue ready |
| Schedulers.WokenInOrder | code/threads/synch.cc:75-117 | over any run each semaphore wakes threads in the order in which they blocked on it |
| Schedulers.WaitsItsTurn | code/threads/scheduler.cc:91-101 | under equal priorities each dispatch moves a ready thread up by exactly one place |
| Schedulers.RunsAtItsTurn | code/threads/scheduler.cc:91-170 | under equal priorities the thread at place k is the one that dispatch k + 1 runs |
| Schedulers.StepAdvances | code/threads/scheduler.cc:91-170 | only dispatches move ready threads, one place at a time, the first onto the processor |
| Schedulers.Kernel.ReadyToRun | code/threads/scheduler.cc:73-80 | inserts in front of the first thread with a greater number, behind all others; refuses a thread that is on the list |
| Schedulers.Kernel.FindNextToRun | code/threads/scheduler.cc:91-101 | takes the front of the ready list |
| Schedulers.Kernel.Run | code/threads/scheduler.cc:120-170 | switches to the next thread; the slot for a finished thread must be free |
| Schedulers.Kernel.CheckToBeDestroyed | code/threads/scheduler.cc:180-187 | deletes the finished thread, if any |
| Schedulers.Kernel.Yield | code/threads/thread.cc:233-250 | no assertion fails, the invariant holds, the caller goes behind its equals |
| Schedulers.Kernel.Fork | code/threads/thread.cc:119-134 | the new thread becomes ready and the parent yields |
| Schedulers.Kernel.Sleep | code/threads/thread.cc:272-290 | switches to the first ready thread or idles |
| Schedulers.Kernel.Finish | code/threads/thread.cc:198-213 | the thread becomes the one to be destroyed; no assertion fails |
| Interrupts.ScheduleKeepsInv | code/machine/interrupt.cc:257-266 | scheduling later than now keeps: ticks add up, firing order, nothing lost |
| Interrupts.FireKeepsInv | code/machine/interrupt.cc:302-318 | firing a due front keeps all that whatever the handler schedules, and lowers the number of due interrupts by one |
| Interrupts.StepKeepsInv | code/machine/interrupt.cc:148-322 | every action, scheduling, tick or idle jump with all it fires, whatever the handlers schedule, keeps ticks, order and account and leaves nothing due |
| Interrupts.RunKeepsInv | code/machine/interrupt.cc:148-322 | so in every state of every run from the start |
| Interrupts.RunInOrder | code/machine/interrupt.cc:281-322 | in every state of every run, what has fired has done so by due time, then in scheduling order, never early and less than one tick late |
| Interrupts.FiredIffDue | code/machine/interrupt.cc:281-322 | in every state of every run a scheduled interrupt has fired if and only if its time has come |
| Interrupts.RequestIsServed | code/machine/interrupt.cc:257-322 | over any run, the handler that a request names has been called for it if and only if the time asked for is over |
| Interrupts.AllAreScheduled | code/machine/interrupt.cc:257-266 | every request of a handler is queued, in turn, for its own handler and time |
| Interrupts.Interrupt.Schedule | code/machine/interrupt.cc:257-266 | refuses exactly if not in the future; otherwise queues in order |
| Interrupts.Interrupt.CheckIfDue | code/machine/interrupt.cc:281-322 | terminates, fires the front as long as it is due and nothing else, leaves nothing due; moves an idle clock exactly to the next interrupt |
| Interrupts.Interrupt.OneTick | code/machine/interrupt.cc:148-176 | is the tick action of a run: advances time by the tick of the mode, fires all that became due; hands a requested yield on |
| Interrupts.Interrupt.SetLevel | code/machine/interrupt.cc:124-136 | ticks exactly when interrupts go from off to on; a handler may not enable them, and may be told so while more is due |
| Interrupts.Interrupt.Idle | code/machine/interrupt.cc:208-227 | is the idle action of a run: jumps to the next interrupt; halts exactly if there is none |
| Interrupts.Interrupt.YieldOnReturn | code/machine/interrupt.cc:190-194 | only a handler may ask |
| Multiplier.Mult | code/machine/mipssim.cc:795-858 | hi:lo is the exact 64-bit product, signed and unsigned, for all operands including the least integer |
| Multiplier.ShiftAdd | code/machine/mipssim.cc:820-843 | the shift-add loop with arithmetic right shift, carries and early exit yields the product of the operands read as unsigned |
| Multiplier.AddWide | code/machine/mipssim.cc:828-836 | adding low words, carry and high words adds the 64-bit numbers |
| LoadStores.LoadPairLoads | code/machine/mipssim.cc:324-429 | LWR at a and LWL at a + 3, in either order, through the delay slot and across page faults, load the little-endian word at a; other registers and memory stay |
| LoadStores.StorePairStores | code/machine/mipssim.cc:560-675 | SWR at a and SWL at a + 3, in either order, write exactly the four bytes at a, with the value the register has or is about to get; if a pending load changes it and no fault lets it arrive first, the half that comes first writes its bytes of the old value |
| LoadStores.StoreThenLoad | code/machine/mipssim.cc:324-675 | storing with one pair and loading with another gives the value back, at every address, in all orders; with such a pending load, exactly the mixed word |
| LoadStores.SettledIff | code/machine/mipssim.cc:586-617 | the two halves see the same value if and only if no load that changes the register is pending, or a fault lets it arrive before the first half |
| LoadStores.LoadArrives | code/machine/mipssim.cc:718-724 | the register itself holds the value after the next instruction |
| LoadStores.DelayedLoad | code/machine/mipssim.cc:718-724 | register 0 is 0 afterwards whatever the instruction wrote, and so it is after a trap |
| LoadStores.Accessed | code/machine/machine.cc:97-106 | an exception commits the pending load and leaves a legal machine |
| LoadStores.TrapLosesNothing | code/machine/machine.cc:97-106 | after an instruction that ends in an exception each register holds what it held or was about to hold, nothing is pending, memory is as before |
| LoadStores.Machine.DoDelayedLoad | code/machine/mipssim.cc:718-724 | the registers change as specified |
| LoadStores.Machine.LoadUnaligned | code/machine/mipssim.cc:324-429 | the instruction on the register array does what the specification says |
| LoadStores.Machine.StoreUnaligned | code/machine/mipssim.cc:560-675 | so does the store on register array and memory; a write refused by a read-only page changes no memory and commits the pending load |
| SortedSeqs.InsertedSorted | code/lib/list.cc:234-260 | insertion keeps the order under any consistent comparison |
| SortedSeqs.InsertedMultiset | code/lib/list.cc:234-260 | insertion adds the item and nothing else |
| Lists.GoneIffOnce | code/lib/list.cc:151-178 | an item is gone after removal if and only if it occurred once |
| Lists.List.Append | code/lib/list.cc:75-89 | adds at the end of the linked list |
| Lists.List.Prepend | code/lib/list.cc:98-112 | adds in front; refuses exactly if the item is there |
| Lists.List.RemoveFront | code/lib/list.cc:125-142 | takes the first item |
| Lists.List.Remove | code/lib/list.cc:151-178 | takes the first occurrence out, if there is one; its assertions hold exactly if it is the only one |
| Lists.List.IsInList | code/lib/list.cc:187-197 | tells membership |
| Lists.List.Insert | code/lib/list.cc:234-260 | links the item in front of the first greater one, behind equals; refuses exactly if it is there |
| Lists.List.SanityCheck | code/lib/list.cc:272-289 | all its checks hold for every list that the operations build |
| HashTables.InsertRefines | code/lib/hash.cc:110-124 | the table with the item in its own bucket refines the map with the key added |
| HashTables.RemoveRefines | code/lib/hash.cc:210-223 | the table without the item refines the map without the key |
| HashTables.MoveOne | code/lib/hash.cc:145-150 | moving one item while rehashing keeps every item in exactly one of the two tables, in its own bucket |
| HashTables.HashTable.Insert | code/lib/hash.cc:110-124 | the map gains the key; refuses exactly if it is there; items stay within three times the buckets |
| HashTables.HashTable.ReHash | code/lib/hash.cc:136-153 | four times the buckets, the same map |
| HashTables.HashTable.Find | code/lib/hash.cc:193-198 | the map's item for the key, or none |
| HashTables.HashTable.Remove | code/lib/hash.cc:210-223 | the map loses exactly the key; refuses exactly if it is not there |
| HashTables.FlatIsContents | code/lib/hash.cc:331-360 | the buckets one after the other give every item of the map once and nothing else |
| HashTables.VisitAll | code/lib/hash.cc:331-360 | the iterator visits every item exactly once and stops |
| DiskLatency.LatencyBounds | code/machine/disk.cc:227-246 | every latency lies in [500, 32000), for all times and head positions |
| DiskLatency.EndsBehindSector | code/machine/disk.cc:176-246 | every write, and every read that the track buffer does not serve, ends when the sector has passed under the head for the first time after the seek, which takes 500 ticks for each track of the distance |
| DiskLatency.BufferHitIff | code/machine/disk.cc:233-240 | the track buffer serves a request if and only if it is a read on the current track whose sector has begun to pass under the head since the buffer was begun and before now; it then takes 500 ticks |
| DiskLatency.ModuloDiffIsLeast | code/machine/disk.cc:198-204 | the least rotation from one sector to another |
| DiskLatency.Drive.ComputeLatency | code/machine/disk.cc:227-246 | computes the specified latency, within the bounds |
| DiskLatency.Drive.UpdateLast | code/machine/disk.cc:254-263 | keeps the buffer on the same track; after a change of track it begins at the first sector boundary behind the seek |
| Networks.HandshakeIffPositive | code/machine/network.cc:61-103 | inbox and semaphore stay in step through a run (value plus worker fetching is 1 exactly while the inbox is full) if and only if no packet of length 0 is read |
| Networks.ZeroLengthUnbalances | code/machine/network.cc:66-86 | a packet of length 0, which the sending side of this code never makes, breaks that |
| Networks.RunDelivers | code/network/post.cc:191-216 | what was read off the socket is what was delivered, in order, plus what is in the worker's hand and in the inbox |
| Networks.TakenInOrder | code/machine/network.cc:61-86 | packets are read off the socket in the order in which they came in, none is lost |
| Networks.PollTakes | code/machine/network.cc:61-86 | a poll takes the first packet exactly if there is one and the inbox counts as empty, and then the worker does not sleep |
| Networks.RunKeepsBoxes | code/network/post.cc:191-216 | each mailbox got exactly the deliveries addressed to it, in order |
| Networks.WorkerAndInbox | code/network/post.cc:191-216 | the worker never fetches from an empty inbox and never sleeps beside a full one |
| Networks.SendsNeverOverlap | code/network/post.cc:300-343 | with any number of senders no packet is sent while another is under way, although nothing sets sendBusy; the wire carries what was handed over and not lost, in order |
| Networks.PostOfficeInput.CallBack | code/machine/network.cc:61-86 | fills an empty inbox from the socket and signals; leaves a full one alone |
| Networks.PostOfficeInput.PostalDelivery | code/network/post.cc:191-216 | one round of waiting, fetching and delivering, step by step; refuses exactly a message for a mailbox that does not exist |
| Paging.PageFaultKeeps | code/vm/MemoryManager.cc:43-91 | the handler makes the page present, changes what no page of any space means, and keeps tables, frames and files consistent |
| Paging.PageFaultKeepsDirty | code/vm/MemoryManager.cc:43-91 | no entry becomes dirty or clean by a page fault |
| Paging.EvictKeeps | code/vm/MemoryManager.cc:54-75 | writing a dirty page back and marking it absent changes no meaning |
| Paging.LoadKeeps | code/vm/MemoryManager.cc:77-88 | bringing a page in changes no meaning |
| Paging.OldestIsReplaced | code/vm/SwappingLRU.cc:30-51 | with all frames in use the page goes into the first frame of least weight, and that frame alone gets a new weight, the time |
| Replacements.StepTracks | code/vm/MemoryManager.cc:43-91 | through any operation a frame keeps page and weight, unless it takes a page that the operation used and that was not in memory; a hit changes no weight |
| Replacements.WeightIsLoadTime | code/vm/SwappingLRU.cc:47-51 | over whole runs the weight of a frame in use is the time of the step that brought its page in, since when the page has been in memory |
| Replacements.VictimGoes | code/vm/MemoryManager.cc:51-75 | a miss with all frames taken drives out exactly the page in the frame of least weight |
| Replacements.VictimCameFirst | code/vm/SwappingLRU.cc:30-45 | over whole runs that page was brought in no later than any other in memory |
| Replacements.VictimIsLruIff | code/vm/SwappingLRU.cc:30-51 | over whole runs it is the least recently used page if and only if every page brought in by the time of its last use has been used since |
| Replacements.UntouchedVictimIsLru | code/vm/SwappingLRU.cc:30-51 | in particular if it has not been used since it was brought in |
| Replacements.LastUsedPageGoes | code/vm/SwappingLRU.cc:30-51 | a run in which it is not: two frames, two pages loaded, the first used again, a third needed; the first goes |
| PageFiles.WriteBackKeepsPagesIff | code/vm/MemoryManager.cc:61-74 | writing a page back through the file system of this repository keeps the other pages of the executable if and only if it is the last page |
| Paging.CreateKeeps | code/vm/VirtMemManager.cc:31-56 | a new space means its file; the others are untouched |
| Paging.DeleteKeeps | code/vm/VirtMemManager.cc:64-87 | deleting a space frees exactly its frames; the others are untouched |
| Paging.AccessSucceeds | code/machine/translate.cc:86-280 | an aligned access in range succeeds, at the latest at the second translation |
| Paging.ReadMemReads | code/machine/translate.cc:86-130 | a read returns the sum of the bytes that the page means times 1, 256, 256^2, 256^3; a single byte is sign-extended |
| Paging.WriteMemWrites | code/machine/translate.cc:145-185 | a write puts the digits of the value to base 256, lowest first, into its own bytes of its own page and changes no other byte |
| Paging.WriteThenRead | code/machine/translate.cc:86-185 | what was written is read back, modulo what fits; a single byte comes back sign-extended |
| Paging.OutOfRangeFails | code/machine/translate.cc:203-240 | misaligned or out of range: failure and no change |
| Paging.TranslationIs | code/machine/translate.cc:203-280 | which exception a translation ends in, exactly when; else frame and offset make the physical address; only a write that succeeds changes the entry, to dirty |
| Paging.ApplyAgrees | code/machine/translate.cc:86-280 | every operation answers as on one flat array of bytes per space, in which a number of size k at address a stands in the bytes a to a + k - 1 |
| Paging.RunsAgree | code/vm/MemoryManager.cc:43-91 | no run of creations, deletions, reads and writes can tell demand paging from flat arrays of bytes |
| MemoryManagers.MemoryManager.PageFaultHandler | code/vm/MemoryManager.cc:43-91 | the tables changed step by step end up as specified, and valid |
| MemoryManagers.MemoryManager.FindOneElementToSwap | code/vm/SwappingLRU.cc:30-45 | the scan finds the first frame of least weight |
| MemoryManagers.MemoryManager.CreateAddrSpace | code/vm/VirtMemManager.cc:31-56 | refuses exactly beyond the limit on pages ever handed out |
| MemoryManagers.MemoryManager.DeleteAddrSpace | code/vm/VirtMemManager.cc:64-87 | the loop frees every frame of the space |
| MemoryManagers.MemoryManager.TranslateAddress | code/machine/translate.cc:203-280 | the checks in their order, each with its exception; a write marks the entry dirty |
| MemoryManagers.MemoryManager.ReadMemory | code/machine/translate.cc:86-130 | reads after at most one page fault, as specified |
| MemoryManagers.MemoryManager.WriteMemory | code/machine/translate.cc:145-185 | writes after at most one page fault, as specified |
| Journals.UnescapeEscape | code/lib/tut_restartable.h:26-81 | unescaping what was escaped is the identity on every byte string, bytes from 0x80 on included |
| Journals.NoNewline | code/lib/tut_restartable.h:26-51 | escaped text holds no line break |
| Journals.EscapeOf | code/lib/tut_restartable.h:26-51 | letters and digits stand for themselves, any other character becomes a backslash and two characters for its halves |
| Journals.EscapeSplits | code/lib/tut_restartable.h:26-51 | escaping goes character by character |
| Journals.UnescapeIs | code/lib/tut_restartable.h:56-81 | for any text at all: plain characters stay, a backslash takes the next two characters with it, and the text is refused exactly if it ends before that |
| Journals.Escape | code/lib/tut_restartable.h:26-51 | the loop produces the escaped text |
| Journals.Unescape | code/lib/tut_restartable.h:56-81 | the loop inverts it, and fails exactly on a text that ends inside an escape |
| Journals.ReadBackIff | code/lib/tut_restartable.h:86-130 | a written record is read back as it was exactly if its test number is not negative; otherwise it is refused |
| Journals.RecordExample | code/lib/tut_restartable.h:86-100 | one record, byte for byte as it stands in the journal |
| Journals.ReadJournal | code/lib/tut_restartable.h:257-280 | reading any journal gives back exactly the records written, in order, and stops |

## Left out

- `TLBManager` and the build with `USE_TLB`: hits skip the dirty and read-only checks and the call that invalidates an entry passes its arguments in the wrong order, so memory and pages do not stay coherent there.
- Paging: pages past the end of the executable, two threads that share one executable file, and a switch inside the fault handler; the backing file is a sequence of pages at a fixed offset, a file of the host. Over `OpenFiles.OpenFile` only a single write-back is followed (`PageFiles.WriteBackKeepsPagesIff`).
- Paging: the range check on thread ids; address spaces are a map from ids.
- Main memory is modelled frame by frame, so a physical address is a frame and an offset.
- OpenFiles.OpenFile.WriteAt: position plus length is not wrapped at 2^31; `Grow` and the final store are one call each, without another thread in between.
- Two `OpenFile` handles on one file with differing cached headers, concurrent calls of the file system, and crashes between two disk writes: the code disclaims the last two.
- FileSystems.FileSystem.Create: stops where the new directory's `Allocate` is refused; the write-back of its table, whose last bytes come from uninitialised heap memory and which may need a second growth that aborts, is not followed further. A type other than file or directory leaves the result uninitialised in the code and is not modelled.
- FileSystems.FileSystem.Remove: says nothing about what later operations do to a disk whose map has lost sector 0.
- FileTrees.TreeAfterWrite: covers plain files and the pipe; a program that opens a directory as a file and writes to it can destroy the tree.
- FileSystems.FileSystem.ReadPipe: stops where the code would run over the end of the caller's buffer.
- FileSystems.Execute: leaves a file with a part-filled indirect block alone, since its removal destroys the map; directories are not written to as files.
- `List` and `Print` of directories, headers and the whole file system: output only.
- SynchLists.Safety: stated on the step relation; `Monitors.SynchList` gives the same sections as methods on the linked list, each from the return of `Acquire` on.
- Monitors.SynchList.Append: starts when `Acquire` has returned; getting the lock is `Conditions.Lock.TryAcquire` and `RecordHolder`.
- Monitors.SynchList.RemoveFront: starts when `Acquire` has returned, and is one test of the loop; the sleep and the next test are steps of `SynchLists`.
- Monitors.SynchList.Remove: starts when `Acquire` has returned.
- `SynchList::Apply` and `List::Apply`, `findByComp`: they run a caller's function over the items.
- Schedulers.Kernel.Run: the switch of stacks and registers is the change of `currentThread`; thread names, stacks, parent and child lists are not modelled.
- Schedulers.Kernel.Sleep: the idle loop is a state in which only interrupts act.
- Interrupts.Interrupt.OneTick: the yield that a handler asked for is returned to the caller instead of being made inside the method.
- Interrupts.Interrupt.Schedule: tick counts are unbounded integers.
- Networks.PostOfficeInput.PostalDelivery: putting a message into a mailbox is one step (the mailbox is a `SynchList`), and the ASSERT on the length of a message is left out, since a body has no length of its own. The rescheduling of the poll is the free choice of when `CallBack` runs.
- `MailBox::Get` is `RemoveFront` of a `SynchList`; sockets are sequences of packets.
- The rest of the instruction set, `Decode`, and SRL and division, whose results the C++ leaves undefined or wrong in some cases.
- HashTables: buckets are sequences; the linked lists they consist of in the code are modelled in `Lists`.
- Console, UNIX files, debug output, command line, shell, self tests, user programs and coff2noff.
