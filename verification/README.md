# Models of the file system, the memory manager and the thread scheduler

This project models three state-keeping components of the repository and proves what
each of them keeps over every run.

* **RUFS**, the file system of `Level - 4`: an inode table, two allocation bitmaps, 16
  direct and 8 single-indirect block pointers per inode, one-block directories and path
  lookup. Abstractly it is a tree of names whose files are byte sequences
  (`Tree.dfy`, `RufsModel.dfy`, `Rufs.dfy`, `RufsLaws.dfy`).
* **The virtual memory manager** of `Level -3`: a page directory and page tables that
  live as bytes in the same frames as user data, two bitmaps scanned bit by bit, a linked
  translation cache with move-to-front and a stale tail pointer, multi-page reads and
  writes, and the allocator for requests below a page (`Bitmaps.dfy`, `AddressCodec.dfy`,
  `TranslationCache.dfy`, `VmModel.dfy`, `VmLaws.dfy`, `Vm.dfy`, `VmAsWritten.dfy`,
  `SubPage.dfy`).
* **The user-level thread library** of `Level - 2`: linked queues, round robin and the
  multi-level queue with its priority boost, join and blocking mutexes, as a transition
  system of atomic steps and as a class over linked queues, no node of which is in two of
  them (`Queues.dfy`, `QueueTable.dfy`, `SchedulerModel.dfy`, `SchedulerProofs.dfy`,
  `SchedulerRuns.dfy`, `SchedulerEffects.dfy`, `SchedulerAsWritten.dfy`,
  `Scheduler.dfy`).

`Options.dfy` holds the option type and the splicing of sequences all of them use.

In each of them the hard part is an invariant that connects the low-level
representation with a simple abstract state. Every operation is a sequence of elementary
changes, a lemma shows for each change what it does to the abstract state and that it
keeps the invariant, and the methods, which change arrays, linked nodes and fields in
place, are proved against these lemmas.

Constants are those of the shipped configuration: 4 KiB blocks, 1024 inodes and 16384
data blocks; 64 KiB pages, 8-byte entries, 1 GiB of physical and 4 GiB of virtual memory,
512 cached translations; 4 KiB pages for the sub-page allocator. The address codec is
proved for all page sizes. The number of levels, the boost period and the time slice of
the scheduler are parameters.

## Where the code departs from its intent

The main results are about the code with the following repairs. For each departure named
with a member, that member states the exact condition under which the code as written
does what it is meant to do.

* File system: the buffer is not advanced from block to block
  (`RufsLaws.ReadAsWrittenCondition`, `RufsLaws.WriteAsWrittenCondition`); the length of
  every write is added to the size (`RufsLaws.SizeAsWrittenCondition`); the emptiness test
  of `rmdir` looks at a table it has not read (`RufsLaws.RemovalCondition`); the guard of
  `writei` admits inode number 1024 (`RufsLaws.WriteiGuardCondition`), which no caller
  passes, since `Rufs.FileSystem.GetAvailIno` returns numbers below 1024; three loops run
  over 16 indirect pointers where there are 8; a file block index is not bounded.
* Memory manager: a mask is built from the wrong index (`Bitmaps.ClearAsWrittenCondition`);
  `t_free` clears the bits of consecutive frames (`VmLaws.FreedAsWrittenCondition`) and
  checks the range in one page table, reading on behind it
  (`VmAsWritten.FreeCheckCondition`); `t_malloc` goes on with page 0 when no range was found
  (`VmAsWritten.RangeAsWrittenCondition`) and needs a spare frame (`Vm.Memory.TMalloc`
  states when each of them is fatal); `get_next_page` reads its offset at an impossible
  position; deleting a cached translation may drop others
  (`TranslationCache.DeletionCondition`).
* Sub-page allocator: the fit test is off by the skipped byte
  (`SubPage.FitsAsWrittenCondition`); a freed entry looks like an allocation of one byte
  (`SubPage.AcceptsAsWrittenCondition`); the table of allocations has one entry for each
  physical page but is indexed by virtual page.
* Scheduler: deleting the head of a queue reads a cleared link
  (`Queues.DeleteAsWrittenCondition`); one node is linked into two lists
  (`Queues.SharedNodesCondition`, with `Queues.LockAsWritten` and `Queues.UnblockAsWritten`
  for who is cut off and who is woken; in the library every waiter has a node of its own in
  the queue of the mutex); the demotion test is inverted
  (`SchedulerAsWritten.MlfqAsWrittenIsRoundRobin`); `worker_join` only finds ready threads
  (`SchedulerAsWritten.JoinWaits`) and does not recognise the main thread as an earlier
  joiner (`SchedulerAsWritten.JoinerDropped`, `SchedulerAsWritten.SecondJoinLosesMain`); with
  nothing ready the main thread is forced to run
  (`SchedulerAsWritten.ForcingMainBreaksPartition`).

Concrete inputs on which the code as written fails are in `RufsLaws.SizeAsWrittenFails`,
`RufsLaws.RemovalFails`, `VmLaws.FreedAsWrittenFails`, `VmAsWritten.StraddlingInput`,
`SubPage.FitsAsWrittenFails`, `SubPage.AcceptsAsWrittenFails`, `Queues.DeleteAsWrittenFails`,
`Queues.SharedNodeAsWritten` and `SchedulerAsWritten.MainIsLost`.

## Model

| member | source | states |
|---|---|---|
| `Rufs.FileSystem.Write` | Level - 4/rufs.c:1072-1185 | for every offset up to the file size and every length within the maximum file size, a completed write makes the file its old bytes overwritten or extended by the buffer; every other file, all directories and all other ownership are unchanged, and a file with exactly the blocks its size needs stays so; a write that runs out of blocks leaves the size alone, keeps what fits below it, reports as the code does, and leaves every data block marked, those without an owner being lost |
| `Rufs.FileSystem.WriteTurn` | Level - 4/rufs.c:1108-1171 | one block of a write, across the boundary between direct and indirect pointers, allocating on the way: the bytes so far are in place and all other bytes of the file are untouched |
| `Rufs.FileSystem.MapBlock` | Level - 4/rufs.c:1110-1161 | the pointer of a file block is found or allocated, with its indirect block if that is missing too; no byte of any file changes, and it fails only when the block bitmap is full |
| `Rufs.FileSystem.BlockOf` | Level - 4/rufs.c:1014-1052 | the pointer arithmetic over direct pointers, indirect blocks and their entries finds exactly the n-th block of the file, or -1 beyond its last one |
| `Rufs.FileSystem.NewIndirect` | Level - 4/rufs.c:1125-1142 | a fresh indirect block joins the inode without changing any file |
| `Rufs.FileSystem.NewEntry` | Level - 4/rufs.c:1143-1157 | a fresh entry of an indirect block extends the file by one block and changes no bytes |
| `Rufs.FileSystem.PutChunk` | Level - 4/rufs.c:1163-1166 | copying part of the buffer into a block changes exactly those bytes of exactly that file |
| `Rufs.FileSystem.FinishWriting` | Level - 4/rufs.c:1174-1177 | the new size is the larger of the old one and the end of the write, and the contents are then the overwritten file |
| `Rufs.FileSystem.StopWriting` | Level - 4/rufs.c:1114-1153 | giving up in the middle leaves a proper disk with the size it had: the blocks attached so far stay marked, belonging to nothing except those the old inode reaches through its indirect blocks |
| `Rufs.FileSystem.Read` | Level - 4/rufs.c:978-1070 | reading returns byte for byte the requested span of the file, or nothing exactly when it reaches past the end; the branches for missing blocks are never taken |
| `Rufs.FileSystem.WriteThenRead` | Level - 4/rufs.c:978-1185 | a completed write is read back exactly |
| `Rufs.FileSystem.WriteAll` | Level - 4/rufs.c:1103-1177 | after any number of successful writes a file of size s has exactly the blocks below ceil(s/4096) if it started so, and nothing else has changed |
| `Rufs.ExactMeans` | Level - 4/rufs.c:1103-1122 | a file has exactly the blocks its size needs when they have room for it and one block fewer has not |
| `Rufs.FileSystem.CreateWriteUnlink` | Level - 4/rufs.c:882-1272 | creating a file, any successful writes and unlinking it restore both bitmaps, all contents and the meaning of all paths |
| `Rufs.FileSystem.Mkdir` | Level - 4/rufs.c:685-794 | each outcome is told by itself: no parent; a full bitmap, or a new name in a parent with 17 names or more; a name that is there; success in all other cases, in any directory. Success makes exactly the new path resolve to the lowest free inode with the lowest free block, failure changes no path, and no file changes in either case; what a failed call leaves marked is stated for each outcome, and it restores both bitmaps exactly when the parent is missing or the inode bitmap is full |
| `Rufs.FileSystem.Create` | Level - 4/rufs.c:882-955 | as for directories, with an empty file as the new inode and only the inode bitmap needed; failure changes no path and no file, and restores the inode bitmap exactly when the parent is missing or that bitmap is full |
| `Rufs.FileSystem.Rmdir` | Level - 4/rufs.c:796-874 | a directory is removed exactly when it is empty; then exactly its path disappears and its inode and block are free again |
| `Rufs.FileSystem.Unlink` | Level - 4/rufs.c:1187-1272 | exactly the path of the file disappears and exactly its inode, data blocks and indirect blocks become free, although the loops stop at the first -1 |
| `Rufs.FileSystem.ClearBlocks` | Level - 4/rufs.c:1218-1245 | the two loops of unlink clear every block and indirect block of the file once and nothing else |
| `Rufs.FileSystem.ClearIndirect` | Level - 4/rufs.c:1235-1242 | one indirect block: its entries up to the first -1 are all its blocks |
| `Rufs.FileSystem.ClearDataBlock` | Level - 4/rufs.c:79-94 | a block nobody refers to becomes free; no file changes |
| `Rufs.FileSystem.ClearInode` | Level - 4/rufs.c:49-77 | an inode nobody refers to becomes free; no file changes |
| `Rufs.FileSystem.GetAvailIno` | Level - 4/rufs.c:180-204 | the lowest free inode number is marked, and nothing else, or none exactly when all are |
| `Rufs.FileSystem.GetAvailBlkno` | Level - 4/rufs.c:209-231 | the lowest free data block is marked, and nothing else, or none exactly when all are |
| `Rufs.FileSystem.ReadI` | Level - 4/rufs.c:236-257 | reading inode number n finds entry n of the table spread over the inode blocks |
| `Rufs.FileSystem.WriteI` | Level - 4/rufs.c:259-283 | writing inode number n changes entry n of that table and no other |
| `Rufs.FileSystem.DirFind` | Level - 4/rufs.c:289-323 | a name is found exactly when the directory holds it, with its inode |
| `Rufs.FileSystem.DirAdd` | Level - 4/rufs.c:325-374 | a name is added unless it is there already or 17 names are; the directory then holds it beside the old ones |
| `Rufs.FileSystem.DirRemove` | Level - 4/rufs.c:376-412 | exactly the given name goes |
| `Rufs.FileSystem.GetNodeByPath` | Level - 4/rufs.c:417-457 | the component-wise walk returns the inode the path means in the tree, and fails exactly when it means nothing |
| `Rufs.FileSystem.constructor` | Level - 4/rufs.c:462-530 | the fresh file system is a tree of one empty directory with no marked leftovers |
| `Rufs.IsDirectoryEmpty` | Level - 4/rufs.c:162-169 | the scan of the table says whether the directory holds no name |
| `Rufs.TableRoom` | Level - 4/rufs.c:351-373 | a table has an invalid slot exactly while the directory holds fewer than 17 names |
| `Rufs.OutcomeCases` | Level - 4/rufs.c:713-745 | when making a directory or a file reports no parent, no space, an existing name and success |
| `RufsModel.AppendDirect` | Level - 4/rufs.c:1111-1122 | a marked block joining the direct pointers keeps the disk proper and all contents |
| `RufsModel.AppendIndirect` | Level - 4/rufs.c:1143-1157 | a marked block joining an indirect block keeps the disk proper and all contents |
| `RufsModel.AttachIndirect` | Level - 4/rufs.c:1129-1142 | a marked block becoming an indirect block keeps the disk proper and all contents |
| `RufsModel.WriteData` | Level - 4/rufs.c:1163-1166 | writing a data block of a file changes its bytes there, and no other file, pointer or directory |
| `RufsModel.SetTable` | Level - 4/rufs.c:348-368 | writing the table of a directory changes what it holds and nothing else |
| `RufsModel.Unflush` | Level - 4/rufs.c:1114-1153 | when the inode in memory is dropped, the one on disk with the written pointers still makes a proper disk |
| `RufsModel.Release` | Level - 4/rufs.c:1218-1248 | taking an inode out of use keeps the rest of the disk proper with its blocks still marked |
| `RufsLaws.ReferencedOnce` | Level - 4/rufs.c:1110-1161 | every block to which an inode in use refers, as direct pointer, indirect block or entry, lies in the data region, is marked and is referred to from that place only |
| `Tree.OnePath` | Level - 4/rufs.c:417-457 | no inode has two paths |
| `Tree.AddedPath` | Level - 4/rufs.c:736-791 | after adding a leaf exactly the new path has changed its meaning |
| `Tree.AddKeepsTree` | Level - 4/rufs.c:736-791 | adding a leaf keeps the tree: one parent for each inode, all of them reached from the root |
| `Tree.RemovedPath` | Level - 4/rufs.c:861-862 | after removing a leaf exactly its path has lost its meaning |
| `Tree.RemoveKeepsTree` | Level - 4/rufs.c:1258-1259 | removing a leaf keeps the tree |
| `Tree.ParentAvoidsChild` | Level - 4/rufs.c:850-854 | looking up the parent never meets the inode that was just cleared |
| `RufsLaws.ReadAsWrittenCondition` | Level - 4/rufs.c:1054-1060 | the read loop as written returns the span, whatever the buffer held, exactly when the span lies within one block |
| `RufsLaws.WriteAsWrittenCondition` | Level - 4/rufs.c:1163-1177 | the write loop as written overwrites or extends the file with the buffer, whatever it holds, exactly when that goes into one block; the offset is anywhere up to the end of the file |
| `RufsLaws.SizeAsWrittenCondition` | Level - 4/rufs.c:1175-1176 | adding the length gives the size of the overwritten file exactly for appends and empty writes |
| `RufsLaws.SizeAsWrittenFails` | Level - 4/rufs.c:1175-1176 | overwriting the only byte of a file doubles its size as written |
| `RufsLaws.RemovalCondition` | Level - 4/rufs.c:829-840 | removing a directory without looking leaves a tree exactly when it was empty |
| `RufsLaws.RemovalFails` | Level - 4/rufs.c:829-840 | removing a directory that holds one file, as written, leaves a file that no path reaches |
| `RufsLaws.WriteiGuardCondition` | Level - 4/rufs.c:266-275 | of the inode numbers the guard admits, exactly 1024 lies outside the inode blocks; no caller passes it |
| `Bitmaps.Set` | Level - 4/rufs.h:56-58 | the byte operation sets exactly the given bit of the bitmap |
| `Bitmaps.Clear` | Level - 4/rufs.h:60-62 | the byte operation clears exactly the given bit of the bitmap |
| `Bitmaps.Get` | Level - 4/rufs.h:64-66 | the byte operation reads the given bit of the bitmap |
| `Bitmaps.TakeFirst` | Level - 4/rufs.c:192-201 | the lowest clear bit is set, or none when all are set |
| `Bitmaps.FreeList` | Level -3/my_vm.c:695-720 | the byte and bit scan returns the n lowest free frames in order, and none exactly when there are fewer |
| `Bitmaps.FirstFit` | Level -3/my_vm.c:299-330 | the scan returns the lowest start of a free run of max(n,2) pages, and none only when there is no such run |
| `Bitmaps.FirstRunMeans` | Level -3/my_vm.c:299-330 | the run it looks for, bit by bit: clear for the pages asked for (two for one page), and met by a set bit or the end from every lower start |
| `Bitmaps.FreesExact` | Level -3/my_vm.c:702-718 | the list the scan is compared with is exactly the clear bits, in ascending order |
| `Bitmaps.ClearAsWritten` | Level -3/my_vm.c:748-771 | the mask loop to the letter: the bit is cleared when its index is below 8, otherwise nothing is |
| `Bitmaps.ClearAsWrittenCondition` | Level -3/my_vm.c:748-771 | it clears the bit it is asked to clear exactly when that lies in the first byte or was clear |
| `Vm.Memory.TMalloc` | Level -3/my_vm.c:336-389 | the range is the first fit, or starts at page 0 when there is none; no memory, a range with pages in use, a NULL dereference and success are told apart exactly, the dereference happening when data and new tables fit but no spare frame is left; on success exactly the range is added, reading as zero, with exactly the tables it needs; every byte asked for then has its page, with less than a page to spare |
| `Vm.Memory.MapRange` | Level -3/my_vm.c:372-384 | the mapping loop succeeds exactly with frames for the data, the new tables and one spare |
| `Vm.Memory.PageMap` | Level -3/my_vm.c:261-294 | a new table is made when needed, an existing mapping is refused, and otherwise exactly this page is mapped |
| `Vm.Memory.NewPageTable` | Level -3/my_vm.c:274-282 | a table in the first free frame changes no translation and no page |
| `Vm.Memory.TFree` | Level -3/my_vm.c:393-441 | all or nothing, with the check made for each page in its own table: the pages are freed exactly when all of them are mapped, each with its own frame, and nothing else changes; for an aligned range these are exactly the pages that hold a byte of it |
| `Vm.Memory.FreeOne` | Level -3/my_vm.c:432-437 | freeing one page wipes and unmarks its frame, clears its entry and forgets its translation |
| `Vm.Memory.PutValue` | Level -3/my_vm.c:448-512 | the bytes are stored over any number of pages in any frames exactly when all pages are mapped, otherwise no byte changes; no translation changes in either case |
| `Vm.Memory.GetValue` | Level -3/my_vm.c:516-578 | the bytes of the range are returned exactly when all its pages are mapped |
| `Vm.Memory.CheckRange` | Level -3/my_vm.c:477-491 | the checking loop decides whether every page of the range is mapped |
| `Vm.Memory.CopyOver` | Level -3/my_vm.c:493-508 | the copying loop stores the buffer at the address |
| `Vm.Memory.CopyOut` | Level -3/my_vm.c:558-573 | the copying loop fetches the range |
| `Vm.Memory.Translate` | Level -3/my_vm.c:214-252 | the cache never changes the answer: it is what the bare two-level walk finds |
| `Vm.Memory.Lookup` | Level -3/my_vm.c:156-187 | a hit is the current translation and a miss means that the page is not cached |
| `Vm.Memory.constructor` | Level -3/my_vm.c:50-95 | the fresh memory is proper: the directory in frame 0, nothing mapped, nothing cached |
| `Vm.Memory.PutThenGet` | Level -3/my_vm.c:448-578 | what is stored at an address is read back from it |
| `Vm.Memory.MallocThenPut` | Level -3/my_vm.c:336-578 | whatever could be allocated can be filled and read back |
| `Vm.Memory.MallocThenFree` | Level -3/my_vm.c:336-441 | allocating and freeing the same bytes restores mappings, contents and bitmaps except for new page tables |
| `Vm.TranslationsFromLayout` | Level -3/my_vm.c:495-508 | writes to pages change no translation and no bitmap |
| `VmLaws.FetchedAfterStored` | Level -3/my_vm.c:448-578 | reading the range just written returns the written bytes |
| `VmLaws.FetchedElsewhere` | Level -3/my_vm.c:448-578 | a range that shares no byte with the written one reads as before |
| `VmLaws.ReachesByBytes` | Level -3/my_vm.c:477-491 | an access reaches its pages exactly when the page of each of its bytes is mapped |
| `VmLaws.ReachesNothing` | Level -3/my_vm.c:461-475 | an access of no bytes needs the page of its address |
| `VmLaws.PagesForExact` | Level -3/my_vm.c:349-349 | a request takes the least number of pages that has room for it |
| `VmLaws.NewTablesExactly` | Level -3/my_vm.c:274-282 | the new tables of a range are those of the directory entries it needs and that have none |
| `VmLaws.SplitIsExtract` | Level -3/my_vm.c:229-230 | page number, directory index, table index and offset are what extracting the bits of the address gives |
| `VmLaws.PageAccounting` | Level -3/my_vm.c:372-384 | the set physical bits number one plus the page tables plus the mapped pages, and a virtual bit is set exactly when its entry is not NULL |
| `VmLaws.WalkFinds` | Level -3/my_vm.c:237-251 | the walk over the bytes of directory and table finds exactly the mapped pages |
| `VmLaws.FreedAsWrittenCondition` | Level -3/my_vm.c:429-438 | with both defects the physical bitmap is right exactly when the frames are consecutive and their bits lie in the first byte |
| `VmLaws.FreedAsWrittenFails` | Level -3/my_vm.c:429-438 | two pages in frames 3 and 2: freeing from frame 3 on leaves frame 2 marked |
| `VmAsWritten.FreeCheckCondition` | Level -3/my_vm.c:413-427 | all entries the check of t_free reads lie in the page table exactly when the range ends in it or has a hole in it; the verdict is then that of the walk for each page |
| `VmAsWritten.CheckAsWritten` | Level -3/my_vm.c:419-427 | the checking loop to the letter, over the bytes of the table and of the frames behind it |
| `VmAsWritten.CheckFollowsData` | Level -3/my_vm.c:421-427 | where a range goes on behind a table without a hole and the next frame holds a page, what a user wrote to that page decides the check, while the pages that are mapped stay the same |
| `VmAsWritten.StraddlingInput` | Level -3/my_vm.c:421-427 | there is such a memory, with the next page not mapped |
| `VmAsWritten.RangeAsWrittenCondition` | Level -3/my_vm.c:359-372 | the range of t_malloc as written is new exactly when a run was found, or a single page is asked for and page 0 is free |
| `VmAsWritten.MapTakenAsWritten` | Level -3/my_vm.c:373-384 | a turn of the loop of t_malloc over a page in use marks a frame and maps nothing; no layout then explains the bitmap |
| `VmModel.LoadStore` | Level -3/my_vm.c:284-291 | an 8-byte entry reads back what was written, and the other entries of the frame are unchanged |
| `VmModel.WritePageKeeps` | Level -3/my_vm.c:503-503 | writing any content to a mapped page changes no entry of any table and no other page |
| `VmModel.NewTable` | Level -3/my_vm.c:274-282 | linking a cleared frame as a table keeps the memory proper and every page as it was |
| `VmModel.MapPage` | Level -3/my_vm.c:284-291 | filling one entry maps one page, reading as zero, and keeps the memory proper |
| `VmModel.FreePage` | Level -3/my_vm.c:434-437 | clearing frame, entry and both bits unmaps one page and keeps the memory proper |
| `TranslationCache.Tlb.Add` | Level -3/my_vm.c:103-148 | insertion and eviction at the head keep the list acyclic, its keys unique and its length within the counter and the capacity |
| `TranslationCache.Tlb.Check` | Level -3/my_vm.c:156-187 | lookup finds a key exactly when it is there; a hit moves the entry to the front unless head and tail coincide, a miss changes nothing |
| `TranslationCache.Tlb.Arrange` | Level -3/my_vm.c:641-658 | the node moves to the front, unless head and tail coincide |
| `TranslationCache.Tlb.Delete` | Level -3/my_vm.c:792-839 | afterwards no entry for the address is left, whatever the stale tail; what else goes is stated exactly |
| `TranslationCache.DeletionCondition` | Level -3/my_vm.c:823-834 | deletion spares the other entries exactly when the tail pointer is not met before the end of the list |
| `TranslationCache.StaleTailDropsOthers` | Level -3/my_vm.c:802-808 | three insertions, one hit and one deletion empty the list while the counter says two |
| `AddressCodec.LayoutFits` | Level -3/my_vm.c:619-639 | for every page size the three fields fill 32 bits; the directory covers all addresses exactly from pages of 8 KiB on |
| `AddressCodec.ShippedLayout` | Level -3/my_vm.c:619-639 | 64 KiB pages give 16, 13 and 3 bits |
| `AddressCodec.ExtractExact` | Level -3/my_vm.c:660-664 | extracting bits is division and remainder by powers of two |
| `AddressCodec.FormVirtualAddress` | Level -3/my_vm.c:666-693 | the bit-serial loops build the address with the given indices and a zero offset |
| `AddressCodec.FieldsOfForm` | Level -3/my_vm.c:660-693 | extracting the fields of a formed address returns the indices and offset 0 |
| `AddressCodec.FormOfFields` | Level -3/my_vm.c:660-693 | forming the address of the extracted indices and adding the offset returns the address |
| `AddressCodec.NextPageIsNext` | Level -3/my_vm.c:773-790 | the next page has the next page number, also across tables, and there is none exactly after the last |
| `SubPage.SubPages.AllocateShared` | Level -3/my_vm_internal_fragmentation.c:377-385 | the first page with room takes the allocation right behind the space taken and the skipped byte, and leaves the list or grows as the misread offset says; live allocations stay disjoint and inside their page; nothing happens exactly when no page has room |
| `SubPage.SubPages.AllocateFirst` | Level -3/my_vm_internal_fragmentation.c:405-408 | a fresh page starts with one allocation at its beginning |
| `SubPage.SubPages.CheckPartialList` | Level -3/my_vm_internal_fragmentation.c:883-897 | the first page of the list with room is found, or there is none |
| `SubPage.SubPages.AddAllocEntry` | Level -3/my_vm_internal_fragmentation.c:899-918 | the entry is appended to those of its page |
| `SubPage.SubPages.UpdatePartialList` | Level -3/my_vm_internal_fragmentation.c:932-964 | the page leaves the list or its space grows, as the misread offset says |
| `SubPage.MisreadExact` | Level -3/my_vm_internal_fragmentation.c:935-935 | the misread offset is made of the low 9 bits of the page number and the top 3 of the offset |
| `SubPage.SubPages.IsPartPageValid` | Level -3/my_vm_internal_fragmentation.c:1015-1032 | an access is valid exactly when some live allocation holds every byte of it, or on a page without a list |
| `SubPage.SubPages.FreePartPage` | Level -3/my_vm_internal_fragmentation.c:1034-1064 | the live allocation that holds every byte of the range becomes free and no other entry changes; the page is handed back exactly when that was the only live one |
| `SubPage.SubPages.DeletePartialNode` | Level -3/my_vm_internal_fragmentation.c:1066-1088 | exactly the entries of the page leave the list |
| `SubPage.WithoutPageAt` | Level -3/my_vm_internal_fragmentation.c:1066-1088 | the one entry of the page is taken out and the others keep their order |
| `SubPage.LastLive` | Level -3/my_vm_internal_fragmentation.c:1043-1063 | no live allocation is left exactly when the freed one was the only one |
| `SubPage.NoSharedByte` | Level -3/my_vm_internal_fragmentation.c:883-918 | two live allocations never share a byte of memory |
| `SubPage.FitsAsWrittenCondition` | Level -3/my_vm_internal_fragmentation.c:890-891 | an allocation the loose test admits stays inside the page exactly when it does not fill it by its own count |
| `SubPage.FitsAsWrittenFails` | Level -3/my_vm_internal_fragmentation.c:890-891 | an allocation that fills its page by the loose count runs one byte over it |
| `SubPage.AcceptsAsWrittenCondition` | Level -3/my_vm_internal_fragmentation.c:1024-1031 | the test as written is right unless one byte at offset 0 is asked for after a free and no live allocation starts the page |
| `SubPage.AcceptsAsWrittenFails` | Level -3/my_vm_internal_fragmentation.c:1024-1031 | after the first of two allocations is freed, its first byte is still accepted |
| `Queues.Queue.Enqueue` | Level - 2/worker.c:666-684 | the thread is appended to the sequence the queue stands for |
| `Queues.Queue.Pop` | Level - 2/worker.c:686-700 | the first thread is removed and returned |
| `Queues.Queue.Delete` | Level - 2/worker.c:702-731 | the first occurrence of the thread is unlinked and returned, and the other nodes keep their order |
| `Queues.Queue.DeleteAsWritten` | Level - 2/worker.c:702-731 | the code to the letter: deleting the head of a longer queue loses all others |
| `Queues.DeleteAsWrittenCondition` | Level - 2/worker.c:712-721 | deletion as written keeps the others exactly when the thread is not at the head of a longer queue |
| `Queues.DeleteAsWrittenFails` | Level - 2/worker.c:712-721 | with two threads in the queue, deleting the first loses the second |
| `Queues.SharedNodesCondition` | Level - 2/worker.c:300-307 | the nodes a mutex queue shares with the waiting queue make it a proper queue exactly when its waiters are the last sleepers, in order |
| `Queues.LockAsWritten` | Level - 2/worker.c:300-307 | with one node for both queues, blocking cuts off the waiting queue whoever fell asleep after the last waiter of the mutex, and so nobody exactly when the mutex had no waiter or that one is the last sleeper |
| `Queues.UnblockAsWritten` | Level - 2/worker.c:612-645 | unlocking over shared nodes wakes the first waiter and everybody who fell asleep after it, and so exactly the waiters under the condition of SharedNodesCondition |
| `Queues.SharedNodeAsWritten` | Level - 2/worker.c:300-307 | with one node in two lists a mutex queue reaches threads that wait for something else |
| `QueueTables.Table.OneQueue` | Level - 2/worker.c:666-731 | in the library no node is linked into two queues |
| `QueueTables.Table.Push` | Level - 2/worker.c:666-684 | enqueueing in one queue leaves all others alone and keeps the nodes apart |
| `QueueTables.Table.Pop` | Level - 2/worker.c:686-700 | so does popping, which returns the first node unlinked |
| `QueueTables.Table.Remove` | Level - 2/worker.c:702-731 | so does deleting a thread from the middle of a queue |
| `QueueTables.Table.Clear` | Level - 2/worker.c:607-610 | so does emptying a queue, whose nodes are given up |
| `SchedulerProofs.StepKeeps` | Level - 2/worker.c:379-543 | every create, yield, block, unlock, join and exit keeps the partition of the threads and the mutex discipline |
| `SchedulerProofs.RunKeeps` | Level - 2/worker.c:379-543 | so does every run |
| `SchedulerRuns.Partition` | Level - 2/worker.c:411-470 | each live thread is in exactly one of running, the queue of its priority and the waiting queue, as its status says |
| `SchedulerRuns.BoundedWaiting` | Level - 2/worker.c:411-470 | a thread at position k moves up one place with each scheduler call and does not run before its turn, whatever is created or woken |
| `SchedulerRuns.DispatchedInTurn` | Level - 2/worker.c:411-470 | exactly the (k+1)-th call dispatches the thread at position k |
| `SchedulerRuns.BoostMerges` | Level - 2/worker.c:505-510 | the call that completes a boost cycle merges all levels in order into the front queue |
| `SchedulerRuns.BoostReaches` | Level - 2/worker.c:821-841 | at a boost every ready thread runs at once or has fewer threads before it than are alive |
| `SchedulerRuns.NoStarvation` | Level - 2/worker.c:484-510 | with at most n live threads every ready thread of any level runs before the boost cycle in progress and n further calls are over |
| `SchedulerRuns.StaysReady` | Level - 2/worker.c:473-543 | a ready thread stays ready until it runs |
| `SchedulerRuns.MutualExclusion` | Level - 2/worker.c:278-326 | until its owner unlocks it a mutex keeps that owner over every run, and everybody else is put to sleep |
| `SchedulerRuns.HolderKeeps` | Level - 2/worker.c:329-357 | only the unlock of the owner ends its tenure |
| `SchedulerRuns.NoLostWaiter` | Level - 2/worker.c:300-307 | a thread sleeping for a mutex is in its wait queue, and the mutex is locked |
| `SchedulerRuns.UnlockWakesAll` | Level - 2/worker.c:612-645 | a successful unlock makes every waiter ready in wait order and leaves every other sleeper alone |
| `SchedulerEffects.SchedulerServes` | Level - 2/worker.c:473-543 | every pass through the scheduler merges the levels when a boost is due and then runs the first thread of the lowest level that has one; no sleeper and no mutex changes |
| `SchedulerEffects.FlatAt` | Level - 2/worker.c:825-838 | merging puts the levels one behind the other, each in its own order |
| `SchedulerEffects.ExitReleases` | Level - 2/worker.c:424-426 | after an exit the thread is gone, of the sleepers exactly its joiner has left the waiting queue, which is ready or runs, last in its level when the scheduler is entered; all others keep their order and their entries |
| `SchedulerEffects.YieldRequeues` | Level - 2/worker.c:484-503 | a yielding thread has its time added up and comes last in its level, or in the next lower one with its time reset when it used up its slice and there is one |
| `SchedulerEffects.JoinSleepsOrReturns` | Level - 2/worker.c:226-258 | join either changes nothing or puts the caller to sleep as the joiner of its target |
| `SchedulerEffects.LockCases` | Level - 2/worker.c:291-322 | a free mutex becomes the caller's, which runs on; one held by another thread puts the caller to sleep, last in its queue; otherwise nothing changes |
| `SchedulerEffects.NewMutexIsFree` | Level - 2/worker.c:261-275 | a new mutex is free with nobody waiting |
| `SchedulerEffects.UnlockCases` | Level - 2/worker.c:329-357 | the owner's unlock frees the mutex and wakes all its waiters in order, any other changes nothing |
| `SchedulerEffects.CreateAppends` | Level - 2/worker.c:134-173 | a new thread with an unused id comes last in level 0 |
| `Scheduler.Library.BoostPriority` | Level - 2/worker.c:821-841 | the pop and enqueue loops over the linked queues compute the merged queues |
| `Scheduler.Library.DispatchNext` | Level - 2/worker.c:551-559 | the first node of the first non-empty level is popped and its thread runs |
| `Scheduler.Library.UnblockThreads` | Level - 2/worker.c:612-645 | the walk along the nodes of the wait queue wakes the waiters one by one in order |
| `Scheduler.Library.Sched` | Level - 2/worker.c:473-543 | boost and dispatch over the linked queues refine the scheduler step |
| `Scheduler.Library.Create` | Level - 2/worker.c:134-173 | creation refines its step, returns a new thread and queues a new node |
| `Scheduler.Library.Yield` | Level - 2/worker.c:183-194 | yield and tick refine their step, with demotion; the node goes from the processor to its run queue |
| `Scheduler.Library.Exit` | Level - 2/worker.c:197-213 | exit refines its step: the thread is gone and the node of its joiner, and of nobody else, goes from the waiting queue to its run queue |
| `Scheduler.Library.Join` | Level - 2/worker.c:226-258 | join refines its step, with its search along the run queues: nothing changes, or the caller sleeps as the joiner of its target |
| `Scheduler.Library.MutexInit` | Level - 2/worker.c:261-275 | a new mutex gets a queue of its own |
| `Scheduler.Library.constructor` | Level - 2/worker.c:792-819 | the fresh library is the initial state, with the main thread running |
| `Scheduler.Library.Lock` | Level - 2/worker.c:278-326 | one round of the lock loop refines its step: it succeeds exactly when the mutex was free or the caller's own, and takes it; a blocked thread is in the waiting queue and, with another node, last in the queue of the mutex |
| `Scheduler.Library.Unlock` | Level - 2/worker.c:329-357 | unlock refines its step, empties the queue of the mutex and succeeds exactly for the owner |
| `SchedulerAsWritten.MlfqAsWrittenIsRoundRobin` | Level - 2/worker.c:494-498 | with the demotion test as written every multi-level run is, state by state, the round robin run of the same calls |
| `SchedulerAsWritten.MlfqAsWrittenFromStart` | Level - 2/worker.c:484-510 | in particular every multi-level run from the initial state is the round robin run of the same calls |
| `SchedulerAsWritten.DemotionReadings` | Level - 2/worker.c:494-494 | the test as written succeeds on no level, the intended one on all but the last |
| `SchedulerAsWritten.JoinWaits` | Level - 2/worker.c:234-257 | joining another live thread waits exactly when nobody joined it before and, as written, it is ready |
| `SchedulerAsWritten.JoinerDropped` | Level - 2/worker.c:247-251 | a step of another thread takes away the registered joiner of a live thread exactly when it joins that thread with success and the joiner is the main thread |
| `SchedulerAsWritten.SecondJoinLosesMain` | Level - 2/worker.c:247-251 | a second join of the target of the main thread leaves the main thread asleep, with nobody to wake it, and it never runs again in any run |
| `SchedulerAsWritten.LostForever` | Level - 2/worker.c:647-664 | a sleeper that is nobody's joiner and waits for no mutex stays so over every run and never runs |
| `SchedulerAsWritten.MainIsLost` | Level - 2/worker.c:226-258 | two creations, a join, a yield and a second join from the initial state lose the main thread |
| `SchedulerAsWritten.ForcingMainBreaksPartition` | Level - 2/worker.c:438-445 | forcing the main thread to run when nothing is ready never gives a proper state |

## Left out

- Rufs.FileSystem.Mkdir: names longer than the 207 characters a directory entry holds overflow a buffer in the source and are not modelled.
- Rufs.FileSystem.GetNodeByPath: paths come as components without "." and ".."; splitting strings is not modelled. A component that leads through a file is excluded, as the kernel checks it before the call.
- Rufs.FileSystem.Unlink: unlinking a directory and removing a file with rmdir are excluded, as the kernel checks the kind before the call.
- Rufs.FileSystem.Write: the end of the write lies within 8208 blocks; beyond that the source indexes past its pointer table.
- Vm.Memory.TMalloc: the number of pages is the integer ceiling; the source divides as float, which can lose a page for requests from 16 MiB on. A range with pages in use is reported and not followed further than one turn of the loop (VmAsWritten.MapTakenAsWritten).
- Vm.Memory.TFree: it walks the tables for each page. Of the source's walk behind a table the check is modelled (VmAsWritten), not what freeing such a range destroys.
- VmAsWritten.CheckAsWritten: the loop as a method stays inside the memory; the statements about it (VmAsWritten.FreeCheckCondition) take whatever lies behind the memory as unknown entries.
- Vm.Memory: page sizes other than the shipped 64 KiB; only the address codec and its layout are proved for all of them.
- Vm.Memory.PutValue: a negative size is excluded. Pages and frames are numbers with offsets, and casts and overflow of addresses are not modelled.
- SubPage.SubPages.AllocateShared: zero-byte requests are excluded, for which the source records an empty range.
- SubPage.SubPages.FreePartPage: only the sub-page layer is modelled, not the loop of t_free around it; the table of allocations is a map, so that its size does not matter.
- Scheduler.Library.Lock: lock and unlock are atomic steps, although the source leaves preemption on in them; a thread returning from the wait takes its next step as a new attempt.
- Queues.LockAsWritten: the tail pointer of the waiting queue is known, as enqueue leaves it.
- Scheduler.Library.Sched: when no thread is ready the model stays without a running thread instead of forcing the main thread.
- Real signals, timers, contexts, stacks and the turnaround and response averages; the time a thread has run is an input of the steps.
- The superblock and the bitmap blocks as bytes on disk, and reading an existing disk at start-up: the regions of the disk are separate arrays.
- Blocks as raw memory: a block holds bytes, pointers or directory entries according to its last write.
- Timestamps, owners, link counts beyond their initial value, `getattr`, `open`, `readdir` and the FUSE plumbing: they decide none of the results.
- The locks of the file system and the memory manager, including two returns that keep the lock: each call is one atomic operation.
- `mat_mult`: it only calls get and put.
- Memory leaks, printing, the hit and miss counters, benchmarks and the exercises of `Level - 1`.
