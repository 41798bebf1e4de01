# XenAccess in Dafny

XenAccess reads the memory and the disk of a guest virtual machine from outside. This project
models the parts of it where a small slip would give wrong answers without a crash, and proves
what they are for:

- **Memory.** The page-table walk of `libxa/xenaccess/xa_memory.c` in both paging modes, the
  address and pid caches of `libxa/xenaccess/xa_cache.c`, and their clients, including the task
  list of a Linux guest that is itself read through the address cache. The walk is proved to be
  IA-32 translation; the caches are proved to be invisible: over any run of requests, every
  answer is that of a walk without a cache, whatever was evicted, overwritten or left dead.
- **Kernel page directory.** The search of `xa_find_kernel_pd`: the HAKMEM bit count, the
  similarity score and the linked list that is filtered in place. The search is proved to find
  the lowest page with the properties it looks for.
- **Disk.** The directory monitor of `libxadisk`: the ext2 parser, the insertion sort, the merge,
  the hash table of watched blocks, and the monitor as a state machine. Over any run, the lines
  reported for a watch replay from the names in the directory when it was set to the names in it
  now, whatever is written elsewhere on the disk, and although the snapshot is replaced only when
  something is reported.
- **Range read.** `zread` of `libxa/tools/pyxa/pyxafs.py`.

Words are natural numbers below a power of two, with `&` and `|` defined bit by bit
(`Bits.dfy`), so wrap-around is written out wherever the C code has it. State that the source
updates in place is state here: the LRU lists, the candidate list and the hash chains are linked
nodes, tables are arrays, and each method is proved against a function on sequences about which
the laws are then proved.

Where a promise fails, the code is kept as it is, the exact condition is proved, and a lemma gives
an input at which it fails:

- An access to a mapped address below 4096 can spoil a cached symbol
  (`Transparency.LowAddressExact`, `CachePitfalls.SpoiledSymbol`), and the empty symbol name
  matches page entries (`Transparency.EmptySymbolExact`, `CachePitfalls.EmptyNameHits`).
- A symbol is not always found after an update for it (`Transparency.SymbolPutGetExact`,
  `CachePitfalls.DeadSymbol`).
- A change of type alone is not reported (`TypedReport.TypedReplayIff`), and an entry that is
  neither a file nor a directory spoils the report (`DirDiff.ReplayIffTyped`,
  `DirDiff.UntypedRemoval`).
- Directory records without an inode, which are not in use, count as names of the directory; a
  deletion that only takes the inode away is not reported (`UnusedRecords.UsedReplayIff`,
  `UnusedRecords.UnseenDeletion`).
- Dropping a watch drops the latest watch of each of its blocks, which may be another one
  (`Unwatch.UnsetDropsIff`, `Unwatch.DropsTheOther`).
- A directory record with a NUL inside its stored name is parsed but not found
  (`Ext2Dir.FindIffParsed`, `Ext2Dir.HiddenByNul`).
- An inode whose number is a multiple of the inodes per group is looked for in the wrong group
  (`Ext2Layout.OffsetIsLocation`, `Ext2Layout.MissedInode`).
- A range read that starts inside an unreadable page and leaves it comes out too long
  (`RangeRead.ZRead`, `RangeRead.TooLong`).
- The second non-zero entry of a page is not checked by the score (`PdScore.ScoreWords`,
  `PdScore.UnpunishedSecond`), and a scoring page 0 hides all other candidates
  (`PdSearch.FindsLowestIff`, `PdSearch.HiddenByPageZero`).

## Files

| file | content |
|---|---|
| `Bits.dfy`, `Common.dfy` | words, options, first matches |
| `PageWalk.dfy`, `Ia32.dfy` | the walk as in C; translation by quotients; refinement, page linearity |
| `LruList.dfy` | the doubly-linked list of both caches |
| `AddressCache.dfy`, `PidCache.dfy`, `CacheLaws.dfy` | the cache operations and what every run of them keeps |
| `LruHistory.dfy`, `LruByKey.dfy` | least recently used, over whole runs: by entry, and by page, symbol and process |
| `Transparency.dfy`, `CachePitfalls.dfy`, `Guest.dfy`, `Instance.dfy` | requests through the caches against requests without |
| `BitCount.dfy`, `PdScore.dfy`, `PdSearch.dfy` | the search for the kernel page directory |
| `DirNames.dfy`, `DirDiff.dfy`, `TypedReport.dfy`, `Ext2Dir.dfy`, `Ext2Layout.dfy` | directory tables, their difference, the words it is reported in, ext2 blocks and inodes |
| `BlockHash.dfy`, `Monitor.dfy`, `DiskMonitor.dfy` | the table of watched blocks, the monitor as a machine and on that table |
| `DirectoryReplay.dfy`, `ReportLines.dfy`, `DiskRuns.dfy`, `UnusedRecords.dfy`, `Unwatch.dfy` | what the report tells, by watch and by path; runs on the table; records not in use; dropped watches |
| `RangeRead.dfy` | the page-by-page read |

## Model

| member | source | states |
|---|---|---|
| `Instance.ServeGuest` | libxa/xenaccess/xa_memory.c:472-560 | for a guest with a circular task list, in both paging modes: any run of requests on a new instance, with the linked lists, the pid cache and the task list read through the address cache, answers with the IA-32 translation of each address by the bytes of memory; of addresses 1..4095 all but kernel accesses to a frame of 4096 or more |
| `Guest.GuestRunIsTransparent` | libxa/xenaccess/xa_memory.c:514-560 | with the page directory of each process given: for any memory, both paging modes, any clock and any run from an empty cache in which no access leaves a symbol with a wrong frame, every answer is the IA-32 translation by the bytes of memory |
| `Transparency.RunIsTransparent` | libxa/xenaccess/xa_cache.c:40-241 | the same from any sound cache state, for any walk that is linear on pages; accesses to 1..4095 included unless they overwrite a symbol with another frame |
| `Transparency.SafeRunIsHarmless` | libxa/xenaccess/xa_cache.c:141-150 | runs whose addresses are 0, at least 4096, unmapped, of a process, or without a frame meet that, from any state |
| `Transparency.AccessVirtIsFresh` | libxa/xenaccess/xa_memory.c:514-560 | one access by address: the cached answer is the fresh one, always; the entries stay sound unless a symbol is overwritten with another frame |
| `Transparency.AccessSymIsFresh` | libxa/xenaccess/linux_memory.c:114-133 | one access by symbol, with its two updates of the cache, likewise |
| `Transparency.AccessFills` | libxa/xenaccess/xa_memory.c:557-559 | what an access answers, for an address and frame from 4096 on, the cache finds then |
| `Transparency.HitVirtIsFresh` | libxa/xenaccess/xa_cache.c:66-98 | frame and offset joined on a hit are the walk of the address asked for |
| `Transparency.HitSymIsFresh` | libxa/xenaccess/xa_cache.c:40-64 | a symbol hit is the walk of the symbol's address |
| `Transparency.SoundUpdateVirt` | libxa/xenaccess/xa_cache.c:139-237 | a page update keeps every entry sound, also when it takes over the page from another pid |
| `Transparency.SoundUpdateSym` | libxa/xenaccess/xa_cache.c:115-154 | a symbol update keeps every entry sound, also when it leaves a dead entry |
| `Transparency.LowAddressExact` | libxa/xenaccess/xa_cache.c:141-150 | after an access to a mapped address in 1..4095 all symbols are still answered right, unless it was a kernel access to a frame of 4096 or more that replaced the frame of the first symbol entry by another one, and then they are not |
| `Transparency.EmptySymbolExact` | libxa/xenaccess/xa_cache.c:50-51 | the empty name is answered right if and only if no live kernel entry carries it |
| `Transparency.SymbolPutGetExact` | libxa/xenaccess/xa_cache.c:115-218 | after an update for a symbol, its pid is answered by the address given, or by the translation if none is given, unless the name had no entry and its page had one: then it is not found |
| `CachePitfalls.SpoiledSymbol` | libxa/xenaccess/xa_cache.c:141-150 | in a guest whose memory repeats one table entry, such as 0x400081: a run of three requests from an empty cache, the last of which gets the frame of address 1 for a symbol |
| `CachePitfalls.EmptyNameHits` | libxa/xenaccess/xa_cache.c:50-51 | in the same guest: a run of two requests, the last of which gets a frame for the empty name |
| `CachePitfalls.DeadSymbol` | libxa/xenaccess/xa_cache.c:141-150 | in the same guest: a cached page, then an update for the mapped symbol on it, after which the symbol does not hit |
| `CacheLaws.RunWellFormed` | libxa/xenaccess/xa_cache.c:100-241 | after any calls: at most 25 entries, page-aligned, non-zero pages and non-empty symbols pairwise distinct |
| `CacheLaws.UpdateWellFormed` | libxa/xenaccess/xa_cache.c:115-237 | one update keeps that, in all its branches |
| `CacheLaws.PutThenGet` | libxa/xenaccess/xa_cache.c:66-98 | from any state, full or not, after a page update every address of the page hits with the stored frame and its own offset |
| `AddressCache.MasksArePageAndOffset` | libxa/xenaccess/xa_cache.c:107-108 | the masks by page size are the page and the offset |
| `AddressCache.CheckCacheSym` | libxa/xenaccess/xa_cache.c:40-64 | the scan of the linked list: first live entry of the name and pid, its time stamp renewed, nothing else changed |
| `AddressCache.CheckCacheVirt` | libxa/xenaccess/xa_cache.c:66-98 | the scan by page, likewise |
| `AddressCache.UpdateCache` | libxa/xenaccess/xa_cache.c:100-241 | the linked list after an update is the specified sequence: overwritten by name, overwritten by page, unchanged, or appended after an eviction |
| `LruList.LruList.FindOldest` | libxa/xenaccess/xa_cache.c:166-172 | the first node with the least time stamp |
| `LruList.LruList.Unlink` | libxa/xenaccess/xa_cache.c:174-200 | all four ways out of the list leave it linked both ways, with exactly that entry gone and the size right |
| `LruList.LruList.Append` | libxa/xenaccess/xa_cache.c:203-237 | the new entry is last, the list linked both ways, the size right |
| `LruList.LruList.Insert` | libxa/xenaccess/xa_cache.c:161-237 | eviction of the oldest when full, then the append |
| `PidCache.CheckPidCache` | libxa/xenaccess/xa_cache.c:263-294 | the list scan for a pid is the specified lookup |
| `PidCache.UpdatePidCache` | libxa/xenaccess/xa_cache.c:296-380 | the list after an update is the specified sequence |
| `PidCache.RunPidsWellFormed` | libxa/xenaccess/xa_cache.c:296-380 | after any calls at most 5 entries, with distinct pids |
| `PidCache.HitIsLastUpdate` | libxa/xenaccess/xa_cache.c:279-380 | over any run, an entry holds the page directory of the last update of its pid |
| `PidCache.PidPutThenGet` | libxa/xenaccess/xa_cache.c:279-380 | from any state, full or not, after an update of a pid other than 0 its page directory is found |
| `LruHistory.StampsAreLastUses` | libxa/xenaccess/xa_cache.c:50-58 | over any run with a clock that does not go back, each time stamp is the time of the entry's latest hit, update or insertion |
| `LruHistory.EvictionIsLeastRecent` | libxa/xenaccess/xa_cache.c:161-201 | over any such run, nothing used strictly later is evicted before something used earlier |
| `LruHistory.PidStampsAreLastUses` | libxa/xenaccess/xa_cache.c:263-277 | the time stamps of the pid cache, likewise |
| `LruHistory.PidEvictionIsLeastRecent` | libxa/xenaccess/xa_cache.c:320-357 | the evictions of the pid cache, likewise |
| `LruByKey.PidStampIsLast` | libxa/xenaccess/xa_cache.c:263-380 | over any run, from the calls and their times alone: the stamp of a pid is the time of the last check or update of it |
| `LruByKey.StampIsLast` | libxa/xenaccess/xa_cache.c:40-241 | over any run without empty names and addresses 1..4095: the stamp of a page or symbol is the time of the last check that found it or update that stored it |
| `LruByKey.OldestIsLeastRecentKey` | libxa/xenaccess/xa_cache.c:161-172 | what would be evicted was used no later than any other page or symbol |
| `Ia32.WalkRefines32` | libxa/xenaccess/xa_memory.c:348-379 | for every memory, by its bytes: the non-PAE walk reports the low 32 bits of IA-32 translation with CR4.PSE set, entries being four bytes, the least significant first |
| `Ia32.WalkRefinesPae` | libxa/xenaccess/xa_memory.c:381-411 | for every memory, by its bytes: the PAE walk reports the low 32 bits of PAE translation when the tables it visits lie below 4 GB, entries being eight bytes, the least significant first |
| `Ia32.Read64IsStored` | libxa/xenaccess/xa_util.c:54-68 | a 64-bit read is the number in eight bytes of memory, the least significant first |
| `Ia32.PresentBit` | libxa/xenaccess/xa_memory.c:165-167 | the present bit of an entry is bit 0 of the byte at its address |
| `Ia32.LookupIsTranslation` | libxa/xenaccess/xa_memory.c:414-425 | in both modes and for every memory, by its bytes, the lookup is a translation by quotients and remainders |
| `Ia32.PageLinear` | libxa/xenaccess/xa_memory.c:174-425 | two addresses of a 4 KB page are both mapped or both not, and go to one frame at their own offsets, for 4 KB, 2 MB and 4 MB pages |
| `Ia32.RebuildFromPage` | libxa/xenaccess/xa_cache.c:83-89 | the page part of one lookup with another offset is the lookup of that other address |
| `Ia32.EntriesInOnePage32` | libxa/xenaccess/xa_memory.c:192-251 | every non-PAE table read lies in one page |
| `Ia32.EntriesInOnePagePae` | libxa/xenaccess/xa_memory.c:174-260 | every PAE read of the pointer table, the directory and a page table lies in one page |
| `Guest.LookupIsLinear` | libxa/xenaccess/xa_memory.c:414-425 | the real lookup has the one property that the caches rely on |
| `Guest.FieldIsTaskField` | libxa/xenaccess/linux_memory.c:65-68 | a field read at a distance from the mapped node is the field of the task struct read by a walk of its own address |
| `Guest.RingIsRead` | libxa/xenaccess/linux_memory.c:65-105 | at every node of the ring the code reads the pid and the address of the page directory pointer of that task |
| `Guest.TaskSearchStep` | libxa/xenaccess/linux_memory.c:52-75 | what one node of the task ring decides from what is read there: not there, found, or not yet |
| `Instance.Instance.GetTaskStruct` | libxa/xenaccess/linux_memory.c:39-80 | on a ring of n distinct mapped nodes the loop ends within n steps with the first node of the pid among all but the one that points back to the start, or nothing; the last node read is in the cache then |
| `Instance.Instance.LinuxPidToPgd` | libxa/xenaccess/linux_memory.c:83-112 | the page directory found through the caches is the one memory holds, and the pid cache is updated with it if the task is found |
| `Instance.Instance.PidToPgd` | libxa/xenaccess/xa_memory.c:495-512 | the pid cache does not change the page directory answered, and holds it then |
| `Instance.Instance.AccessKernelVa` | libxa/xenaccess/xa_memory.c:514-560 | for the kernel: answer and new contents of the linked list are those of the specified access |
| `Instance.Instance.AccessUserVa` | libxa/xenaccess/xa_memory.c:514-560 | on the linked lists: the address used is that of a walk without caches, the cache finds it then, and the instance stays valid; required is only that the access overwrites no symbol with another frame |
| `Instance.Instance.AccessKernelSymbol` | libxa/xenaccess/linux_memory.c:114-133 | the same for a kernel symbol, answer and new contents of the list |
| `Instance.Instance.ServeRun` | libxa/xenaccess/xa_memory.c:472-560 | the same for any run of requests |
| `BitCount.BitcountIsOnes` | libxa/xenaccess/xa_memory.c:693-699 | the HAKMEM formula is the number of set bits, for every 32-bit word |
| `PdScore.ScoreWords` | libxa/xenaccess/xa_memory.c:732-780 | for any test of an entry: the loop computes the number of bit positions on which all non-zero entries agree (0 for fewer than two), less the invalid entries other than the second non-zero one |
| `PdScore.ScorePage` | libxa/xenaccess/xa_memory.c:701-780 | with the code's own test: an entry is invalid that is all ones or whose page, of 2 MB or 4 KB by bit 7, starts above the size of memory |
| `PdScore.ValidEntryIff` | libxa/xenaccess/xa_memory.c:701-725 | the masks of the code are that test, for every entry and size |
| `PdScore.OnesAreAgreements` | libxa/xenaccess/xa_memory.c:759-779 | counting the bits of the two accumulators counts the agreements |
| `PdScore.ScoreBounds` | libxa/xenaccess/xa_memory.c:732-780 | a score is at most 32, and at most 0 without two non-zero entries |
| `PdScore.UnpunishedSecond` | libxa/xenaccess/xa_memory.c:754-766 | a page of 1 and 0xFFFFFFFF and zeros then, the second of which is no valid entry in any memory, that scores 1 |
| `PdSearch.KernelPdChecksum` | libxa/xenaccess/xa_memory.c:786-811 | the sum modulo 2^32 of the first eight entries of the kernel region |
| `PdSearch.KernelPdSelfref` | libxa/xenaccess/xa_memory.c:815-837 | the number of non-zero entries that point to the page itself |
| `PdSearch.Collect` | libxa/xenaccess/xa_memory.c:873-889 | the list holds the scoring pages, ascending, and its end mark |
| `PdSearch.MarkMatches` | libxa/xenaccess/xa_memory.c:905-914 | each node counts the others with its checksum |
| `PdSearch.RemoveUnmarked` | libxa/xenaccess/xa_memory.c:915-937 | the removal in place keeps the marked nodes, in order, linked |
| `PdSearch.FindKernelPd` | libxa/xenaccess/xa_memory.c:840-994 | page offset plus the first survivor, or the page offset alone |
| `PdSearch.FindsLowestIff` | libxa/xenaccess/xa_memory.c:873-993 | what is found is the lowest page that scores above 0, shares a non-zero checksum with another such page and, on Windows, refers to itself, or 0 when there is none: if and only if page 0 does not score, or is such a page, or none is |
| `PdSearch.HiddenByPageZero` | libxa/xenaccess/xa_memory.c:879-897 | a memory of three scoring pages of which page 0 hides the two that are wanted, on both systems |
| `PdSearch.SearchDescribes` | libxa/xenaccess/xa_memory.c:875-876 | the search over given pages has the scores, checksums and references of those pages |
| `DirNames.SortDir` | libxadisk/xadisk_parse.c:48-60 | the sort in place leaves the specified sequence and the rest of the table alone |
| `DirNames.SortCorrect` | libxadisk/xadisk_parse.c:44-60 | sorted in the order of strcmp, the same entries, equal names in their old order |
| `DirNames.LessIsLexicographic` | libxadisk/xadisk_parse.c:56-56 | the order is lexicographic by unsigned bytes |
| `DirDiff.CompareDirs` | libxadisk/xadisk_parse.c:66-110 | the merge fills the result table with the specified changes, op by op, and reports their number |
| `DirDiff.DiffIsExact` | libxadisk/xadisk_parse.c:62-110 | removals are the names of the old table beyond the new one, creations the converse, as multisets |
| `DirDiff.DiffInOrder` | libxadisk/xadisk_parse.c:66-110 | changes come in the order of their names |
| `DirDiff.SortedDiff` | libxadisk/xadisk_parse.c:44-110 | for any two tables as parsed: the exact multiset differences both ways, in order, each with an entry, hence a type, of the table it is about |
| `DirDiff.SortedDiffIsSurplus` | libxadisk/xadisk_parse.c:44-110 | for any two tables and each name: reported as removed are the old table's last entries of that name beyond the number in the new one, and conversely |
| `DirDiff.DiffEmptyIffSameNames` | libxadisk/xadisk_core.c:170-171 | nothing is reported exactly when the names are the same |
| `DirDiff.ReplayDiff` | libxadisk/xadisk_core.c:170-188 | replaying the reported operations turns the old names into the new ones |
| `DirDiff.ReplayIffTyped` | libxadisk/xadisk_parse.c:73-84 | for any two tables as parsed, the report replays, whatever the result table held before, if and only if the entries of each name beyond the number in the other table are files or directories |
| `DirDiff.UntypedRemoval` | libxadisk/xadisk_parse.c:73-77 | the removal of an entry of type 7 that is reported as a creation |
| `TypedReport.ReportSays` | libxadisk/xadisk_parse.c:72-108 | for any two tables and each name with typed surplus: the lines RMFILE, RMDIR, MKFILE and MKDIR of the name number the files and directories in the surplus of the old and of the new table |
| `TypedReport.TypedReplayIff` | libxadisk/xadisk_parse.c:66-110 | replayed over names with their types, the report of a comparison succeeds, and leads to the new table if and only if no name that stays has changed its types |
| `Ext2Dir.ParseBlockDir` | libxadisk/xadisk_parse.c:25-42 | the loop ends and fills the table with the records of the block, in order |
| `Ext2Dir.ParseInvertsEncode` | libxadisk/xadisk_parse.c:20-42 | parsing inverts the encoding of any records |
| `Ext2Dir.FindDir` | libxadisk/xadisk_linux_ext2.c:106-120 | the loop ends with the first record that matches |
| `Ext2Dir.StrnEqualIff` | libxadisk/xadisk_linux_ext2.c:115-115 | the comparison of buffers is that of the C strings in them |
| `Ext2Dir.FindIffParsed` | libxadisk/xadisk_linux_ext2.c:106-120 | for a NUL-free query the search agrees with a search of the parsed table if and only if the first entry of that name is stored with its own length |
| `Ext2Dir.HiddenByNul` | libxadisk/xadisk_linux_ext2.c:114-116 | a block of any size with one record, parsed as "a", that a search for "a" does not find |
| `Ext2Dir.FindParsedIsFirst` | libxadisk/xadisk_parse.c:33-40 | the search of the parsed table is its first entry with the name, nothing exactly when there is none |
| `Ext2Layout.OffsetIsLocation` | libxadisk/xadisk_linux_ext2.c:97-128 | group offset plus offset in the group is the ext2 location if and only if the inode number is not a multiple of the inodes per group |
| `Ext2Layout.MissedInode` | libxadisk/xadisk_linux_ext2.c:157-169 | inode 8192 of 8192 per group: where it is, and where the code looks |
| `BlockHash.RunRefinesStacks` | libxadisk/xadisk_hash.c:61-143 | after any insertions and removals the chains are sorted and in their own bucket, and a look-up finds the node inserted last and not removed, if there is one |
| `BlockHash.SameBucketIff` | libxadisk/xadisk_hash.c:20-23 | two blocks share a bucket if and only if they lie a multiple of the table size apart |
| `BlockHash.InsertPushes` | libxadisk/xadisk_hash.c:62-75 | insertion in a sorted chain pushes on the stack of its block and leaves the others alone |
| `BlockHash.RemovePops` | libxadisk/xadisk_hash.c:90-105 | removal pops it and leaves the others alone |
| `BlockHash.Bucket.Insert` | libxadisk/xadisk_hash.c:61-88 | the relinked chain is the specified one, sorted, and active |
| `BlockHash.Bucket.Remove` | libxadisk/xadisk_hash.c:90-118 | the relinked chain is the specified one, and inactive exactly when empty |
| `BlockHash.Bucket.Check` | libxadisk/xadisk_hash.c:120-143 | the top of the block's stack; the early exit never misses |
| `BlockHash.HashTable.constructor` | libxadisk/xadisk_hash.c:25-36 | 32768 valid empty buckets |
| `BlockHash.HashTable.InsertHash` | libxadisk/xadisk_hash.c:77-88 | over all blocks: one stack is pushed, all others stay |
| `BlockHash.HashTable.RemoveHash` | libxadisk/xadisk_hash.c:107-118 | over all blocks: one stack is popped, all others stay |
| `BlockHash.HashTable.CheckHash` | libxadisk/xadisk_hash.c:129-143 | the latest watch of the block, or null |
| `Monitor.RunReplays` | libxadisk/xadisk_core.c:110-194 | over any run of watches set, dropped and blocks written, for every watch there ever was that was shown files and directories only: its report replays from the names in the first block it was shown to the names in the last, and its snapshot has the latter; other blocks may hold anything |
| `Monitor.StepExplains` | libxadisk/xadisk_core.c:160-194 | one step keeps that, although the snapshot is replaced only when the difference is not empty |
| `Monitor.RunWellFormed` | libxadisk/xadisk_core.c:94-194 | over any run, watches and report lines keep their identities apart |
| `DirectoryReplay.ReachesIff` | libxadisk/xadisk_core.c:162-164 | an operation reaches a watch if and only if its sector, modulo 2^35, is one of the eight of the watched block, and the watch is the latest of it |
| `DirectoryReplay.WatchReplays` | libxadisk/xadisk_core.c:110-194 | a block watched after any run: whatever happens to other blocks, its report replays from the names then to the names in the block last written, to any of its eight sectors |
| `UnusedRecords.RunLeadsWithout` | libxadisk/xadisk_core.c:160-194 | over any run, for every watch: with some names missing from the start the same names are missing in the end, if every block the watch was shown has them, and otherwise the report cannot be replayed |
| `UnusedRecords.UsedReplayIff` | libxadisk/xadisk_core.c:168-171 | the report leads from the names in use at first to the names in use at last if and only if the same names are not in use in both blocks, and every block between has them |
| `UnusedRecords.UnseenDeletion` | libxadisk/xadisk_core.c:168-171 | a watched block of any size, written with the inode of its one file taken away, that is not reported |
| `Unwatch.UnsetDropsIff` | libxadisk/xadisk_core.c:130-142 | dropping the watch of a directory drops a watch of one of its blocks if and only if it is the latest of that block |
| `Unwatch.DropsTheOther` | libxadisk/xadisk_core.c:134-137 | two watches of a block, of which dropping the first drops the second |
| `DirectoryReplay.ReplayInterleaved` | libxadisk/xadisk_core.c:172-188 | reports that replay each for itself replay interleaved, on the sum of the names |
| `DirectoryReplay.DirectoryReplays` | libxadisk/xadisk_core.c:94-194 | the same for all the blocks of a directory together |
| `ReportLines.DirectoryLinesReplay` | libxadisk/xadisk_core.c:172-188 | the same for the printed lines, by the path on them, when no other watch has that path |
| `DiskRuns.RunDisk` | libxadisk/xadisk_core.c:56-196 | any run on the hash table from its initialisation has the state, hence the report, of the machine |
| `DiskRuns.WatchDirectory` | libxadisk/xadisk_core.c:94-194 | the lines that the monitor on its hash table reports with the path of a directory replay from the names in it then to the names in it now |
| `DiskMonitor.XaDisk.SetWatch` | libxadisk/xadisk_core.c:94-127 | on the hash table: the state after the call is that of the machine after one step for each block |
| `DiskMonitor.XaDisk.UnsetWatch` | libxadisk/xadisk_core.c:130-142 | likewise |
| `Monitor.BlockOfIff` | libxadisk/xadisk_core.c:162-162 | the block of an operation is the one whose eight sectors hold its sector |
| `DiskMonitor.XaDisk.Process` | libxadisk/xadisk_core.c:160-194 | one round of the main loop is one step of the machine: for a watched block lookup, parse, sort, comparison, report and replacement in place, for any other block, whatever it holds, nothing |
| `RangeRead.ZRead` | libxa/tools/pyxa/pyxafs.py:75-115 | for all addresses and lengths: the flat bytes, unmapped pages as zero, after as many zeros as are in excess; exact if and only if the first page can be read, the address is aligned or the read ends before the page does |
| `RangeRead.PageIsFlat` | libxa/tools/pyxa/pyxamodule.c:66-89 | one page read gives the flat bytes to the end of the page, for addresses taken to 32 bits |
| `RangeRead.TooLong` | libxa/tools/pyxa/pyxafs.py:89-115 | 0xFFF bytes from an unreadable address 1 come out as 0x1000 |

## Left out

- Xen and system calls (libxc, xenstore, mmap, FIFOs, threads): guest memory is a byte at each address, the disk a block for each number, `time(NULL)` a clock that does not go back.
- Failed reads of page tables, which leave a value unset (`libxa/xenaccess/xa_memory.c:211-215`), and pfn-to-mfn translation: memory is total and pfn is mfn.
- Memory, cr3 and paging mode that change during a run; the swap-entry diagnostics of unmapped Windows pages.
- Windows symbols and processes, export tables, initialisation, `xa_access_user_va_range`, the configuration grammar, System.map scanning, output formatting.
- Path resolution in `xa_linux_ext2_dir`: a watch is given the blocks of its directory and what the disk holds in them.
- Table capacities, `free` and leaks: tables are required to fit (256 entries and 256 operations), and a freed node is forgotten.
- Concurrency of the monitor thread with the calls that set and drop watches: steps follow one another.
- Partial and unaligned writes: an operation brings a whole block; as in the code, its kind (read or write) is not looked at.
- AddressCache.UpdateCache: the answer of `xa_translate_kv2p` comes as the parameter `kv`, because the list code does not depend on how it is computed; the names of symbols count up to 512 characters.
- Transparency.RunIsTransparent: requests for the empty symbol, and accesses that overwrite a symbol with another frame, are excluded, because they do go wrong; LowAddressExact and EmptySymbolExact say exactly when. System.map names are shorter than 200 characters, as its rows are.
- Instance.ServeGuest: kernel accesses to addresses 1..4095 with a frame of 4096 or more are excluded, since whether they spoil a symbol depends on the state of the cache, for which AccessUserVa has the exact condition; symbols and task pointers lie outside 1..4095; a task list that is not circular, on which the C loop need not end, is excluded too.
- Guest.GuestRunIsTransparent: resolving a pid leaves the address cache alone; ServeGuest has it read the task list through the cache.
- LruByKey.StampIsLast: empty names and addresses 1..4095 are excluded, because they stamp the entry of another key.
- LruList.LruList.Unlink: the C code has the list twice, for two entry types; it is modelled once, generically. The fields `prev` and `next` are those of the source, the sequences beside them are ghost.
- Ia32.WalkRefinesPae: tables above 4 GB are excluded, because the code cuts table addresses to 32 bits; LookupIsTranslation covers them as the code behaves.
- PdSearch.FindKernelPd: the address that malloc leaves in the first node is the parameter `unset`; when no page scores it has to be 0, since the C code reads it uninitialised. Memory is at most 0xFFFFF000 bytes, so that the address does not wrap.
- PdSearch.MarkMatches: the score stored in a node and the unused maximum score are not read by the search and nothing is said of them.
- DirDiff.ReplayDiff: the claims over whole runs are about names, since a change of type or inode alone is not seen by the code; TypedReplayIff has types for one comparison.
- Monitor.RunReplays: the blocks shown to the watch hold files and directories only; watched blocks can be walked by the parser and fit the tables. `id` is not printed, it says which watch wrote a line; ReportLines has the claim by path.
- DirectoryReplay.DirectoryReplays: the blocks of the directory are distinct and keep their watch; a directory that gains a block is not followed, by the code neither.
- Ext2Layout.OffsetIsLocation: groups have at most 2^32 bytes, tables lie in their own group, and the last inode of the last group, for which the code reads beyond its array, is excluded; offsets are not cut to 64 bits.
- RangeRead.ZRead: the check for a `None` result is left out, because the read returns bytes or raises an error.
