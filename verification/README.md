# Simple Object Store: a verified model

The store presents a volume as one flat disk of `nb_objects * object_size` bytes and keeps it in one
file per object. A request is cut into pieces, each piece is mapped from object index to OID to path,
and moved by loops over `pread64`/`pwrite64` that may transfer fewer bytes than asked. Above that sit
the table of logical units (LUNs) and the SCSI commands of the tgt back end. This project models those
layers and proves what they do to the flat disk.

| file | what it models |
|---|---|
| `Arithmetic.dfy`, `Bytes.dfy` | products and quotients; buffers, files with zero fill, overlays, bitwise or |
| `Naming.dfy`, `Truncation.dfy` | the OID counter, hexadecimal text, the path builders; what cutting long paths short does |
| `FileSystem.dfy` | names, inodes and descriptors, and the system calls as nondeterministic steps |
| `Placement.dfy` | the data-placement map |
| `Geometry.dfy` | address arithmetic, the pieces of a request, the flat disk of a collection |
| `ObjectOps.dfy`, `Recaching.dfy`, `ObjectStore.dfy` | transfer loops, fetching and reopening, the handle cache, `osd_op_read`, `osd_op_write`, `osd_free_collection` |
| `History.dfy` | whole runs of one store against a flat disk |
| `CacheFaults.dfy` | how the handle cache comes to serve the wrong file |
| `FetchProtocol.dfy` | concurrent fetchers and writers under the striped mutexes |
| `LunTable.dfy`, `BlockIo.dfy` | tagged pointers, open and close, dispatch and the unformatted flag, whole runs over many units |
| `Scsi.dfy` | READ, ORWRITE, COMPARE AND WRITE, WRITE, VERIFY, WRITE AND VERIFY, WRITE SAME (SBC-3, INCITS 514, clause 5) |
| `Lists.dfy` | the intrusive circular list |

## Conventions

- A system call may fail at any time; a transfer may be short. `errors` counts failing calls, and `troubles`
  the calls of `stat` that fail for a file that is there, so "an error has a cause" can be said: a failing call,
  or an object in range without a node (`Denied`) whose file is not there or was not seen. `badCloses` counts
  closes of descriptors that are not open, so "exactly one close attempt" can be said.
- A read at the end of a file returns 0, and the loop of `simpleOSD_obj_read` then repeats the same call
  for ever. The model ends such a run with the outcome `Stuck` (`Hung` for a command). `Intact` says that
  no object file is shorter than its object; a stuck read is possible only when that is false.
- `Store` has a flag `recache` for the compile-time switch `RECACHE_FD_ENABLED`. Both variants are proved
  against the same contract. Operations report the `stage` at which `osd_recache_object` gave up and whether
  that left a cache slot wrong (`breach`); the code knows the first and not the second.
- An absent object counts as zeros, and so does the part of a short file that is missing.
- Reads and writes are proved for collections with `object_size > 0`, `nb_objects <= 2^31`,
  `nb_objects * object_size < 2^64` and paths that are not truncated; requests satisfy
  `offset + len < 2^64`. The host is little-endian. Collections share one `dc_path`.
- The table of units is that of the default build, without the handle cache. Memory that `malloc` returns for
  a unit counts as zeros.
- `hide F;` in a proof keeps the definition of `F` from the solver where it is not needed.

## Where the code falls short of the plain statement

Each of these is proved with its exact condition:

- A request that crosses an object boundary and ends at the last byte of the disk is refused
  (`Geometry.LocateIffAccepts`, `Geometry.LastByteAcrossObjectsRefused`).
- When paths are cut, two objects of a volume share a path as soon as there are `Truncation.AliasFrom` objects,
  a number that depends on how much of the path is left and on the first OID. It is above 2^32 while OID byte 9
  is left, and between 65537 and 131073 if less is, but both level directories are
  (`Truncation.IndexPathsDistinctIff`).
- The handle cache becomes incoherent exactly when the close inside `osd_recache_object` fails, or its
  placement lookup or fetch fails while the object's file exists, unless handle 0 is that very file
  (`ObjectStore.Store.RefillSlot`). What follows is in `CacheFaults.FailedCloseAliasesObjects` and `CacheFaults.FailedFetchLeavesHit`. `osd_free_collection`
  keeps object indices in slots whose handle it sets to 0 (`CacheFaults.FreedSlotsStillHit`).
- A thread's first look at a file is outside the mutex, so it can meet a file that is created and not yet
  allocated (`FetchProtocol.EarlyReaderMeetsEmptyFile`). A read inside an object can come back empty exactly
  while its file is short (`FetchProtocol.EmptyReadsExplained`, `FetchProtocol.ShortFileCanBeReadEmpty`).
- WRITE SAME ends if and only if the transfer length is a multiple of the block size
  (`Scsi.WriteSameEndsIff`).
- `ret`, -1 on failure, is compared with an unsigned 32-bit length: a failure goes unnoticed exactly at length
  2^32 - 1 (`Scsi.TakenForSuccess`, and what `Scsi.ReadStep` and `Scsi.WriteStep` say of `medium` and `status`).
  What the commands then do is in their contracts, which tell by `served` and `written` what the unit really did.
- An open whose metadata have no object size fails and leaves a unit that answers every read and write with
  success and does nothing (`BlockIo.BlkRead`, `BlockIo.BlkWrite`).

## Model

| member | source | states |
|---|---|---|
| Naming.GetIndexToObject | src/simpleOSD_osd_op.c:77-111 | the two byte loops rebuild exactly `OidAt`: first eight bytes kept, counter advanced |
| Naming.CounterOfOid | src/simpleOSD_osd_op.c:94-107 | the last four bytes, most significant first, are those of the first OID plus the index modulo 2^32; the prefix is kept |
| Naming.OidInjective | src/simpleOSD_osd_op.c:94-107 | below 2^32, different indices give different OIDs |
| Naming.FitsIff | src/simpleOSD_osd_helper.c:77-85 | a data path is not cut if and only if root and name have fewer than 4096 - 49 characters together |
| Naming.DataPathInjective | src/simpleOSD_osd_helper.c:67-88 | without truncation a data path determines volume name and OID, for any characters in the name |
| Truncation.SameIndexPathIff | src/simpleOSD_osd_helper.c:77-85 | two objects of a volume have the same path, cut or not, if and only if their counters agree in the digits that are left |
| Truncation.IndexPathsDistinctIff | src/simpleOSD_osd_helper.c:77-85 | for any root, name, first OID and number of objects: the paths of a volume are distinct if and only if there are fewer objects than `AliasFrom`; always up to 256, 65536 or 2^32 objects while the first directory, both, or OID byte 9 are left |
| Naming.OidToStrRoundTrip | src/simpleOSD_helper.c:74-89 | decoding the hexadecimal text of an OID gives the OID back |
| Naming.OidToStrUpper | src/simpleOSD_helper.c:74-89 | the text is digits and upper-case letters A to F |
| Naming.BuildersAgree | src/simpleOSD_helper.c:92-124 | the two path builders name the same data file |
| Naming.PathsSpelledOut | src/simpleOSD_helper.c:46-56 | the fixed parts of the three kinds of path |
| Naming.KindsDisjoint | src/simpleOSD_helper.c:46-56 | data, fetch and backup paths never meet, for any volumes and OIDs |
| Placement.NodeOfIndex | src/simpleOSD_mds_helper.c:54-77 | finds the first node with `start_oid <= index <= start_oid + range`, and none if and only if there is none |
| Placement.GenerateMap | src/simpleOSD_mds_helper.c:118-142 | fills the map with starts `l*T/N` and ranges `T/N`, for any numbers of objects and nodes |
| Placement.StartOfIs | src/simpleOSD_mds_helper.c:123-123 | a start times N is at most `l*T`, and less than N below it |
| Placement.EvenMapCovers | src/simpleOSD_mds_helper.c:120-139 | every object below T has a node, also when N does not divide T |
| Placement.AtMostTwoMatch | src/simpleOSD_mds_helper.c:63-71 | with non-empty ranges two matching nodes are neighbours, so at most two match |
| Geometry.LocateIffAccepts | src/simpleOSD_osd_op.c:247-269 | the range tests with their 64-bit sums accept exactly the requests of `Accepts`, and locate first and last byte |
| Geometry.LastByteAcrossObjectsRefused | src/simpleOSD_osd_op.c:213-218 | a request up to the last byte is served if and only if it stays within the last object |
| Geometry.PlanPartitions | src/simpleOSD_osd_op.c:271-343 | the pieces of an accepted request follow each other from first to last byte, none crosses an object boundary, every index is in range |
| Geometry.TilesPartition | src/simpleOSD_osd_op.c:311-331 | such pieces hold every byte of the range and no byte twice |
| Geometry.CrossingEnd | src/simpleOSD_osd_op.c:257-272 | the loop stops at `end_object_index + (end_local_offset > 0 ? 1 : 0)`, which the code computes and never uses |
| Geometry.LaidOnDisk | src/simpleOSD_osd_op.c:437-451 | a write inside one object's file is that write on the flat disk, because files do not alias |
| Geometry.VolumesApart | src/simpleOSD_osd_helper.c:67-88 | a change confined to one volume's object files leaves the disk of a volume with another name as it was |
| ObjectOps.ResetCacheObject | src/simpleOSD_osd_op.c:57-75 | gives up handles above the reserved numbers, once, and leaves an empty record or one without a handle |
| ObjectOps.ObjWrite | src/simpleOSD_obj_op.c:80-110 | for all short counts: on success the whole range is laid in the open file; on failure a prefix, and the handle is given up once |
| ObjectOps.ObjRead | src/simpleOSD_obj_op.c:49-79 | for all short counts the buffer holds a prefix of the file's range, all of it on success; stuck only at the end of the file |
| Recaching.GetObjectToDc | src/simpleOSD_fetch_helper.c:51-91 | no path shows another byte, no file shrinks or is rebound, a new file gets full length on success, and its descriptor stays open; a file that is there and seen is left alone |
| Recaching.FetchIfAbsent | src/simpleOSD_osd_op.c:156-181 | a file that is there and seen needs no node and nothing changes; without a node it fails only if the file is not there or not seen |
| Recaching.RecacheObject | src/simpleOSD_osd_op.c:113-195 | on success the record's handle refers to the object's file; for each failing step what is left in the record and which handle is gone; no node is missed for a file that is there and seen |
| ObjectStore.Store.Acquire | src/simpleOSD_osd_op.c:276-309 | the record for an object serves that object's file or fails all transfers; a hit is taken, with nothing changed, unless `stat` fails for an existing file; the cache stays coherent unless a named step failed |
| ObjectStore.Store.RefillSlot | src/simpleOSD_osd_op.c:113-195 | the whole cache afterwards, by the step reached; coherence is lost exactly when the close failed, or lookup or fetch failed with the file in place |
| ObjectStore.ReplacedCacheOk | src/simpleOSD_osd_op.c:276-309 | recaching one slot keeps every other slot right and the handles distinct |
| ObjectStore.EvictedCacheOk | src/simpleOSD_osd_op.c:292-294 | deleting an object's file behind the cache leaves it coherent |
| ObjectStore.Store.Finish | src/simpleOSD_osd_op.c:318-341 | after a failed transfer both layers reset, yet one close is attempted and the slot ends up empty; after success the handle is kept, or closed without a cache |
| ObjectStore.Store.Read | src/simpleOSD_osd_op.c:228-351 | success returns exactly the disk's slice; failure a prefix of it in the buffer; no byte of any file changes, and only own objects' files are created; refused requests change nothing; an accepted request fails only by a failing call or an object in it that is denied |
| ObjectStore.Store.Write | src/simpleOSD_osd_op.c:353-470 | success lays exactly the buffer on the disk, failure a prefix of it, nothing else in the file system shows a change, and only own objects' files are created; pieces are those of the plan; an accepted request fails only by a failing call or an object in it that is denied |
| ObjectStore.Store.FreeCollection | src/simpleOSD_osd_op.c:471-497 | reaches every slot ever used, also of a cache that a failed lookup or fetch broke: afterwards it holds no handle above the reserved numbers and every open one is accounted for |
| ObjectStore.EvictedDisk | src/simpleOSD_osd_op.c:156-181 | a deleted object reads as zeros and nothing else changes |
| CacheFaults.ReusedNumberAliases | src/simpleOSD_osd_op.c:276-300 | a slot with a dead handle number, once the number is another object's, is taken for its own object's and reads that other file |
| CacheFaults.FailedCloseAliasesObjects | src/simpleOSD_osd_op.c:119-127 | from a coherent cache: a recaching whose close fails, then an `open` of another object that returns the number, reach such a slot |
| CacheFaults.FailedFetchLeavesHit | src/simpleOSD_osd_op.c:154-181 | after a lookup or fetch that failed with the file in place, the slot is taken for the new object's with handle 0, and right only if standard input is that file |
| CacheFaults.FreedSlotsStillHit | src/simpleOSD_osd_op.c:485-494 | after the free every slot that held a handle is still taken for a hit while its file exists, with handle 0, and right only if standard input is that file |
| History.Run | src/simpleOSD_osd_op.c:228-470 | every run of reads, writes and deletions, cached or not, is a run of a flat disk, through refused requests and failed transfers; it ends early only at a stuck read or a request that left the cache wrong; without failing calls and short files every request in range succeeds, if each object has a node or a file that is seen and not deleted |
| History.CoveredIsProvided | src/simpleOSD_mds_helper.c:63-71 | a placement map that covers the volume provides for every object, whatever is deleted |
| History.RunAndFree | src/simpleOSD_osd_op.c:318-341 | after a run, failed requests included, and the free, no handle of `osd_recache_object` above the reserved numbers is open and none was closed twice; only a stuck read or a failed close keeps the free from being reached |
| History.ReadSeesLastWrite | src/simpleOSD_osd_op.c:228-470 | in every run a successful read returns, byte by byte, what the last successful write put there |
| History.DroppedObjectReadsZero | src/simpleOSD_fetch_helper.c:75-84 | after a deletion and until the next write the object reads as zeros |
| History.VariantsAgree | src/simpleOSD_osd_op.c:276-309 | runs with and without the handle cache in which every write in range succeeded have the same disk, and the same answer to every read that succeeded in both, whatever other reads failed |
| FetchProtocol.MutualExclusion | src/simpleOSD_fetch_helper.c:73-85 | in every interleaving at most one thread is between lock and unlock for indices equal modulo 256, so for a file |
| FetchProtocol.LockFreeIff | src/simpleOSD_fetch_helper.c:74-74 | in every interleaving a waiting thread may lock if and only if no thread holds for an index equal modulo 256 |
| FetchProtocol.NoLostBytes | src/simpleOSD_fetch_helper.c:75-84 | in every interleaving each file shows exactly what all writes left, because create does not truncate and allocate only grows |
| FetchProtocol.WrittenByteStays | src/simpleOSD_fetch_helper.c:75-84 | in every run a byte that a thread wrote is what the file shows until some thread writes it again |
| FetchProtocol.OpenersHaveFiles | src/simpleOSD_osd_op.c:156-191 | in every interleaving a thread about to open its file finds it there |
| FetchProtocol.FetchEnds | src/simpleOSD_osd_op.c:176-191 | in every interleaving, after unlocking a thread whose fetch succeeded can open and use its file, and one whose fetch failed gives up |
| FetchProtocol.SeenNotCreated | src/simpleOSD_fetch_helper.c:75-84 | in every run a thread that saw the file, outside the lock or inside, neither creates nor allocates nor locks before it starts on another |
| FetchProtocol.FetchSucceeds | src/simpleOSD_fetch_helper.c:74-85 | if all its calls succeed a thread fetches an absent file in eight calls and uses it, of full length and zero; the mutex is free again and no other file differs |
| FetchProtocol.LateLookSucceeds | src/simpleOSD_fetch_helper.c:75-85 | a thread that finds the file under the lock unlocks and opens it as it is |
| FetchProtocol.CreationFails | src/simpleOSD_fetch_helper.c:77-82 | after a failed create the allocation fails, and the thread unlocks and gives up without a change |
| FetchProtocol.AllocationFails | src/simpleOSD_fetch_helper.c:78-82 | after a failed allocation the thread unlocks and gives up |
| FetchProtocol.LocksReleased | src/simpleOSD_fetch_helper.c:74-85 | a mutex is held only by a thread between lock and unlock; all threads idle means all mutexes free |
| FetchProtocol.HolderAdvances | src/simpleOSD_fetch_helper.c:74-85 | every call of a holder, failing ones included, brings it nearer to unlocking, and only unlocking frees the mutex |
| FetchProtocol.SomeoneCanMove | src/simpleOSD_fetch_helper.c:74-85 | no deadlock: a thread that cannot go on waits for one that can |
| FetchProtocol.EmptyReadsExplained | src/simpleOSD_osd_op.c:156-191 | a read inside an object meets the end of the file only if allocation failed or another thread is between create and allocate |
| FetchProtocol.ShortFileCanBeReadEmpty | src/simpleOSD_osd_op.c:156-191 | the converse, in every run: while a file is there and short, three calls of any idle thread reach such a read |
| FetchProtocol.EarlyReaderMeetsEmptyFile | src/simpleOSD_osd_op.c:157-191 | a reachable interleaving in which that happens |
| LunTable.TagsRoundTrip | include/simpleOSD_bs.h:82-95 | the macros carry an address unchanged if and only if it is 8-aligned and below 2^60; tagging sets exactly the state |
| LunTable.ClaimOk | src/simpleOSD_bs.c:116-128 | claiming the first available slot keeps used slots a prefix with distinct memory, each allocated once, and adds one used slot |
| LunTable.ReleaseOk | src/simpleOSD_bs.c:163-163 | closing keeps the memory and takes away one used slot if it was used |
| LunTable.AllUsedIff | src/simpleOSD_bs.c:116-125 | the count is full exactly when no slot is available |
| LunTable.CollectionNameIs | src/simpleOSD_bs.c:94-95 | the collection's name is the first 255 characters of the path, so paths below 256 characters have different names |
| LunTable.Table.Open | src/simpleOSD_bs.c:105-153 | for all metadata: refuses for lack of a slot exactly when all are used; otherwise claims the least available one and keeps it claimed even when the metadata fail; its unit shows name, sizes, first OID, map and flag as path and metadata say, the others stay |
| LunTable.Table.Close | src/simpleOSD_bs.c:155-166 | frees the slot, keeps its memory and what its unit shows; used slots are opens plus vain claims minus closes of used slots |
| BlockIo.BlkRead | src/simpleOSD_io_op.c:55-99 | a unit that is unformatted or has no object size answers without touching the buffer, another with the slice of its disk |
| BlockIo.BlkWrite | src/simpleOSD_io_op.c:102-145 | marks the unit as formatted even if the write fails, and lays a prefix or all of the buffer on its disk; no other unit changes |
| BlockIo.RunCommands | src/simpleOSD_bs.c:105-166 | every run of opens, closes, reads and writes on any units is a trace in which each step changes units and the disk under watch as `UnitsStep` and `DiskStep` say |
| BlockIo.VolumeKept | src/simpleOSD_io_op.c:136-140 | in every run a volume keeps its disk while no write goes to a unit that bears its name at that time |
| BlockIo.NamedByPath | src/simpleOSD_bs.c:94-95 | in every run a unit bears the first 255 characters of the path of the last open that gave it a volume |
| BlockIo.VolumeOfPathKept | src/simpleOSD_bs.c:94-95 | in every run the volume of a path keeps its disk while all writes go to units last opened with paths whose first 255 characters differ from it |
| BlockIo.FlagLatched | src/simpleOSD_io_op.c:85-133 | between two opens of it a unit keeps its volume and is formatted if and only if it was or has been written to, closing included |
| BlockIo.WrittenThenRead | src/simpleOSD_bs.c:105-166 | what is written through one unit is read back through any formatted unit that shows the volume, across closes, re-opens and commands to other units |
| Scsi.TakenForSuccess | tgt_patch/usr/bs_simpleOSD.c:50-85 | the comparison of `ret` with the length takes a transfer for a success if and only if it is one or its length is 2^32 - 1 |
| Scsi.ReadStep | tgt_patch/usr/bs_simpleOSD.c:257-275 | READ returns the addressed bytes of the disk if the unit answered; it reports a medium error if and only if the unit did not and the length is not 2^32 - 1; an accepted read that is not answered has a cause |
| Scsi.WriteStep | tgt_patch/usr/bs_simpleOSD.c:183-210 | the data is laid on success, a prefix otherwise; the status in every case, also for a missing mode page and at length 2^32 - 1 |
| Scsi.OrWrite | tgt_patch/usr/bs_simpleOSD.c:68-98 | after ORWRITE each bit of the range is set on the disk if and only if it was or is set in the data; a prefix of that on a failed write; nothing changes on a failed read; the status in every case |
| Bytes.OrMeaning | tgt_patch/usr/bs_simpleOSD.c:91-93 | each of the eight bits of an or-ed byte is set if and only if it is set in either operand |
| Bytes.BitIs | tgt_patch/usr/bs_simpleOSD.c:91-93 | bit k of a number is the parity of its quotient by 2^k |
| Bytes.BitsDetermine | tgt_patch/usr/bs_simpleOSD.c:91-93 | a number below 2^n is known from its n bits, so that fixes the byte |
| Scsi.CompareAndWrite | tgt_patch/usr/bs_simpleOSD.c:99-160 | either the first half equals the disk and the second half is written, or the disk is unchanged and `info` is the least differing position; the status in every case |
| Scsi.Verify | tgt_patch/usr/bs_simpleOSD.c:284-316 | once the unit answered, a miscompare if and only if the disk differs; otherwise an error, and for an unformatted unit a comparison with whatever memory held |
| Scsi.WriteAndVerify | tgt_patch/usr/bs_simpleOSD.c:173-215 | a successful write is on the disk and never miscompares; the status in every case, also when the read back fails, memory or the mode page is missing |
| Scsi.WriteSame | tgt_patch/usr/bs_simpleOSD.c:217-256 | hangs if and only if the countdown never reaches zero; otherwise the rest of the disk is unchanged, and each block of the range is, byte by byte, the old one or the buffer's with the block's own byte offset in its first 4 or 8 bytes; all of the latter on success; a failure with every block accepted has a cause |
| Scsi.FilledBlock | tgt_patch/usr/bs_simpleOSD.c:232-255 | block k of a filled range on the disk: its first 4 or 8 bytes, most significant first, are its own byte offset, the rest is the buffer's |
| Scsi.StampMeans | tgt_patch/usr/bs_simpleOSD.c:236-244 | a stamp read most significant byte first is the offset, modulo 2^32 in the short form |
| Scsi.WriteSameEndsIff | tgt_patch/usr/bs_simpleOSD.c:232-255 | the 32-bit countdown reaches zero if and only if the block size divides the length |
| Lists.RingUnique | include/simpleOSD_list.h:38-40 | the links determine the sequence of a ring |
| Lists.InitListHead | include/simpleOSD_list.h:47-51 | an empty ring |
| Lists.ListEmpty | include/simpleOSD_list.h:56-59 | true exactly for the empty sequence |
| Lists.ListAdd | include/simpleOSD_list.h:81-94 | the node becomes the first of the sequence; no other object is touched |
| Lists.ListAddTail | include/simpleOSD_list.h:96-99 | the node becomes the last |
| Lists.ListDel | include/simpleOSD_list.h:101-111 | exactly that node leaves the sequence, and has no links |
| Lists.ListDelInit | include/simpleOSD_list.h:113-117 | exactly that node leaves, and is an empty ring |
| Lists.ListSpliceInit | include/simpleOSD_list.h:119-140 | all nodes of `list`, in order, come before those of `head`; `list` is empty |
| Lists.KeptOfJoined | include/simpleOSD_list.h:75-79 | what a walk keeps of two joined sequences is what it keeps of each, joined; of one node, that node or nothing (`Lists.KeptOfOne`) |
| Lists.WalkAndDelete | include/simpleOSD_list.h:75-79 | the safe walk visits every entry once, in order, ends, and leaves exactly those it did not delete, in order |

## Left out

- Scsi.WriteSame: says nothing of what the endless loop writes when it hangs.
- Scsi.OrWrite: does not say what is or-ed in when a failed read passed for a success, or the unit was unformatted: the buffer is then or-ed with memory that was never filled.
- LunTable.Table.Close: always succeeds, because the table is that of the default build; with the handle cache a failing close would leave the slot used.
- BlockIo.BlkRead: not for units whose metadata give more than 2^31 objects, 2^64 bytes or more, or a path that is cut.
- BlockIo.BlkWrite: the same.
- BlockIo.RunCommands: ends before a close of a slot that never had memory, which dereferences a null pointer.
- Several stores with handle caches on one kernel, and a store of the cached build that is opened again with the slots of its last use.
- Threads inside one store: `osd_op_read` and `osd_op_write` are modelled one request at a time; interleavings are modelled for fetching and writing to fetched files.
- Deletion of files during concurrent fetching, and reuse of a path by other programs.
- A `pwrite64` that returns 0 for a positive count, which regular files do not do.
- Writes by anyone else to the object files.
- Filling the cache in advance in `osd_init_collection` (`INTIAL_OBJECT_CACHE`, not defined by default).
- Variable-size objects, fetching from a data-placement node, unmap, advice and data sync: stubs in the code. UNMAP, SYNCHRONIZE CACHE and PRE-FETCH end in them.
- The MDS queries that do nothing, time stamps, logging, configuration parsing, sockets, resource limits, null-argument checks.
- `malloc` returning null in `simpleOSD_lun_open`, and what memory it returns held before.
- `print_oid`, which overwrites its buffer on each turn.
