# DeltaFS: a verified model of its core protocols and data structures

DeltaFS is a distributed file system without a central namespace. This project models
the parts of it that carry its guarantees, and proves those guarantees for all inputs,
all runs and all crash points. All files are Dafny 4.11; `dafny verify dfyconfig.toml`
checks them.

| files | what they model |
|---|---|
| `Lease*.dfy` | directory leases of the metadata server: timed leases on lookups, writers that wait them out, detection of stale reads, one table shared by all directories; a state machine with one step per mutex-held section |
| `Giga*.dfy` | the GIGA+ directory index: partition bitmap, radix, splits, merges, hash routing, client redirects, listing |
| `Coding.dfy`, `Log*.dfy` | integer codecs and the block-fragmented write-ahead log, also when appends fail or the file is damaged |
| `Ofs*.dfy` | the object-backed file system on that log: replay, snapshots, two alternating logs, sessions with crashes, and file operations cut between steps or in the middle of a record |
| `HashTable.dfy`, `HashMap.dfy` | the chained hash table with in-place rehashing, and the linked hash map on it, with their pointers |
| `Lru*.dfy` | the reference-counted LRU cache, as values and as the object that is updated in place, with its two linked lists |
| `Blk*.dfy` | files stored as blocks in an ordered database: reads, writes, empty writes, and the saved cursor under concurrent use |
| `Inode.dfy` | inode numbers of several servers |
| `RandomSequence.dfy`, `NumberTheory.dfy`, `Primes.dfy` | the sequence of unique random numbers, and the number theory it needs |
| `FsKeys.dfy`, `FsTypes.dfy` | database keys and stat records |

The model follows the `DELTAFS` build, in which a directory is named by registry,
snapshot and inode. Clocks, file contents, checksums, hash functions, choices of the
scheduler and outcomes of storage operations are parameters or choices of the step
relation. Checksums and key hashes are arbitrary functions.

Where the code does not do what its comments say, the model follows the code and gives
the exact condition under which the promise holds:

* Comments say that active leases are never evicted from the lease table; the table as
  coded, which all directories share, evicts without asking.
  `LeaseTheorems.LeaseSafetyIff` covers both. A lease time below 10 microseconds makes
  the unsigned time limit wrap round.
* `SetAll` reserves as many bytes as there are partitions rather than bits
  (`GigaRep.DoubledIff`), and the assertion on the starting partition of a hash walk
  needs a power of two of virtual servers (`GigaIndex.StartAlwaysInRangeIff`).
* After a failed append the log writer goes on from where it thinks it is, and the next
  record can make the log unreadable (`LogFailure.OutOfStepIff`).
* A crash while a file is overwritten leaves a live object on the garbage list, and a
  failed link deletes it at once (`OfsFiles.PutCrashIff`, `OfsFiles.FailedLinkIff`, and
  `OfsFiles.CopyCrashIff`, `OfsFiles.FailedCopyIff` for copies). A renamed file shares
  its object with a new file of its old name (`OfsFiles.RecreateOverwrites`), a file
  called "1" or "2" is put over a log (`OfsFiles.LogNameIff`), and deleting a file set
  can strand garbage (`OfsFiles.ForgetIff`).
* Objects stay known only if logs are synced before objects are written
  (`OfsMachine.UnsyncedIff`) and syncs do not fail unnoticed
  (`OfsFiles.UnnoticedLinkIff`).
* Remounting relies on a clock that moves forward (`OfsRecovery.RemountNeedsLaterTime`).
* An empty write is stored under the key of the byte before it and can hide or replace
  an existing block (`BlkEmpty.EmptyWriteIff`).
* A failed write resets the count by which reads notice concurrent writes, so that a
  stale cursor can be kept (`BlkCursor.AlwaysFreshIff`).
* Inode ranges of servers stay apart, and inode numbers unique, only with checks on
  (`Inode.NeverClashIff`, `Inode.NeverRepeatsIff`).

## Model

| member | source | states |
|---|---|---|
| `LeaseTheorems.LeaseSafetyIff` | src/libdeltafs/mds_srv.cc:864-916 | over every interleaving of lookups and writes, no client is left with an unexpired lease on a superseded version, if and only if the configuration is safe: lease time 0, no entries, at least 10 microseconds with a table that keeps active leases, or a table as coded with room for every entry of all the directories that share it (or lease time exactly 10) |
| `LeaseTheorems.ClientNeverStale` | src/libdeltafs/mds_cli.cc:68-97 | in a safe configuration, a client whose clock lags by less than 10 microseconds and tests its lease as coded never reuses a version older than the published one, in any run |
| `LeaseTheorems.PublishWaitsOutLeases` | src/libdeltafs/mds_srv.cc:1151-1200 | in every reachable state, a step that publishes a change is only taken when all leases given out on that entry are past due |
| `LeaseTheorems.StaleLookupRefused` | src/libdeltafs/mds_srv.cc:894-907 | a lookup overtaken by a published write gets no lease; if it is in time it finds that write's lease entry with a larger sequence number and still active; a lookup that gets a lease read the published version or a newer one |
| `LeaseTheorems.ShortDurationUnsafe` | src/libdeltafs/mds_srv.cc:986-986 | with a lease time of 1 to 9 the unsigned time limit wraps round and some run breaks safety, even if active leases are never dropped |
| `LeaseTheorems.SmallTableUnsafe` | external/pdlfs-common/include/pdlfs-common/lru.h:298-310 | with the table as coded, which drops the entry released first without asking whether it is active, and more entries of this and the other directories together than room, some run breaks safety (unless the lease time is 0 or 10) |
| `LeaseTheorems.CrowdedTableUnsafe` | external/pdlfs-common/include/pdlfs-common/lru.h:298-310 | the crowded case in detail: lookups of further entries, here or in other directories, fill the table until the entry that would warn an overtaken lookup is the one to be dropped |
| `LeaseTheorems.SafeConfigIsSafe` | src/libdeltafs/mds_srv.cc:898-911 | the safe direction for all configurations, including those in which no lease is ever usable |
| `LeaseSafety.GrantIsCurrent` | src/libdeltafs/mds_srv.cc:1009-1027 | when the closing section of a lookup gives out a lease, the data it read is no older than what has been published |
| `LeaseSafety.LookupEndInv` | src/libdeltafs/mds_srv.cc:983-1034 | the closing section of a lookup keeps the protocol invariant |
| `LeaseSafety.WriteEndInv` | src/libdeltafs/mds_srv.cc:1149-1211 | the closing section of a write, up to its end or its wait, keeps the protocol invariant |
| `LeaseSafety.PublishInv` | src/libdeltafs/mds_srv.cc:1194-1200 | publishing keeps the protocol invariant |
| `LeaseSafety.WakeInv` | src/libdeltafs/mds_srv.cc:1185-1200 | waking up after the wait and publishing keeps the protocol invariant |
| `LeaseSafety.WriteOpenInv` | src/libdeltafs/mds_srv.cc:1099-1106 | opening the write's snapshot keeps the protocol invariant |
| `LeaseSafety.StepInv` | src/libdeltafs/mds_srv.cc:922-1034 | every step of lookups, writes, the clock, the table and other directories' use of it keeps the protocol invariant |
| `LeaseSafety.RunInv` | src/libdeltafs/mds_srv.cc:922-1034 | so does every run |
| `LeaseTable.RunTable` | external/pdlfs-common/include/pdlfs-common/lru.h:66-127 | in every run the entries that may be dropped are exactly those nobody holds, each listed once, in the table as coded never more entries than its capacity, and a waiting writer's lease stays locked |
| `LeaseTable.WaiterKeepsEntry` | src/libdeltafs/mds_srv.cc:1151-1200 | from the start on, the entry of a writer that waits for a lease is still in the table when it wakes up |
| `LeaseTable.AcquireOk` | src/libdeltafs/util/lease.cc:72-121 | finding or installing an entry, dropping another one if need be, keeps the table exact and never drops an entry that somebody holds |
| `LeaseEffects.LookupEffect` | src/libdeltafs/mds_srv.cc:983-1034 | a lookup gets a lease if and only if it found a directory, is in time and was not overtaken; for how long, on which version, what the lease entry then says, and that nothing else changes |
| `LeaseEffects.LeaseUsable` | src/libdeltafs/mds_cli.cc:68-97 | a client whose clock is right can use a lease it was given until 10 microseconds before its end |
| `LeaseEffects.WriteEffect` | src/libdeltafs/mds_srv.cc:1149-1211 | a committed change of a directory waits if and only if its lease is shared and not yet due, until 10 microseconds after that; else it is published at once under a new sequence number; no other write waits or publishes |
| `LeaseEffects.WakeEffect` | src/libdeltafs/mds_srv.cc:1189-1200 | a writer that wakes up publishes its change and frees the lease |
| `LeaseEffects.ReadEffect` | src/libdeltafs/mds_srv.cc:922-982 | a lookup notes time and sequence number when it starts, and reads from the transaction that was open when it looked for one, else from the database |
| `LeaseEffects.SnapshotStays` | src/libdeltafs/mds_srv.cc:1099-1211 | through commit and wait, until the write ends, lookups find the database as it was before the write |
| `LeaseEffects.CommitEffect` | src/libdeltafs/mds_srv.cc:1107-1148 | a commit changes the entry as its operation says and no other one; a failed one changes nothing |
| `LeaseServer.Server.AcquireLease` | src/libdeltafs/mds_srv.cc:987-1008 | finds or installs the lease entry, if need be in place of the entry that was released first of those nobody holds, exactly as the protocol step does |
| `LeaseServer.Server.DropOldest` | external/pdlfs-common/include/pdlfs-common/lru.h:297-304 | drops the entry that was released first |
| `LeaseServer.Server.GiveLease` | src/libdeltafs/mds_srv.cc:987-1027 | gives a reader a lease on the version it read, unless it was overtaken, and puts the entry back |
| `LeaseServer.Server.PutBack` | src/libdeltafs/util/lease.cc:48-56 | writes the lease back and releases it to the end of the order, unless a writer holds on to it |
| `LeaseServer.Server.RenewLease` | src/libdeltafs/mds_srv.cc:1015-1026 | extends the lease unless a writer waits and returns its due time, or 0 if the reader was overtaken |
| `LeaseServer.Server.CloseLookup` | src/libdeltafs/mds_srv.cc:983-1034 | the closing section of Lookup takes the protocol's step and returns exactly the due time of the lease it gave: the full duration from now, or what is left if a writer waits, and 0 if the reader found no directory, was late or was overtaken |
| `LeaseServer.Server.CloseWrite` | src/libdeltafs/mds_srv.cc:1149-1193 | the closing section of Uperm (and of the other writers) takes the protocol's step, up to its end or the start of its wait |
| `LeaseServer.Server.PublishChange` | src/libdeltafs/mds_srv.cc:1194-1200 | bumps the directory's sequence number, stamps the lease with it and frees the lease |
| `LeaseServer.Server.Wake` | src/libdeltafs/mds_srv.cc:1189-1200 | after the wait the change is published |
| `GigaMath.RadixIff` | external/pdlfs-common/src/gigaplus.cc:62-65 | a partition number has radix at most r if and only if it is below 2^r |
| `GigaMath.ChildRadix` | external/pdlfs-common/src/gigaplus.cc:78-82 | a child's radix is one more than the radix it was made at, and the child's parent is the partition that was split |
| `GigaMath.AtParent` | external/pdlfs-common/src/gigaplus.cc:95-98 | going to the parent is dropping the highest bit: it is the hash's partition at a smaller radix |
| `GigaMath.ChainOrder` | external/pdlfs-common/src/gigaplus.cc:120-138 | the partitions a hash can belong to form a chain: the smaller of two is an ancestor of the larger |
| `GigaHash.ReverseIsReversal` | external/pdlfs-common/src/gigaplus.cc:44-47 | the four-operation multiply-and-mask trick reverses the eight bits of every byte |
| `GigaHash.ReverseByte` | external/pdlfs-common/src/gigaplus.cc:44-47 | the same on the 64-bit words the code computes with |
| `GigaHash.ComputeIndexFromHash` | external/pdlfs-common/src/gigaplus.cc:120-138 | the loop over bytes and the leftover bits gives the value of the first n bits of the hash, least significant first |
| `GigaHash.NextBit` | external/pdlfs-common/src/gigaplus.cc:120-138 | one radix more puts the next bit of the hash in front, byte by byte and from the most significant bit of each |
| `GigaIndex.OwnerIff` | external/pdlfs-common/src/gigaplus.cc:546-555 | walking up from the full-radix partition ends at j if and only if j is the deepest existing partition on the hash's chain, so every hash belongs to exactly one partition |
| `GigaIndex.ClimbDeepest` | external/pdlfs-common/src/gigaplus.cc:551-553 | the walk to parents stops at the deepest existing partition at or above where it starts |
| `GigaIndex.SplitKeeps` | external/pdlfs-common/src/gigaplus.cc:524-534 | the new child is not in the index, its parent is the partition being split, the radix grows by at most one, ancestors stay present and the radix stays that of the highest partition |
| `GigaIndex.SplittableIff` | external/pdlfs-common/src/gigaplus.cc:502-519 | a partition can be split if and only if it exists and its first missing child, below the largest radix, is below the number of virtual servers |
| `GigaIndex.MigratedFromParent` | external/pdlfs-common/src/gigaplus.cc:571-573 | before a split, all hashes that are to be migrated to the child belong to the parent |
| `GigaIndex.ExactSplit` | external/pdlfs-common/src/gigaplus.cc:524-573 | a split moves exactly the hashes to be migrated, all from the parent, and leaves every other hash's partition unchanged, also when the radix grows |
| `GigaIndex.MergeKeeps` | external/pdlfs-common/src/gigaplus.cc:304-324 | the union of two indices has the larger radix, and ancestors stay present |
| `GigaIndex.MergeLaws` | external/pdlfs-common/src/gigaplus.cc:304-324 | merging is commutative, associative and idempotent, and merging a superset gives the superset |
| `GigaIndex.RunHealthy` | external/pdlfs-common/src/gigaplus.cc:285-324 | every run of splits, merges and pre-splits keeps ancestors present, the radix that of the highest partition and within its limit, and loses no partition |
| `GigaIndex.StartInRangeIff` | external/pdlfs-common/src/gigaplus.cc:549-550 | the assertion that the starting partition is below the number of virtual servers holds for all hashes if and only if 2^radix is at most that number |
| `GigaIndex.StartAlwaysInRangeIff` | external/pdlfs-common/src/gigaplus.cc:546-550 | the assertion holds for all hashes in every run of splits and pre-splits if and only if the number of virtual servers is a power of two |
| `GigaIndex.RadixUnique` | external/pdlfs-common/src/gigaplus.cc:301-301 | an index has only one radix |
| `GigaRep.DoubledIff` | external/pdlfs-common/src/gigaplus.cc:340-373 | doubling stays within the largest bitmap if and only if the requested number of bytes does: with SetAll's request in bits this needs at most 8192 virtual servers |
| `GigaRep.SetBitInMap` | external/pdlfs-common/src/gigaplus.cc:297-300 | setting a bit in its byte adds exactly that partition to the bitmap |
| `GigaRep.ClearBitInMap` | external/pdlfs-common/src/gigaplus.cc:271-275 | clearing a bit removes exactly that partition |
| `GigaRep.OrMaps` | external/pdlfs-common/src/gigaplus.cc:311-313 | or-ing bytes is the union of the bitmaps |
| `GigaRep.AcceptedIff` | external/pdlfs-common/src/gigaplus.cc:200-218 | an encoding is accepted if and only if it is long enough for its radix, has partition 0 and, with checks on, the radix of its highest partition; and what it then stands for |
| `GigaRep.ByteRoundTrip` | external/pdlfs-common/src/gigaplus.cc:326-327 | bytes of the 16-bit header read back what was put in |
| `GigaDirIndex.Rep.constructor` | external/pdlfs-common/src/gigaplus.cc:383-390 | a new index has partition 0 only, radix 0 and the initial capacity |
| `GigaDirIndex.Rep.Bit` | external/pdlfs-common/src/gigaplus.cc:238-245 | tells whether a partition exists |
| `GigaDirIndex.Rep.HighestBit` | external/pdlfs-common/src/gigaplus.cc:256-266 | the two backward loops find the largest existing partition |
| `GigaDirIndex.Rep.ScaleUp` | external/pdlfs-common/src/gigaplus.cc:353-362 | growing the buffer keeps the partitions |
| `GigaDirIndex.Rep.ScaleToSize` | external/pdlfs-common/src/gigaplus.cc:364-373 | the capacity is doubled until it is enough, and no further; the partitions stay |
| `GigaDirIndex.Rep.TurnOnBit` | external/pdlfs-common/src/gigaplus.cc:285-302 | adds exactly one partition, updates the radix and keeps the representation valid: radix of the highest partition, bitmap within capacity |
| `GigaDirIndex.Rep.TurnOffBit` | external/pdlfs-common/src/gigaplus.cc:268-283 | removes exactly one partition and keeps the representation valid, lowering the radix if need be |
| `GigaDirIndex.Rep.Merge` | external/pdlfs-common/src/gigaplus.cc:304-324 | the result is the union of the partitions with the larger radix, and the representation stays valid |
| `GigaDirIndex.Rep.Reserve` | external/pdlfs-common/src/gigaplus.cc:223-223 | makes room for as many bytes as asked for |
| `GigaDirIndex.Rep.FillBelow` | external/pdlfs-common/src/gigaplus.cc:473-479 | turns on partitions one after the other, each step within the limits that TurnOnBit asserts |
| `GigaDirIndex.Rep.Encode` | external/pdlfs-common/src/gigaplus.cc:227-230 | the encoding parses back to the same zeroth server, radix and partitions |
| `GigaClient.ParseDirIndex` | external/pdlfs-common/src/gigaplus.cc:200-218 | accepts exactly the inputs with a whole bitmap that contains partition 0 (and, with checks on, the right radix) |
| `GigaClient.DirIndex.Update` | external/pdlfs-common/src/gigaplus.cc:422-465 | merges an encoded index: succeeds if and only if it parses and has the same zeroth server; then the value is the union, otherwise nothing changes |
| `GigaClient.DirIndex.SetAll` | external/pdlfs-common/src/gigaplus.cc:473-479 | adds all partitions below the number of virtual servers |
| `GigaClient.DirIndex.Set` | external/pdlfs-common/src/gigaplus.cc:467-471 | adds one partition as a split does |
| `GigaClient.DirIndex.IsSplittable` | external/pdlfs-common/src/gigaplus.cc:502-519 | true if and only if the partition exists and its first free child is below the number of virtual servers and the largest radix |
| `GigaClient.DirIndex.NewIndexForSplitting` | external/pdlfs-common/src/gigaplus.cc:524-534 | the first free child, below the number of virtual servers |
| `GigaClient.DirIndex.Split` | external/pdlfs-common/src/gigaplus.cc:467-534 | a whole split in place: the first free child is added and nothing else changes, the representation stays valid and every partition's ancestors stay present |
| `GigaClient.DirIndex.HashToIndex` | external/pdlfs-common/src/gigaplus.cc:546-555 | terminates and returns the deepest existing partition on the hash's chain |
| `GigaClient.DirIndex.HashToServer` | external/pdlfs-common/src/gigaplus.cc:563-565 | the server of that partition, below the number of servers; a directory with one partition is served by its zeroth server |
| `GigaClient.RoundRobin` | external/pdlfs-common/src/gigaplus.cc:595-597 | partition 0 is on the zeroth server and each next one on the next server in turn |
| `GigaClient.SameServerIff` | external/pdlfs-common/src/gigaplus.cc:595-597 | two partitions share a server if and only if their numbers differ by a multiple of the number of servers, so any run of that many is spread over all of them |
| `GigaRouting.FetchIndex` | src/libdeltafs/mds_cli.cc:27-59 | an index encoded by a server and merged into an empty one is the server's index |
| `GigaRouting.SendRequest` | src/libdeltafs/mds_cli.cc:104-155 | at most as many calls as allowed; success only at a server that serves the name and every earlier call was redirected; if all servers hold one index and the client a part of it, the owner is reached after at most one redirect |
| `GigaRouting.MergeCatchesUp` | src/libdeltafs/mds_cli.cc:120-132 | merging a redirect's index into a part of it gives that index |
| `GigaRouting.Listdir` | src/libdeltafs/mds_cli.cc:1126-1140 | contacts exactly the servers that hold a partition, each once, also when it stops early |
| `GigaRouting.EarlyExit` | src/libdeltafs/mds_cli.cc:1126-1140 | once as many servers as there are have been contacted, no partition is left out |
| `Coding.FixedRoundTrip` | external/pdlfs-common/src/coding.cc:21-66 | fixed-width integers read back what was written |
| `Coding.FixedUnique` | external/pdlfs-common/src/coding.cc:21-66 | bytes are the only encoding of the integer they decode to |
| `Coding.FixedAt` | external/pdlfs-common/src/coding.cc:21-66 | the bytes are the digits, the least significant one first |
| `Coding.Varint32RoundTrip` | external/pdlfs-common/src/coding.cc:68-94 | a 32-bit varint takes at most 5 bytes and decodes, whatever follows, to the value and exactly what follows |
| `Coding.Varint64RoundTrip` | external/pdlfs-common/src/coding.cc:102-111 | likewise for 64 bits, in at most 10 bytes |
| `Coding.EncodeVarint32` | external/pdlfs-common/src/coding.cc:68-94 | the unrolled encoder writes the varint |
| `Coding.EncodeVarint64` | external/pdlfs-common/src/coding.cc:102-111 | the encoding loop writes the varint |
| `Coding.ReadVarint` | external/pdlfs-common/src/coding.cc:140-185 | the decoding loop with its shifts computes the value of the digits, and fails on exactly the same inputs |
| `Coding.GetVarintAt` | external/pdlfs-common/src/coding.cc:140-185 | a varint is read up to its first byte below 128, which must be among the first five or ten; its value and what follows are exactly given, and without such a byte reading fails |
| `Coding.VarintCut` | external/pdlfs-common/src/coding.cc:140-185 | a varint that is cut off cannot be read |
| `Coding.VarintPrefixFree` | external/pdlfs-common/src/coding.cc:102-111 | no encoding is a proper prefix of another |
| `Coding.LengthPrefixedRoundTrip` | external/pdlfs-common/src/coding.cc:126-218 | length-prefixed strings decode, whatever follows, to the string and exactly what follows |
| `Coding.LengthPrefixedCut` | external/pdlfs-common/src/coding.cc:187-218 | a string that is cut off cannot be read |
| `LogFormat.UnmaskMask` | external/pdlfs-common/include/pdlfs-common/crc32c.h:42-53 | unmasking a masked checksum gives it back |
| `LogFormat.MaskUnmask` | external/pdlfs-common/include/pdlfs-common/crc32c.h:42-53 | and the other way round |
| `LogFormat.MaskRotates` | external/pdlfs-common/include/pdlfs-common/crc32c.h:42-46 | masking moves the low 15 bits of a checksum in front of the other 17 and adds a constant |
| `LogTheorems.TruncatedLog` | external/pdlfs-common/src/log_reader.cc:163-170 | a log cut at any byte is read as exactly the records whose last fragment is wholly present, in order, with no corruption reported |
| `LogTheorems.LogRoundTrip` | external/pdlfs-common/src/log_reader.cc:68-193 | reading a written log returns exactly the records written, of any lengths, with no corruption reported |
| `LogTheorems.LogAppend` | external/pdlfs-common/src/log_writer.cc:36-41 | writing more records after reopening gives the same bytes as one continuous writer |
| `LogTheorems.ReadEmitted` | external/pdlfs-common/src/log_reader.cc:99-170 | the fragments of one record are put together again, unless the file ends first |
| `LogTheorems.ReadPrefix` | external/pdlfs-common/src/log_reader.cc:210-262 | the same for any position in a log that is cut anywhere |
| `LogTheorems.PhysicalStep` | external/pdlfs-common/src/log_reader.cc:210-292 | reading one fragment: block trailers are skipped, a fragment cut short is end of file rather than corruption |
| `LogTheorems.ParseCut` | external/pdlfs-common/src/log_reader.cc:243-254 | a fragment whose payload is cut off by the end of the file is not reported |
| `LogDamage.ParseIff` | external/pdlfs-common/src/log_reader.cc:237-292 | what the reader does with any bytes: it takes out exactly what a writer could have written, checksum included, and reports everything else, but for what may be the end of the file and empty fragments of type 0 |
| `LogDamage.ParseUnchecked` | external/pdlfs-common/src/log_reader.cc:262-276 | without verification a whole fragment is taken out whatever its checksum is |
| `LogDamage.ReadsGenuine` | external/pdlfs-common/src/log_reader.cc:68-193 | whatever file is read, every record that comes out was put together from fragments with right checksums, a full one or a first one, middle ones and a last one, each behind the one before |
| `LogDamage.PhysicalReportsIff` | external/pdlfs-common/src/log_reader.cc:210-292 | reading one fragment reports something if and only if there is damage where the next fragment has to be; then the rest of the block is dropped |
| `LogDamage.DamageReported` | external/pdlfs-common/src/log_reader.cc:243-276 | a log whose first damage is at the start of any fragment of any record, whatever follows: corruption is reported |
| `LogDamage.AssembleConserves` | external/pdlfs-common/src/log_reader.cc:110-190 | every byte of payload is kept or reported until the file ends; fragments of nothing, of unknown types, and damage inside a record are always reported |
| `LogDamage.OrphanReported` | external/pdlfs-common/src/log_reader.cc:142-163 | behind any records, a middle or last fragment without a first one is reported |
| `LogDamage.UnfinishedReported` | external/pdlfs-common/src/log_reader.cc:111-141 | behind any records, a first fragment that another first or full one follows is reported |
| `LogDamage.EndCodeHides` | external/pdlfs-common/src/log_reader.cc:164-171 | a stored fragment of the reader's own type 5 ends the log silently, whatever follows it |
| `LogIO.Writer.constructor` | external/pdlfs-common/src/log_writer.cc:32-34 | a new log file |
| `LogIO.Writer.Reopen` | external/pdlfs-common/src/log_writer.cc:36-41 | a writer that continues an existing file at the right place in its block |
| `LogIO.Writer.AddRecord` | external/pdlfs-common/src/log_writer.cc:45-94 | the fragmentation loop appends the record's fragments; a file that fails is left with the bytes it accepted, and the call succeeds if and only if all of them and the last flush are; after a failure the writer is ahead of the file |
| `LogIO.Writer.AddFragment` | external/pdlfs-common/src/log_writer.cc:50-92 | one round: pads a block that cannot hold a header, then writes one fragment of the right kind, or as much of both as the file accepts |
| `LogIO.Writer.PadBlock` | external/pdlfs-common/src/log_writer.cc:52-63 | fills the trailer of a block with zeros and starts a new block, also if that fails |
| `LogIO.Writer.EmitPhysicalRecord` | external/pdlfs-common/src/log_writer.cc:96-122 | writes header and payload, or what the file accepts of them, and advances within the block in either case |
| `LogIO.WriteInTwoSessions` | external/pdlfs-common/src/log_writer.cc:32-41 | writing some records, reopening and writing the rest gives the bytes of one session |
| `LogIO.WriteAll` | external/pdlfs-common/src/log_writer.cc:45-94 | writing records one after the other gives the log's bytes |
| `LogFailure.FailedAppend` | external/pdlfs-common/src/log_writer.cc:45-122 | a record that was appended only in part leaves the records before it readable, with no corruption reported, and is itself there if and only if all its bytes are |
| `LogFailure.OutOfStepIff` | external/pdlfs-common/src/log_writer.cc:96-122 | a writer that is out of step with its file appends one more record: the log can be read if and only if the record also fits the block it is really in; otherwise corruption is reported and nothing is recovered |
| `LogFailure.AppendAfterFailure` | external/pdlfs-common/src/log_writer.cc:45-122 | an append that fails at once and then one that succeeds, on the same writer: the log can be read if and only if the second record fits where the first would have started |
| `LogFailure.ReadThrough` | external/pdlfs-common/src/log_reader.cc:68-193 | the records at the front of a file are read whatever follows them |
| `LogIO.Reader.constructor` | external/pdlfs-common/src/log_reader.cc:29-40 | a reader at the start of a file |
| `LogIO.Reader.Parse` | external/pdlfs-common/src/log_reader.cc:237-292 | parses one fragment from the buffer, with all the error cases, and takes stored types 5 and 6 for the end of the file and for a bad record as the code does |
| `LogIO.Reader.NextBlock` | external/pdlfs-common/src/log_reader.cc:212-226 | refills the buffer with the next block, or notes the end of the file |
| `LogIO.Reader.ReadPhysicalRecord` | external/pdlfs-common/src/log_reader.cc:210-292 | the loop that refills and parses returns what the specification of reading one fragment returns |
| `LogIO.Reader.NextRecord` | external/pdlfs-common/src/log_reader.cc:68-193 | the assembling loop returns the next record and reports exactly the specified corruptions |
| `OfsLog.DecodeEncodeOp` | external/pdlfs-common/src/ofs_impl.h:229-235 | one encoded operation decodes, whatever follows, to itself and exactly what follows |
| `OfsLog.RecordReplays` | external/pdlfs-common/src/ofs_impl.cc:124-152 | replaying a written record has the effect of its operations in order, and its time is read back |
| `OfsLog.RecordCut` | external/pdlfs-common/src/ofs_impl.cc:69-152 | a record that is cut off anywhere is not replayed, not even in part |
| `OfsLog.ReplayableIff` | external/pdlfs-common/src/ofs_impl.cc:69-122 | replay succeeds if and only if all operations have a known type and the names they need; an empty file name makes a set unrecoverable |
| `OfsLog.MakeSnapshot` | external/pdlfs-common/src/ofs_impl.cc:205-241 | the snapshot record, made in whatever order the tables are visited, replays from nothing to exactly the files and the garbage |
| `OfsLog.AppendLinks` | external/pdlfs-common/src/ofs_impl.cc:208-224 | the links of the snapshot rebuild the files |
| `OfsLog.AppendDels` | external/pdlfs-common/src/ofs_impl.cc:225-238 | the deletions after them rebuild the garbage and leave the files |
| `OfsRecovery.CrashRecovery` | external/pdlfs-common/src/ofs_impl.cc:190-201 | a log cut at any byte recovers the state after the last record that is complete |
| `OfsRecovery.RecoverLogIff` | external/pdlfs-common/src/ofs_impl.cc:190-201 | a log is recovered if and only if reading it reports no corruption and all its records can be replayed |
| `OfsRecovery.DamagedLogRefused` | external/pdlfs-common/src/ofs_impl.cc:190-201 | a log with damage at the start of any fragment of any of its records is not recovered |
| `OfsRecovery.RecoveredIff` | external/pdlfs-common/src/ofs_impl.cc:154-203 | a set is recovered if and only if the start of both its logs can be read, their times differ and the later log is recovered; nothing falls back to the other log |
| `OfsRecovery.ReplayPrefix` | external/pdlfs-common/src/ofs_impl.cc:191-193 | every prefix of a recoverable log is recoverable |
| `OfsRecovery.CurrentRecovers` | external/pdlfs-common/src/ofs_impl.cc:154-203 | of two logs the one started later is recovered, and the other one is to be written next |
| `OfsRecovery.RemountAtomic` | external/pdlfs-common/src/ofs_impl.cc:243-263 | at every byte while the snapshot is being written to the other log, recovery gives the old state; the new log takes over exactly when all of it is there |
| `OfsRecovery.RemountNeedsLaterTime` | external/pdlfs-common/src/ofs_impl.cc:169-180 | the new log takes over if and only if its time is later; with an earlier time the old log stays current, with an equal time recovery fails |
| `OfsSessions.SessionsRecover` | external/pdlfs-common/src/ofs_impl.cc:348-379 | over any number of mounts, logged operations and crashes, with the logs alternating and any part of a record or of a snapshot left behind by each crash, what is recovered is the state all completely logged operations add up to |
| `OfsSessions.CrashInSession` | external/pdlfs-common/src/ofs_impl.cc:190-201 | a crash at any byte after a session's snapshot recovers the state after the operations whose records are complete |
| `OfsSessions.FirstMount` | external/pdlfs-common/src/ofs_impl.cc:361-373 | until the first snapshot of a set is complete there is no set; then there is one that recovers to the snapshot |
| `OfsSessions.LoggedKeeps` | external/pdlfs-common/src/ofs_impl.h:72-156 | logging an operation keeps the set recoverable, to the state after it |
| `OfsSessions.TornKeeps` | external/pdlfs-common/src/log_writer.cc:45-122 | an operation of whose record any part was appended keeps the set recoverable: to the state after it if the whole record is there, and otherwise to the state before it |
| `OfsSessions.CrashedKeeps` | external/pdlfs-common/src/ofs_impl.cc:190-201 | so does a crash that cuts the current log at any byte behind its first record |
| `OfsSessions.RemountedKeeps` | external/pdlfs-common/src/ofs_impl.cc:243-263 | so does mounting it again with the other log |
| `OfsSessions.CutRemountKeeps` | external/pdlfs-common/src/ofs_impl.cc:243-263 | so does a mount of which any part of the snapshot is missing |
| `OfsFileSet.FileSet.Open` | external/pdlfs-common/src/ofs_impl.cc:243-263 | a set mounted for writing: its new log replays to what was recovered |
| `OfsFileSet.FileSet.ReadOnly` | external/pdlfs-common/src/ofs_impl.h:42-51 | a set without a log |
| `OfsFileSet.FileSet.Append` | external/pdlfs-common/src/ofs_impl.h:72-156 | appends the record of an operation: the log then adds up to the state after it, or keeps what was accepted of the record |
| `OfsFileSet.FileSet.Perform` | external/pdlfs-common/src/ofs_impl.h:72-156 | appends and syncs: exactly when this succeeds, and which of two states the log holds if it does not |
| `OfsFileSet.FileSet.TryCreateObject` | external/pdlfs-common/src/ofs_impl.h:72-83 | logs that the object may come into being: it is garbage until linked; refused without a log, and fails if appending or syncing does |
| `OfsFileSet.FileSet.Link` | external/pdlfs-common/src/ofs_impl.h:85-103 | maps the name and takes the object off the garbage, in memory and in the log; if it fails, memory is unchanged and the log holds the state before it or, if only the sync failed, the state after it |
| `OfsFileSet.FileSet.UnlinkAndDelete` | external/pdlfs-common/src/ofs_impl.h:105-124 | unmaps the name and lists the object as garbage, likewise |
| `OfsFileSet.FileSet.Unlink` | external/pdlfs-common/src/ofs_impl.h:126-143 | unmaps the name only, likewise |
| `OfsFileSet.FileSet.DeletedObject` | external/pdlfs-common/src/ofs_impl.h:145-156 | takes the object off the garbage, likewise |
| `OfsFileSet.FileSet.CrashSafe` | external/pdlfs-common/src/ofs_impl.cc:190-201 | whatever operations a set has seen, also if the last one failed, its log cut at any byte recovers the state after the last completely logged operation; the whole log recovers the logged state |
| `OfsCrash.NeverOrphans` | external/pdlfs-common/src/ofs_impl.cc:419-616 | in every history of PutFile, CopyFile, DeleteFile, Rename and collection over several sets, each cut after any number of its steps, every stored object is mapped by a set or is garbage of a set |
| `OfsMachine.RecoveredDisk` | external/pdlfs-common/src/ofs_impl.cc:154-616 | down to the bytes of the logs: in every history of operations, interruptions in the middle of any record, crashes, mounts and interrupted mounts over several sets, each set recovers from its two logs and, on the disk so recovered, every stored object is mapped by a set or is garbage of a set |
| `OfsMachine.EventKeeps` | external/pdlfs-common/src/ofs_impl.cc:154-616 | each such event keeps all sets recoverable and all objects known |
| `OfsMachine.TearSeen` | external/pdlfs-common/src/log_writer.cc:45-122 | an interrupted record has the effect of its operation if and only if all of it is there |
| `OfsMachine.UnsyncedIff` | external/pdlfs-common/src/ofs_impl.h:72-83 | if logs are not synced and a crash keeps a new object but loses the record that announced it, every object is still known if and only if that object was known before |
| `OfsCrash.ActKeeps` | external/pdlfs-common/src/ofs_impl.cc:419-616 | one operation cut after any number of steps keeps every object known |
| `OfsCrash.HarmlessStep` | external/pdlfs-common/src/ofs_impl.h:72-156 | when a single log record or object update keeps every stored object known |
| `OfsCrash.CreateHarmless` | external/pdlfs-common/src/ofs_impl.cc:425-447 | the steps of creating a file are harmless where they are taken, also if the link fails and the object is deleted |
| `OfsCrash.DeleteHarmless` | external/pdlfs-common/src/ofs_impl.cc:458-478 | so are those of deleting a file |
| `OfsCrash.RenameHarmless` | external/pdlfs-common/src/ofs_impl.cc:562-576 | so are those of renaming a file, within or between sets |
| `OfsCrash.CollectHarmless` | external/pdlfs-common/src/ofs_impl.cc:264-286 | so are those of collecting garbage at mount time, in any order |
| `OfsObject.Ofs.PutFile` | external/pdlfs-common/src/ofs_impl.cc:419-450 | whichever steps fail, what is left is exactly given: the object is garbage from the first step on until it is linked, and if linking fails it is gone exactly if collection is not deferred and the deletion worked; every stored object stays known; it succeeds if and only if the set is mounted and no step fails, and then the file reads the data |
| `OfsObject.Ofs.DeleteFile` | external/pdlfs-common/src/ofs_impl.cc:452-481 | likewise; it succeeds once the deletion is logged; then the name is gone, the object is gone exactly if it could be deleted, and it is off the garbage exactly if that could also be logged |
| `OfsObject.Ofs.Rename` | external/pdlfs-common/src/ofs_impl.cc:556-577 | likewise; an existing file is not overwritten, success moves the content and touches no other file, and if only the link was logged both names are there |
| `OfsObject.Ofs.CopyFile` | external/pdlfs-common/src/ofs_impl.cc:579-616 | likewise, as PutFile with what the source holds; success makes the copy read what the source reads |
| `OfsObject.Ofs.Collect` | external/pdlfs-common/src/ofs_impl.cc:264-286 | collection at mount time deletes the objects it can, takes off the list those whose deletion is logged, keeps all files and leaves no object unknown |
| `OfsFiles.PutEffect` | external/pdlfs-common/src/ofs_impl.cc:419-450 | the file reads what was put; other files are untouched if and only if none kept in the same object has different content |
| `OfsFiles.DeleteEffect` | external/pdlfs-common/src/ofs_impl.cc:452-481 | name and object go away; other files are untouched if and only if none is kept in that object |
| `OfsFiles.RenameEffect` | external/pdlfs-common/src/ofs_impl.cc:556-577 | the content moves and no other file is touched; a crash in between leaves both names on one object |
| `OfsFiles.PutExclusive` | external/pdlfs-common/src/ofs_impl.cc:425-436 | names stay on separate objects if and only if a file is overwritten or the object named after the new file is not in use |
| `OfsFiles.RecreateOverwrites` | external/pdlfs-common/src/ofs_impl.cc:426-431 | renaming a file away and creating the old name again makes the renamed file read the new data |
| `OfsFiles.MountKeepsFilesIff` | external/pdlfs-common/src/ofs_impl.cc:264-286 | mounting leaves all files readable if and only if none of the garbage it collects is a stored object that a file is kept in |
| `OfsFiles.PutCrashIff` | external/pdlfs-common/src/ofs_impl.cc:432-447 | exactly when PutFile, cut after any number of steps, with or without its link failing, leaves a state that is safe to mount: overwriting a file is not safe until it is linked again |
| `OfsFiles.PutContent` | external/pdlfs-common/src/ofs_impl.cc:419-450 | what every file reads after PutFile was cut after any number of steps: the old data, the new data, or nothing once the object was deleted because its link failed |
| `OfsFiles.FailedLinkIff` | external/pdlfs-common/src/ofs_impl.cc:436-446 | deleting the object after a failed link leaves all files as they were if and only if the object was new or held no file; overwriting a file with a failed link loses the file, without any crash |
| `OfsFiles.CopyIsPut` | external/pdlfs-common/src/ofs_impl.cc:579-616 | copying a file is, step by step, putting what the source holds |
| `OfsFiles.CopyEffect` | external/pdlfs-common/src/ofs_impl.cc:579-616 | the target reads what the source reads; other files are untouched if and only if those in the target's object read the same already |
| `OfsFiles.CopyCrashIff` | external/pdlfs-common/src/ofs_impl.cc:596-614 | exactly when CopyFile, cut after any number of steps, with or without its link failing, is safe to mount; a copy of a file without an object stops after its first step |
| `OfsFiles.FailedCopyIff` | external/pdlfs-common/src/ofs_impl.cc:602-613 | a copy whose link failed leaves all files as they were if and only if the target's object was new or held no file; otherwise the file copied over is lost |
| `OfsFiles.DeleteCrashIff` | external/pdlfs-common/src/ofs_impl.cc:465-478 | exactly when DeleteFile, cut after any number of steps, is safe to mount |
| `OfsFiles.RenameCrash` | external/pdlfs-common/src/ofs_impl.cc:572-576 | Rename is safe to mount wherever it is cut |
| `OfsFiles.UnnoticedLinkIff` | external/pdlfs-common/src/ofs_impl.h:85-103 | after a link that was logged but whose sync failed, renaming another file to the same name keeps the put object known if and only if some other file or set knew it before |
| `OfsFiles.LogNameIff` | external/pdlfs-common/src/ofs_impl.cc:33-41 | exactly which file names make the object of a new file the log of some set, which putting the file destroys |
| `OfsFiles.ForgetIff` | external/pdlfs-common/src/ofs_impl.cc:381-415 | deleting an empty set keeps every object known if and only if its remaining garbage is really deleted or known to another set |
| `HashTables.HashTable.constructor` | external/pdlfs-common/include/pdlfs-common/hashmap.h:60-60 | an empty table of four buckets |
| `HashTables.HashTable.FindPointer` | external/pdlfs-common/include/pdlfs-common/hashmap.h:67-73 | finds the slot of the entry with this key and hash if there is one, and otherwise the last slot of its bucket |
| `HashTables.HashTable.Inject` | external/pdlfs-common/include/pdlfs-common/hashmap.h:77-89 | the table's map gains or replaces one binding; the displaced entry is returned |
| `HashTables.HashTable.Insert` | external/pdlfs-common/include/pdlfs-common/hashmap.h:94-97 | likewise, finding the slot first |
| `HashTables.HashTable.Remove` | external/pdlfs-common/include/pdlfs-common/hashmap.h:113-121 | removes exactly the binding of a key and returns its entry |
| `HashTables.HashTable.RemoveEntry` | external/pdlfs-common/include/pdlfs-common/hashmap.h:101-110 | removes this very entry, or nothing |
| `HashTables.HashTable.Resize` | external/pdlfs-common/include/pdlfs-common/hashmap.h:139-163 | the map stays the same: nothing is lost or duplicated; the length is a power of two and has room for all |
| `HashTables.MoveAll` | external/pdlfs-common/include/pdlfs-common/hashmap.h:146-159 | relinking all chains into a new array keeps every entry exactly once, in its own bucket, and counts them |
| `HashTables.MoveChain` | external/pdlfs-common/include/pdlfs-common/hashmap.h:148-157 | the same for one chain, although moving an entry overwrites its link |
| `HashTables.NewLength` | external/pdlfs-common/include/pdlfs-common/hashmap.h:140-143 | the least power of two from four on that has room, as on 32 bits for up to 2^31 entries |
| `HashTables.DoublingEndsIff` | external/pdlfs-common/include/pdlfs-common/hashmap.h:140-143 | on 32 bits the doubling loop ends if and only if there are at most 2^31 entries |
| `HashTables.Walk` | external/pdlfs-common/include/pdlfs-common/hashmap.h:67-73 | follows a chain to the first match |
| `HashTables.SlotIs` | external/pdlfs-common/include/pdlfs-common/hashmap.h:67-68 | the bucket of a hash is its remainder by the length |
| `HashTables.UnlinkEntry` | external/pdlfs-common/include/pdlfs-common/hashmap.h:113-121 | cuts one entry out of its chain |
| `HashTables.ReplaceEntry` | external/pdlfs-common/include/pdlfs-common/hashmap.h:77-80 | puts one entry in the place of another |
| `HashTables.AppendEntry` | external/pdlfs-common/include/pdlfs-common/hashmap.h:77-80 | adds one entry at the end of its bucket |
| `HashMaps.HashMap.constructor` | external/pdlfs-common/include/pdlfs-common/hashmap.h:200-204 | an empty map |
| `HashMaps.HashMap.Insert` | external/pdlfs-common/include/pdlfs-common/hashmap.h:238-255 | binds the key; the entry goes to the end of the linked list, a previous one leaves table and list, and its value is returned |
| `HashMaps.HashMap.Erase` | external/pdlfs-common/include/pdlfs-common/hashmap.h:261-270 | unbinds the key in table and list and returns its value |
| `HashMaps.HashMap.Lookup` | external/pdlfs-common/include/pdlfs-common/hashmap.h:229-236 | the bound value or null |
| `HashMaps.HashMap.Contains` | external/pdlfs-common/include/pdlfs-common/hashmap.h:257-259 | whether the key is bound |
| `HashMaps.HashMap.Empty` | external/pdlfs-common/include/pdlfs-common/hashmap.h:214-216 | the list's head points to itself both ways if and only if nothing is bound |
| `HashMaps.HashMap.VisitAll` | external/pdlfs-common/include/pdlfs-common/hashmap.h:223-227 | visits every binding exactly once, in the order of the list |
| `HashMaps.Detach` | external/pdlfs-common/include/pdlfs-common/hashmap.h:183-186 | the pointer updates take exactly one entry out of the circular list |
| `HashMaps.Append` | external/pdlfs-common/include/pdlfs-common/hashmap.h:188-193 | the pointer updates add an entry at the end of the circular list |
| `LruCaches.RunKeeps` | external/pdlfs-common/include/pdlfs-common/lru.h:66-127 | over every run: each live entry is on exactly the list its references call for, the table holds exactly the cached entries, both usage counters are exact sums of charges, usage is within the capacity, idle entries are in the order of their last release, and each entry ever made is live or had its deleter called once |
| `LruCaches.StepKeeps` | external/pdlfs-common/include/pdlfs-common/lru.h:271-392 | every operation keeps all that, and only its own release takes a reference away from a client: nobody loses an entry they hold |
| `LruCaches.UnrefKeeps` | external/pdlfs-common/include/pdlfs-common/lru.h:176-190 | releasing a client's reference keeps the cache in order |
| `LruCaches.RemoveKeeps` | external/pdlfs-common/include/pdlfs-common/lru.h:210-215 | an entry taken out of the table is deleted if idle, and otherwise only loses the cache's reference |
| `LruCaches.EraseKeeps` | external/pdlfs-common/include/pdlfs-common/lru.h:345-350 | erasing a key keeps the cache in order and takes the key out of the table |
| `LruCaches.RefKeeps` | external/pdlfs-common/include/pdlfs-common/lru.h:385-392 | taking a reference keeps the cache in order and moves an idle entry to those in use |
| `LruCaches.EvictSpec` | external/pdlfs-common/include/pdlfs-common/lru.h:297-304 | eviction deletes the k longest idle entries in that order, where k is the least number that brings usage within the bound, or all |
| `LruCaches.EvictsOldest` | external/pdlfs-common/include/pdlfs-common/lru.h:142-147 | everything evicted became idle before everything that stays idle |
| `LruCaches.InsertKeeps` | external/pdlfs-common/include/pdlfs-common/lru.h:271-314 | insertion keeps the cache in order and usage within the capacity; the client gets a reference to the new entry and keeps all its others |
| `LruCaches.AdmitKeeps` | external/pdlfs-common/include/pdlfs-common/lru.h:289-296 | caching the new entry and dropping the one with the same key keeps the cache in order |
| `LruEffects.InsertCachedIff` | external/pdlfs-common/include/pdlfs-common/lru.h:271-314 | with caching on, the new entry is cached if and only if it fits beside the entries that clients are using, not counting the one it displaces; what it holds; and the entry the key led to before is no longer cached |
| `LruEffects.InsertUncached` | external/pdlfs-common/include/pdlfs-common/lru.h:284-288 | with caching off, the entry belongs to the client only and nothing else changes |
| `LruEffects.InsertMakesRoom` | external/pdlfs-common/include/pdlfs-common/lru.h:293-311 | what goes for an insertion: the displaced entry and, of the idle ones, those idle longest and no more than needed; all other keys and entries are as they were |
| `LruEffects.InsertThenLookup` | external/pdlfs-common/include/pdlfs-common/lru.h:271-326 | a lookup right after an insertion finds what was inserted if it was cached, and nothing otherwise |
| `LruEffects.LookupEffect` | external/pdlfs-common/include/pdlfs-common/lru.h:320-326 | a lookup gives one more reference to the entry of the key, which is idle no more, and changes nothing else |
| `LruEffects.EraseEffect` | external/pdlfs-common/include/pdlfs-common/lru.h:345-350 | erasing a key takes it out of the table; its entry is deleted if idle and else stays with its clients; other keys are not touched |
| `LruEffects.EraseEntryEffect` | external/pdlfs-common/include/pdlfs-common/lru.h:354-359 | erasing an entry erases its key if the key still leads to it, and does nothing otherwise |
| `LruEffects.StepRefs` | external/pdlfs-common/include/pdlfs-common/lru.h:176-392 | each operation gives and takes exactly the client references it should |
| `LruEffects.RunRefs` | external/pdlfs-common/include/pdlfs-common/lru.h:66-127 | over every run from an empty cache, clients have as many references to an entry as they were given and did not release; as long as there is one, the entry is live |
| `LruObject.LRUCache.constructor` | external/pdlfs-common/include/pdlfs-common/lru.h:219-226 | an empty cache |
| `LruObject.LRUCache.Unref` | external/pdlfs-common/include/pdlfs-common/lru.h:176-190 | the in-place update, with the entry moved between the linked lists or freed, does what the specification does |
| `LruObject.LRUCache.Remove` | external/pdlfs-common/include/pdlfs-common/lru.h:210-215 | likewise |
| `LruObject.LRUCache.Ref` | external/pdlfs-common/include/pdlfs-common/lru.h:385-392 | likewise |
| `LruObject.LRUCache.Insert` | external/pdlfs-common/include/pdlfs-common/lru.h:271-314 | likewise, with the new entry linked in and the eviction loop; the returned handle is held by the client |
| `LruObject.LRUCache.EvictTo` | external/pdlfs-common/include/pdlfs-common/lru.h:297-304 | the eviction loop, which follows the list from its oldest end, computes the specified eviction |
| `LruObject.LRUCache.Lookup` | external/pdlfs-common/include/pdlfs-common/lru.h:320-326 | returns the cached entry, held by the client, or none |
| `LruObject.LRUCache.Release` | external/pdlfs-common/include/pdlfs-common/lru.h:375-378 | gives up one reference |
| `LruObject.LRUCache.Erase` | external/pdlfs-common/include/pdlfs-common/lru.h:345-350 | the key is no longer cached |
| `LruObject.LRUCache.EraseEntry` | external/pdlfs-common/include/pdlfs-common/lru.h:354-359 | erases this very entry if it is the cached one |
| `LruObject.LRUCache.Prune` | external/pdlfs-common/include/pdlfs-common/lru.h:329-337 | no idle entry is left |
| `LruLists.Lists.constructor` | external/pdlfs-common/include/pdlfs-common/lru.h:221-226 | two empty circular lists |
| `LruLists.Lists.Remove` | external/pdlfs-common/include/pdlfs-common/lru.h:192-195 | relinking its neighbours takes an entry off whichever of the two lists it is on and leaves the other list alone |
| `LruLists.Lists.Append` | external/pdlfs-common/include/pdlfs-common/lru.h:197-203 | relinking puts a loose entry at the newest end of the list asked for and leaves the other list alone |
| `LruLists.Lists.Add` | external/pdlfs-common/include/pdlfs-common/lru.h:272-283 | a new entry on the list of those in use |
| `LruLists.Lists.Oldest` | external/pdlfs-common/include/pdlfs-common/lru.h:298-299 | the entry after the dummy head is the one idle longest, and the head itself if there is none |
| `BlkRuns.ReadRefines` | src/libdeltafs/util/blkdb.cc:378-489 | after any non-empty writes with pairwise disjoint or identical extents, a read delivers exactly min(size, length - offset) bytes: the last data written to each, zeros in holes |
| `BlkRuns.WritesRefine` | src/libdeltafs/util/blkdb.cc:284-314 | the blocks left in the database hold the sparse file that is the sum of the writes, and end where it ends |
| `BlkDb.FetchIsFile` | src/libdeltafs/util/blkdb.cc:425-466 | if no block starts at or before the key of an earlier one, the read loop delivers exactly the bytes of the file from the offset on, holes as zeros, up to the size asked for or the end |
| `BlkDb.ChunkIsFile` | src/libdeltafs/util/blkdb.cc:442-460 | one round of the loop delivers a piece of the file |
| `BlkDb.ReuseIsSeek` | src/libdeltafs/util/blkdb.cc:401-423 | a saved cursor is reused only where a fresh seek would have put it |
| `BlkDb.WriteContent` | src/libdeltafs/util/blkdb.cc:284-293 | a write whose extent is that of an existing block or overlaps none changes exactly its own bytes of the file |
| `BlkDb.InsertApart` | src/libdeltafs/util/blkdb.cc:284-293 | such a write keeps blocks apart |
| `BlkEmpty.EmptyWriteIff` | src/libdeltafs/util/blkdb.cc:286-293 | after an empty write, reads of any size from any offset within the file still give what was written if and only if no block covers the byte before it or the bytes of that block before it are zero |
| `BlkEmpty.EmptyWriteReads` | src/libdeltafs/util/blkdb.cc:284-466 | what every read delivers after an empty write inside a block: zeros in place of what that block holds before the offset of the write, and otherwise the file |
| `BlkCursor.AlwaysFreshIff` | src/libdeltafs/util/blkdb.cc:378-489 | with reads and writes of one handle running concurrently, the cursor kept for the next read shows every write that has returned, in all runs, if and only if reads do not overlap with writes or writes do not fail |
| `BlkCursor.StepInv` | src/libdeltafs/util/blkdb.cc:284-489 | in those configurations every step keeps all cursors that may be saved up to date |
| `BlkCursor.StaleRun` | src/libdeltafs/util/blkdb.cc:476-482 | otherwise: a read starts, a write completes, another one fails and resets the count of writes, and the read saves its outdated cursor |
| `BlkStream.Stream.WriteTo` | src/libdeltafs/util/blkdb.cc:284-314 | stores the block, drops the cursor, extends the length; the file is overlaid with the data; a write that ends at or beyond 2^64 wraps round and cannot be read back; a failed write only marks the stream |
| `BlkStream.Stream.ReadFrom` | src/libdeltafs/util/blkdb.cc:378-489 | exactly min(size, length - offset) bytes of the file, with or without a saved cursor, even if offset + size wraps round; none beyond the end |
| `BlkStream.Stream.Write` | src/libdeltafs/util/blkdb.cc:316-331 | writes at the position and advances it; refused after a failed write |
| `BlkStream.Stream.Read` | src/libdeltafs/util/blkdb.cc:491-505 | reads at the position and advances it |
| `BlkStream.ReadLoop` | src/libdeltafs/util/blkdb.cc:425-465 | the loop delivers what its specification delivers and leaves the cursor on a proper block |
| `BlkStream.Position` | src/libdeltafs/util/blkdb.cc:401-423 | the starting block is that of a fresh seek |
| `Inode.RunUnique` | src/libdeltafs/mds_srv.cc:148-168 | however creations interleave, succeed and fail, no two operations in flight or entries created share an inode number, and an entry once created keeps its own, as long as the 64-bit counter does not wrap round |
| `Inode.RunWithin` | src/libdeltafs/mds_srv.cc:151-158 | with checks on, numbers stay within the server's own range |
| `Inode.NeverClashIff` | src/libdeltafs/mds.cc:69-73 | different servers never hold the same number, whatever they do, if and only if the checks are on |
| `Inode.NeverRepeatsIff` | src/libdeltafs/mds_srv.cc:148-168 | a server never gives out a number that is still held, whatever it does, if and only if the checks are on: otherwise the counter wraps round in the end |
| `Inode.FullIff` | src/libdeltafs/mds_srv.cc:148-160 | a number is the one after the last, and a server with checks on stops with the last one of its range and not before |
| `Inode.WholeRange` | src/libdeltafs/mds_srv.cc:148-160 | such a server can give out all numbers of its range, and then no more |
| `Inode.GiveUpUndoes` | src/libdeltafs/mds_srv.cc:163-168 | giving up the number got last undoes getting it; any other number stays used up |
| `Inode.Counter.constructor` | src/libdeltafs/mds.cc:69-73 | a server starts at its own base |
| `Inode.Counter.Allocate` | src/libdeltafs/mds_srv.cc:148-160 | the next number, held by nobody unless the counter wrapped round, which it cannot with checks on; the last one of the range closes the server |
| `Inode.Counter.TryReuseIno` | src/libdeltafs/mds_srv.cc:163-168 | takes a number back exactly if it was the last one given out |
| `RandomSequences.PermuteInjective` | external/pdlfs-common/src/random.cc:16-24 | the quadratic-residue permutation maps different words to different words |
| `RandomSequences.PermuteSurjective` | external/pdlfs-common/src/random.cc:16-24 | and reaches every word |
| `RandomSequences.HalvesDiffer` | external/pdlfs-common/src/random.cc:21-23 | no square of the lower half is the negative of a square of the upper half |
| `RandomSequences.PermuteIsSquare` | external/pdlfs-common/src/random.cc:16-24 | below the prime a number goes to its square, or above half of the prime to the negative of its square, modulo the prime; the few numbers above it stay |
| `RandomSequences.OutputInjective` | external/pdlfs-common/src/random.cc:31-33 | addition and exclusive or in between keep it one to one |
| `RandomSequences.OutputIs` | external/pdlfs-common/src/random.cc:31-33 | the number at an index is the permutation of the permuted and shifted index with the bits of a constant turned over |
| `RandomSequences.NoRepeats` | external/pdlfs-common/src/random.cc:31-33 | no number repeats within 2^32 consecutive calls |
| `RandomSequences.RandomSequence.constructor` | external/pdlfs-common/src/random.cc:26-29 | the starting index and offset |
| `RandomSequences.RandomSequence.Next` | external/pdlfs-common/src/random.cc:31-33 | the number at the index, which advances |
| `RandomSequences.RandomSequence.Skip` | external/pdlfs-common/include/pdlfs-common/random.h:84-85 | advances the index |
| `RandomSequences.RandomSequence.Draw` | external/pdlfs-common/src/random.cc:31-33 | any number of calls up to 2^32 gives as many different numbers, those at the following indices |
| `Primes.Prime4294967291` | external/pdlfs-common/src/random.cc:17-17 | the modulus is prime (proved, with a certificate) |
| `NumberTheory.SumOfSquares` | external/pdlfs-common/src/random.cc:16-24 | a prime that is 3 modulo 4 divides no sum of two squares of smaller numbers, one of them positive: the fact the permutation rests on |
| `FsKeys.PrefixFree` | external/pdlfs-common/src/fsdbbase.cc:100-108 | key prefixes can be told apart whatever follows them |
| `FsKeys.ScanSelects` | external/pdlfs-common/src/fsdbbase.cc:100-108 | a key starts with a prefix if and only if it is of that directory and type |
| `FsKeys.OffsetOrder` | external/pdlfs-common/src/fsdbbase.cc:63-66 | data-block keys of one file sort bytewise in the order of their offsets |
| `FsKeys.BigEndianRoundTrip` | external/pdlfs-common/src/fsdbbase.cc:298-304 | an offset is read back from its bytes |
| `FsKeys.Key.constructor` | external/pdlfs-common/src/fsdbbase.cc:168-171 | a key of a directory and type |
| `FsKeys.Key.SetType` | external/pdlfs-common/src/fsdbbase.cc:89-91 | changes the type and nothing else |
| `FsKeys.Key.SetHash` | external/pdlfs-common/src/fsdbbase.cc:58-61 | changes the suffix and nothing else |
| `FsKeys.Key.SetOffset` | external/pdlfs-common/src/fsdbbase.cc:63-66 | sets the suffix to the big-endian offset |
| `FsKeys.Key.Parts` | external/pdlfs-common/src/fsdbbase.cc:232-304 | what was put into a key is what its accessors read back |
| `FsTypes.StatRoundTrip` | external/pdlfs-common/src/fstypes.cc:22-110 | a stat record decodes, whatever follows, to itself and exactly what follows, and takes at most 80 bytes |
| `FsTypes.LookupStatRoundTrip` | external/pdlfs-common/src/fstypes.cc:113-179 | a lookup result likewise, in at most 60 bytes |
| `FsTypes.CutRefused` | external/pdlfs-common/src/fstypes.cc:46-179 | either record cut off anywhere is refused |
| `FsTypes.EncodeStat` | external/pdlfs-common/src/fstypes.cc:22-45 | the encoder writes the ten numbers in the source's order, at most 80 bytes, which decode to the record |
| `FsTypes.EncodeLookupStat` | external/pdlfs-common/src/fstypes.cc:113-131 | likewise the eight numbers of a lookup result, in at most 60 bytes |

## Left out

- GigaClient.ParseDirIndex: a stored radix of 31 or more shifts an int beyond its width, which the language leaves undefined; the model computes with 2^radix, so that such an index is refused for its size.
- GigaClient.DirIndex.Update: requires that an encoding that parses also has the radix of its highest partition and at most 8192 bitmap bytes; with checks off the code only asserts this after merging.
- GigaClient.DirIndex.SetAll: requires at most 8192 virtual servers, the limit that the code asserts (see GigaRep.DoubledIff for why).
- GigaRouting.SendRequest: servers and client hold their indices as values, and a call is a lookup in the table of servers; requires at least one allowed redirect, as a budget of zero or less never reaches zero by decrementing and has no end.
- LeaseServer.Server.AcquireLease: leases are values in a map, so sharing of one lease object between handles is not captured; the sleep-and-retry loop for a full table is the absence of a step.
- LeaseProtocol: one directory is modelled in full, and of the others only the entries they take, hold and release in the shared table; loading the transaction pointer and taking a reference to it is one step; directory loading, permissions and redirects inside Lookup are not modelled; names stand for name hashes.
- LogIO.Reader.constructor: reading starts at the beginning of the file; the resynchronisation at an initial offset is not modelled, and neither is the writer's own offset counter.
- LogIO.Reader.NextBlock: reading a block of the file does not fail.
- LogIO.Reader.ReadPhysicalRecord: reading a block of the file does not fail.
- LogIO.Writer.AddRecord: a file that fails accepts a prefix of what is appended and nothing after that within the same record.
- LogFailure.OutOfStepIff: covers a next record that fits what the writer takes for its block; whether garbage in front of a record passes for a header depends on the checksum.
- OfsFileSet.FileSet.Append: after a failed append the set goes on being used, as in the code, but only its files in memory are then specified, not what its log recovers to (LogFailure.OutOfStepIff shows that this can be nothing).
- OfsFileSet.FileSet.Link: names are non-empty, contain no zero byte and are shorter than 2^32, as paths guarantee.
- OfsCrash.NeverOrphans: log objects are not in the store, so names excluded by OfsFiles.LogNameIff are assumed; failed appends leave nothing (OfsMachine.RecoveredDisk has the bytes they leave).
- OfsMachine.RecoveredDisk: a set whose log was torn is mounted again before it is used again, and logs are synced before the next step.
- OfsObject.Ofs.PutFile: a set is represented by the state its log replays to, and a failed append leaves that state; error codes are reduced to success and failure.
- OfsObject.Ofs.DeleteFile: a failed append leaves the state that the log replays to as it was.
- OfsObject.Ofs.Rename: a failed append leaves the state that the log replays to as it was (see OfsFiles.UnnoticedLinkIff for one that does not).
- OfsObject.Ofs.CopyFile: a failed append leaves the state that the log replays to as it was.
- HashTables.HashTable.Resize: lengths are unbounded integers, and HashTables.DoublingEndsIff says when that agrees with 32 bits; masking with a power of two less one is written as a remainder.
- LruObject.LRUCache.Insert: the table is a map (the hash table itself is in HashTable.dfy), addresses are numbers that are never reused, and a map stands for memory; SetCapacity is left out.
- BlkStream.Stream.WriteTo: overlapping blocks that are not identical have no specified content, and neither has a file after a write that wrapped round; the database is the ordered sequence of one file's blocks.
- BlkStream.Stream.ReadFrom: one call at a time (BlkCursor has the interleavings, for the cursor); beyond the end the result is empty, where the code leaves the caller's slice alone.
- BlkCursor.AlwaysFreshIff: the count of writes is an unbounded integer rather than 32 bits wide, and blocks are counted rather than stored.
- BlkDb: stream headers, flushing, several handles on one file and iterator errors are not modelled.
- FsKeys.Key.constructor: only the deltafs layout of keys; names are hashed by an unspecified function.
- Path resolution, permission checks, the RPC layer, sessions, directory loading and the storage back ends: not modelled; they call the parts that are.
- Memory ordering of atomic pointers: every shared access is one atomic step.
- Other stores in the repository (plfsio, the LevelDB fork, Env and Fio back ends): outside this model.
