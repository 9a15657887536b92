# Verified model of the iXSphereVFS storage core

A Dafny model of the versioned file system iXSphereVFS: how epochs, snapshots and commits
decide what a reader sees; how pages reach the disk and survive a crash; how pages and
slots are allocated; and how deleted files are collected. `dafny verify dfyconfig.toml`
checks everything.

How the files fit together:

- `Mapper`, `EpochChain`, `EpochRuns`, `EpochStore`: the epoch mapper, version chains and
  the read rule, as a step system (snapshot, write, commit, soft-delete) with an invariant
  over all runs, what readers are promised across runs, and the imperative operations that
  take exactly those steps.
- `FileDeletion`, `SlotChain`: the collector's pass over a deleted file, first which data
  pages are dead, then the unlinking of its directory entries.
- `Crc32c`, `Mirror`, `PageCache`, `Storage`: the checksum, the two-copy pages, the cache,
  and the proof that together they behave as one flat map from page to payload.
- `Indirection`: the logical-to-physical table, allocation at the tail, and loading.
- `BinQueue`, `BinConcurrent`, `BinOutcome`: the collector's work queue, one operation at a
  time, under every interleaving of any number of producers, and when a push may fail.
- `TreeLock`, `PoolPage`, `HashTable`, `SparseArray`: the reader/writer word, one pool page,
  the hash map over its sparse array.
- `Options`, `Sequences`, `Arithmetic`: small definitions and facts that several files use.

Where a property the code is meant to have does not hold, the model keeps the code as it
is, gives an input for which it fails, and proves exactly when it holds:

- A partial write copies its base page without consulting the mapper, so after a commit it
  drops the committed bytes (`EpochRuns.PartialWriteDropsCommitted`, `CopyBaseIsVisibleIff`,
  `PartialWriteKeepsRest`).
- The commit scan does not visit directory and size chains, so a commit can be shadowed
  there, and a later write in place as well (`EpochRuns.UnscannedCommitLosesDelete`,
  `UnscannedCommitPublishesIff`, `ReadYourWriteIff`). Isolation of snapshots does not depend
  on the scan.
- An odd epoch nobody was given is accepted for writing, and the snapshot that gets its
  number later starts from what was written (`EpochStore.UnissuedWriteBreaksSnapshot`,
  `EpochRuns.SnapshotReadsBaseIff`).
- The alias -1 is accepted but is not the head: whatever is written through it is read by
  nobody, and reading through it finds nothing (`EpochStore.AliasWriteIsInvisible`,
  `EpochStore.PageStore.ReadPage`).
- The deletion pass keeps the earliest 64 active snapshots, although its comment says the
  latest; it is safe for every file exactly up to 64 (`FileDeletion.SafeIffFewSnapshots`).
- Dropping directory entries leaves the tombstone linked, though its slot is given back,
  exactly when the create entry is directly in front of it
  (`SlotChain.FreedTombstoneStaysLinked`, `FreedAreUnlinkedIff`). A file renamed inside its
  directory comes back under its old name (`SlotChain.RenamedFileReappears`); for which
  readers a file comes back is `SlotChain.SeenAfterDropIff`.
- Overflow pages of the indirection table are flushed through the mirror but loaded from
  their own record, so every second flush is lost to the next load
  (`Mirror.DirectReadIsLastFlushIff`).
- A second crash on the same page, before a completed write, can lose both copies
  (`Mirror.SecondCrashLosesBoth`); a page survives every rejected tear exactly when its
  younger half is intact (`Mirror.SurvivesTearsIff`).
- A full flush writes exactly the dirty pages of the four known priorities
  (`Storage.Backend.FlushAll`). Every caller in `src` passes one of those four.
- The Bin is described as first in, first out; it is so exactly when a page holds one item
  (`BinQueue.FirstInFirstOutIff`).
- The tree lock can look exclusively held with nobody holding it, exactly when there are at
  least 2^31 threads; exclusion itself holds for any number of threads
  (`TreeLock.TooManyReadersLookExclusive`, `MutualExclusion`).

## Model

| member | source | states |
|---|---|---|
| `Mapper.ResolveIdempotent` | src/mapper.c:63-87 | Resolving a resolved epoch changes nothing, in every single-hop mapper |
| `Mapper.AcceptsIffSingleHop` | src/mapper.c:10-61 | The four refusals are exactly what keeps the mapper single-hop |
| `Mapper.ResolveAfterInsert` | src/mapper.c:10-61 | An insert changes the answer for its own source only |
| `Mapper.SameEntriesSameAnswers` | src/mapper.c:199-217 | Any two single-hop orders of the same entries give the same target and flag for every epoch |
| `Mapper.EpochMapper.constructor` | src/mapper.c:5-8 | Starts with an empty chain and table |
| `Mapper.EpochMapper.Insert` | src/mapper.c:10-61 | Accepts exactly when nothing clashes; prepends to the chain, appends to the table, keeps both single-hop with the same entries |
| `Mapper.EpochMapper.ResolveChain` | src/mapper.c:63-87 | Walks the chain to the target |
| `Mapper.EpochMapper.ResolveTable` | src/mapper.c:199-217 | The appended table answers as the prepended chain does, target and flag |
| `Mapper.EpochMapper.Rebuild` | src/mapper.c:256-306 | A rebuilt table still answers as the chain does |
| `EpochChain.Pick` | src/gc_bin_file_deleted.c:607-648 | The first entry the read rule allows, and none allowed before it |
| `EpochChain.FirstIsYoungest` | src/tree.c:791-841 | In an ordered chain the first allowed entry has the greatest effective epoch of all allowed ones |
| `EpochChain.CommitKeepsOrder` | src/epoch.c:249-298 | Re-tagging a snapshot that passed the conflict scan keeps the chain ordered |
| `EpochChain.PrependKeepsOrder` | src/tree.c:3816-4052 | A new version in front keeps the chain ordered |
| `EpochChain.OverwriteKeepsOrder` | src/tree.c:3881-3926 | A write in place keeps the chain ordered |
| `EpochChain.StepKeepsConsistent` | src/epoch.c:309-422 | Every step, commits unscanned on this chain included, keeps every mapping odd to even, single-hop and within the issued epochs, and every entry at or below the head |
| `EpochChain.RunKeepsConsistent` | src/epoch.c:309-422 | That holds after every run |
| `EpochChain.StepKeepsStacked` | src/epoch.c:309-422 | Every step, commits unscanned on this chain included, leaves nothing younger stored behind an even effective epoch |
| `EpochChain.RunKeepsReached` | src/epoch.c:309-422 | So does every run |
| `EpochChain.StepKeepsValid` | src/epoch.c:309-358 | Every step whose commit passed the scan on this chain also keeps the order |
| `EpochChain.RunKeepsValid` | src/epoch.c:309-358 | The order holds after every run whose commits passed the scan on this chain |
| `EpochChain.ReachableReadsYoungest` | src/tree.c:791-841 | In every volume reached by such runs, at every epoch asked for, the entry taken is the youngest allowed |
| `EpochRuns.StepKeepsRead` | src/epoch.c:336-358 | One step not at an epoch, a commit the scan never saw included, leaves what that epoch reads |
| `EpochRuns.RunKeepsRead` | src/epoch.c:309-422 | Isolation over all runs, scanned or not: an active snapshot's reads change only through writes at that snapshot |
| `EpochRuns.PastIsImmutable` | src/epoch.c:9-25 | Over all runs, scanned or not, what a past head reads never changes again |
| `EpochRuns.RunKeepsOneEach` | src/tree.c:3881-3926 | Page writes over any run never leave an epoch with two versions of a page |
| `EpochRuns.HeadCountsSnapshots` | src/epoch.c:27-52 | Over every run the head moves by two for each snapshot taken and for nothing else |
| `EpochRuns.SnapshotReadsBase` | src/epoch.c:27-52 | A new snapshot is active and reads what the head read, on chains in any order |
| `EpochRuns.SnapshotReadsBaseIff` | src/epoch.c:9-52 | Whatever is stored: the next snapshot picks what the head picks exactly when no entry already under its number comes first |
| `EpochRuns.ReadYourWriteIff` | src/tree.c:3881-3926 | A new entry is what its epoch reads next; one changed in place is, exactly when nothing readable stands in front |
| `EpochRuns.ReadYourWrite` | src/tree.c:3816-4052 | In every volume a run can reach, a snapshot's write is what it reads next, in place or not; the head's is too, unless an entry committed into it stands in front of its own, and only then is it shadowed |
| `EpochRuns.RunKeepsMapping` | src/mapper.c:10-61 | A mapping once made answers the same for ever |
| `EpochRuns.DeletedSnapshotReadsBase` | src/epoch.c:375-422 | Whatever happened before and after, a soft-deleted snapshot reads exactly the base it was taken from |
| `EpochRuns.CommitPublishes` | src/epoch.c:309-358 | After a commit that passed the scan, whatever earlier commits did, head and snapshot read the snapshot's version if it wrote the chain, else what the head read |
| `EpochRuns.ReachableCommitPublishes` | src/epoch.c:309-358 | So it is in every volume any run from a fresh one leads to |
| `EpochRuns.UnscannedCommitPublishesIff` | src/epoch.c:249-298 | On a chain in any order, scanned or not, a commit is seen exactly when no head-side entry is in front |
| `EpochRuns.UnscannedCommitLosesDelete` | src/tree.c:1862-1869 | A run from a fresh volume after which a committed delete is never seen |
| `EpochRuns.ConflictIff` | src/epoch.c:293-298 | For an active snapshot the scan reports a conflict if and only if the snapshot itself wrote the chain and a younger head-side version is there |
| `EpochRuns.HeadSideIff` | src/epoch.c:288-295 | A version counts as head-side if and only if a younger head stored it or a snapshot committed into one did |
| `EpochRuns.CommitAcceptedIff` | src/epoch.c:309-358 | The mapper takes a commit exactly when the head has none yet |
| `EpochRuns.SoftDeleteAcceptedIff` | src/epoch.c:375-408 | A soft-delete is taken exactly when nothing was committed into the snapshot's base |
| `EpochRuns.CopyBaseIsVisibleIff` | src/tree.c:3928-3946 | On a chain in any order, a copying write starts from the version its epoch reads exactly when that is not a committed snapshot's |
| `EpochRuns.PartialWriteKeepsRest` | src/tree.c:3881-3950 | On a chain in any order, a write that starts from what its epoch reads changes the written bytes only |
| `EpochRuns.OtherwiseNotItsOwn` | src/tree.c:3881-3950 | Any other write starts from another version, or lands behind the one its epoch reads |
| `EpochRuns.CommittedExampleRuns` | src/epoch.c:309-358 | A run from a fresh volume that commits a page |
| `EpochRuns.PartialWriteDropsCommitted` | src/tree.c:3928-3946 | After that run a partial write loses committed bytes |
| `EpochStore.PageStore.constructor` | src/epoch.c:27-52 | A fresh store: head 0, empty mapper and chains |
| `EpochStore.PageStore.IsWritable` | src/epoch.c:9-25 | Head, alias, or an odd epoch without mapping; for issued epochs exactly the step system's writability |
| `EpochStore.PageStore.Snapshot` | src/epoch.c:27-52 | Takes the snapshot step on every chain and returns the odd epoch |
| `EpochStore.PageStore.ChainWalk` | src/tree.c:791-841 | The walk returns what the read rule picks |
| `EpochStore.PageStore.ReadPage` | src/tree.c:4062-4168 | Resolves the epoch, then reads by the rule; the alias -1 finds nothing |
| `EpochStore.PageStore.WritePageAt` | src/tree.c:3816-4052 | Refused exactly when not writable; other chains untouched; at an issued epoch or the head it is the write step of the step system |
| `EpochStore.PageStore.Written` | src/tree.c:3881-4010 | In place if the epoch has a version, else a new one copied from the raw base |
| `EpochStore.PageStore.FindOwn` | src/tree.c:3881-3901 | The first version stored under the epoch |
| `EpochStore.PageStore.FindBase` | src/tree.c:3928-3946 | The first version under an even epoch below |
| `EpochStore.PageStore.ScanChain` | src/epoch.c:249-298 | Reports exactly the conflict of which `EpochRuns.ConflictIff` says when it is there: the snapshot wrote the chain, and so did a younger head |
| `EpochStore.PageStore.CommitSnapshot` | src/epoch.c:309-373 | Each refusal exactly when its cause is there; otherwise every chain takes the commit step, and the visited ones passed the scan |
| `EpochStore.PageStore.DeleteSnapshot` | src/epoch.c:375-422 | Each refusal exactly when its cause is there; otherwise every chain takes the soft-delete step |
| `EpochStore.AliasWriteIsInvisible` | src/tree.c:3948-4010 | Pages written through alias -1, however often, are read by nobody, head included |
| `EpochStore.UnissuedWriteBreaksSnapshot` | src/epoch.c:9-25 | A write at an odd epoch not yet issued shows up in the snapshot taken next |
| `FileDeletion.CollectActive` | src/gc_bin_file_deleted.c:293-315 | Fills the array with the first 64 active snapshots in order |
| `FileDeletion.CollectsActive` | src/gc_bin_file_deleted.c:293-315 | The unmapped odd epochs below the head are exactly the active snapshots |
| `FileDeletion.VisibleAt` | src/gc_bin_file_deleted.c:361-370 | One visibility flag per reference point; all false without a slot |
| `FileDeletion.IsLive` | src/gc_bin_file_deleted.c:414-440 | Live exactly when some reference point sees the file and may take the version, dead exactly when nobody takes it |
| `FileDeletion.ClassifyChain` | src/gc_bin_file_deleted.c:398-446 | Appends the dead pages of one version chain, as far as they fit |
| `FileDeletion.Classify` | src/gc_bin_file_deleted.c:336-451 | Lists the dead pages of all segments in order, as far as they fit |
| `FileDeletion.DeadPages` | src/gc_bin_file_deleted.c:119-160 | Lists only pages of versions nobody takes, and all of them unless the list is full; with at most 64 active snapshots and unshared pages, nothing listed can be read at the head or an active snapshot |
| `FileDeletion.DeadIff` | src/gc_bin_file_deleted.c:414-443 | A page is called dead if and only if some version holding it can be taken by no reference point that sees the file |
| `FileDeletion.VisibleIff` | src/gc_bin_file_deleted.c:677-698 | The file shows at an epoch if and only if what the slot reads there is a named entry for it |
| `FileDeletion.ListIsExact` | src/gc_bin_file_deleted.c:441-443 | The list cut at 1024 holds given-up pages only, and every one of them if it fits |
| `FileDeletion.UnseenFileIsAllDead` | src/gc_bin_file_deleted.c:347-357 | Once no reference point sees the file, all its data pages are given up |
| `FileDeletion.FewSnapshotsAreSafe` | src/gc_bin_file_deleted.c:336-451 | The safety of the pass, stated on the lists |
| `FileDeletion.LateFileIsLost` | src/gc_bin_file_deleted.c:40-44 | With 65 active snapshots, a file made after the 64th loses a page the 65th still reads |
| `FileDeletion.SafeIffFewSnapshots` | src/gc_bin_file_deleted.c:293-315 | Safe for every file if and only if at most 64 snapshots are active |
| `SlotChain.DirSlot.PickSlot` | src/gc_bin_file_deleted.c:607-648 | Following the links finds the entry the read rule picks |
| `SlotChain.DirSlot.SeesFile` | src/gc_bin_file_deleted.c:677-698 | True exactly when the picked entry is named and leads to the file |
| `SlotChain.DirSlot.FindCreate` | src/gc_bin_file_deleted.c:756-781 | The first named entry for the file, 0 exactly when there is none |
| `SlotChain.DirSlot.FindPredecessor` | src/gc_bin_file_deleted.c:945-968 | The slot whose link leads to the target, 0 exactly when none after the start does |
| `SlotChain.DirSlot.Locate` | src/gc_bin_file_deleted.c:945-996 | The pointer leading to a slot |
| `SlotChain.DirSlot.SwapHead` | src/gc_bin_file_deleted.c:816-835 | Compare-and-swap of the head pointer |
| `SlotChain.DirSlot.SwapNext` | src/gc_bin_file_deleted.c:840-859 | Compare-and-swap of one next pointer |
| `SlotChain.DirSlot.DropCreate` | src/gc_bin_file_deleted.c:1009-1047 | Exactly the create entry leaves the chain, the rest keeps its order |
| `SlotChain.DirSlot.DropTombstone` | src/gc_bin_file_deleted.c:1049-1087 | Exactly the tombstone leaves the chain, unless its recorded predecessor was the create entry |
| `SlotChain.DirSlot.SeenAgain` | src/gc_bin_file_deleted.c:910-923 | The recheck: some reference point sees the file |
| `SlotChain.SeenIff` | src/gc_bin_file_deleted.c:910-923 | The recheck stops a drop if and only if some reference point reads a named entry for the file |
| `SlotChain.DirSlot.Drop` | src/gc_bin_file_deleted.c:900-1111 | Nothing changes if the file is seen or the tombstone is gone; otherwise the chain becomes `Dropped`, entries untouched, still acyclic |
| `SlotChain.TombstoneFirst` | src/gc_bin_file_deleted.c:900-1111 | With the tombstone ahead exactly the two entries go and the rest keeps its order |
| `SlotChain.DropsBothIff` | src/gc_bin_file_deleted.c:1054-1087 | Both go if and only if the create entry is not directly in front of the tombstone |
| `SlotChain.FreedAreUnlinkedIff` | src/gc_bin_file_deleted.c:233-250 | No slot given back after a drop is still linked, if and only if the create entry is not directly in front of the tombstone |
| `SlotChain.RenameInSnapshotRuns` | src/tree.c:2602-2626 | A run from a fresh volume that puts a rename directly in front of the tombstone |
| `SlotChain.FreedTombstoneStaysLinked` | src/gc_bin_file_deleted.c:1054-1087 | There the file is unseen, the drop succeeds, and the tombstone's slot is given back while linked |
| `SlotChain.HiddenAfterEachSwap` | src/gc_bin_file_deleted.c:998-1007 | If the create entry is the only named one, no epoch sees the file after the first swap or the second |
| `SlotChain.PickWithout` | src/gc_bin_file_deleted.c:607-648 | Taking an entry out moves a reader's pick only if that entry was picked, and then to what lies behind it |
| `SlotChain.SeenAfterDropIff` | src/gc_bin_file_deleted.c:998-1087 | A reader who did not see the file does not after the first swap, and does after the second if and only if the tombstone went, was what it read, and the entries behind it, the create entry aside, show the file |
| `SlotChain.HiddenAfterDropIff` | src/gc_bin_file_deleted.c:900-1087 | The same for all reference points together, judged on the chain before the drop |
| `SlotChain.RenameThenDeleteRuns` | src/tree.c:2602-2626 | A run from a fresh volume: create, rename in place, delete |
| `SlotChain.RenamedFileReappears` | src/gc_bin_file_deleted.c:900-1111 | After that run the drop brings the old name back at the head |
| `SlotChain.VisibleSomewhereIff` | src/gc_bin_file_deleted.c:607-698 | For every mapper and chain, the file is visible from some epoch exactly when a named entry of it is exposed |
| `SlotChain.ExposedInOrder` | src/gc_bin_file_deleted.c:607-648 | In an ordered chain, exposed means first of its effective epoch |
| `Crc32c.InitTable` | src/crc32c.c:30-38 | Every table entry is eight shift steps of its index |
| `Crc32c.TableStep` | src/crc32c.c:129-135 | One table lookup equals eight shift steps |
| `Crc32c.ChecksumByTable` | src/crc32c.c:129-135 | The table-driven checksum equals the bit-by-bit definition for every message |
| `Crc32c.FeedAllIsDivision` | src/crc32c.c:129-135 | Feeding a whole message is one polynomial division |
| `Crc32c.BurstDetected` | src/crc32c.c:129-135 | Messages of equal length that differ only within four consecutive bytes have different checksums |
| `Crc32c.Residue` | src/crc32c.c:30-38 | Every message followed by its checksum, lowest byte first, leaves the register at 0xB798B438, the residue of CRC32C |
| `Crc32c.ResidueIff` | src/crc32c.c:129-135 | Four bytes after a message leave that residue if and only if they are its checksum |
| `Crc32c.ChecksumOfNothing` | src/crc32c.c:129-135 | The empty message has checksum 0 |
| `Mirror.ReadHealthy` | src/lazy_mirror.c:49-120 | A completely written page reads its current payload |
| `Mirror.ReadIsYoungestIntact` | src/lazy_mirror.c:49-120 | A read succeeds if and only if some copy's checksum holds, and returns the youngest such copy; bytes that fail their checksum are never handed out, from one copy or two |
| `Mirror.WriteCompletes` | src/lazy_mirror.c:131-249 | A completed first, second or later write leaves a healthy page with the new payload, even over a corrupt half |
| `Mirror.WriteLeavesRest` | src/lazy_mirror.c:131-249 | A write touches only its page's two records and the new sibling |
| `Mirror.CrashInSecondWrite` | src/lazy_mirror.c:153-219 | A crash anywhere in a second write leaves the old payload until the link is written, then the new one |
| `Mirror.CrashInLaterWriteIff` | src/lazy_mirror.c:222-249 | A crash anywhere in a later write reads the previous or the new payload exactly when the bytes that landed do not pass for the new checksum |
| `Mirror.SmallTearIsRecovered` | src/lazy_mirror.c:15-22 | A payload torn within four bytes is recognised and the previous one read |
| `Mirror.SecondCrashLosesBoth` | src/lazy_mirror.c:222-249 | After one crash the next write goes over the only good copy, and a second tear loses both |
| `Mirror.RejectedTearIsSurvived` | src/lazy_mirror.c:49-120 | With the younger half intact, a rejected tear leaves the page reading as before |
| `Mirror.SurvivesTearsIff` | src/lazy_mirror.c:222-249 | A readable pair survives every rejected tear if and only if its younger half is intact |
| `Mirror.WritesAlternate` | src/lazy_mirror.c:131-249 | After n writes the generations and the payload of a page's own record are known exactly; reads give the last payload |
| `Mirror.DirectReadIsLastFlushIff` | src/indirection.c:45-54 | Reading an overflow page's own record gives the last flush exactly after an odd number of flushes, or if the last two agree |
| `PageCache.Cache.constructor` | src/page_cache.c:62-73 | An empty cache |
| `PageCache.Cache.Find` | src/page_cache.c:134-150 | The entry cached for the page, none exactly when it is not cached |
| `PageCache.Cache.Insert` | src/page_cache.c:351-424 | The page maps to the new entry, dirty if it or the old one was, all others untouched |
| `PageCache.Cache.MarkDirty` | src/page_cache.c:430-448 | Only this page's flags change |
| `PageCache.Cache.MarkClean` | src/page_cache.c:454-481 | Only this page's dirty flag changes |
| `PageCache.Cache.Clear` | src/page_cache.c:487-508 | Nothing is cached any more |
| `PageCache.Cache.CollectDirty` | src/page_cache.c:576-604 | Exactly the dirty pages of one priority |
| `Storage.WriteKeepsSound` | src/lazy_mirror.c:131-249 | A mirror write keeps every other page's records its own and intact |
| `Storage.AdvanceKeepsSpaced` | src/storage.c:700-707 | A page handed out at the tail has a whole record of its own: no two records overlap and all end at or below the tail |
| `Storage.FlushKeepsView` | src/page_cache.c:454-481 | Writing a dirty page back changes nothing a reader can see |
| `Storage.FillKeepsView` | src/storage.c:1151-1191 | Filling the cache from disk changes nothing a reader can see |
| `Storage.WriteUpdatesView` | src/storage.c:1193-1205 | A cached write changes exactly one page of the view |
| `Storage.DropShowsDisk` | src/page_cache.c:487-508 | With nothing dirty, emptying the cache changes nothing a reader can see |
| `Storage.Backend.constructor` | src/storage.c:165-185 | An empty store shows the empty map |
| `Storage.Backend.NextFree` | src/storage.c:685-863 | Any page number and offset from the tail on, whatever the table took for its own pages |
| `Storage.Backend.Allocate` | src/storage.c:685-863 | A new page, whichever number and offset the table gives it, leaves the view as it is and overlaps no record |
| `Storage.Backend.MirrorRead` | src/lazy_mirror.c:49-120 | Reads a sound page's current payload |
| `Storage.Backend.MirrorWrite` | src/lazy_mirror.c:131-249 | Writes one page, keeps all others |
| `Storage.Backend.Read` | src/storage.c:1151-1191 | Returns the page's payload in the flat map; one not allocated is not found, one never written has no record |
| `Storage.Backend.Write` | src/storage.c:1193-1205 | Updates exactly one page of the flat map |
| `Storage.Backend.FlushPage` | src/page_cache.c:454-481 | Leaves the flat map, cleans at most the page |
| `Storage.Backend.WriteBack` | src/page_cache.c:454-481 | Puts one cached payload on disk |
| `Storage.Backend.FlushRound` | src/page_cache.c:540-638 | One priority: leaves the flat map and cleans exactly its dirty pages |
| `Storage.Backend.FlushAll` | src/page_cache.c:510-640 | Leaves the flat map; afterwards exactly the dirty pages of unknown priority remain dirty |
| `Storage.Backend.EvictAll` | src/page_cache.c:487-508 | Flushes and empties the cache; every page except a dirty one of unknown priority reads as before |
| `Storage.Perform` | src/storage.c:1151-1250 | One allocation, write, read, flush or eviction changes the flat map as it should |
| `Storage.Replay` | src/storage.c:1151-1250 | Over any sequence of allocations, writes, reads, flushes and evictions, every read on the way and the final content are those of a plain map |
| `Storage.FlatMapHoldsLastWrite` | src/storage.c:1193-1205 | That map holds the last payload written to each page |
| `Indirection.LookupIsFlat` | src/indirection.c:76-92 | Division and remainder find exactly the entry of the flat table, 0 beyond it |
| `Indirection.GrowthIsFlat` | src/indirection.c:196-351 | One more overflow page fills the last entry and appends zeroes |
| `Indirection.GrowthIsChained` | src/indirection.c:300-351 | Page K's slot is the entry just before its own, and its predecessor links to it |
| `Indirection.GrowKeepsSpace` | src/indirection.c:128-358 | Growth keeps records from overlapping, below the tail, and self-reference slots apart |
| `Indirection.ClaimKeepsSpace` | src/storage.c:450-473 | Claiming a free slot keeps all that and never hits a self-reference |
| `Indirection.SkipKeepsSpace` | src/storage.c:792-806 | After a self-reference the next slot is free and inside the table |
| `Indirection.SegmentEnds` | src/storage.c:767-787 | The growth test is true exactly for the last slot and beyond |
| `Indirection.Table.constructor` | src/storage.c:95-112 | A new file: header and superblock in place |
| `Indirection.Table.EnsureCapacity` | src/indirection.c:128-358 | Afterwards the needed entry is inside with one to spare; stored entries stay, new ones are self-references at new offsets, and the tail moves by one record for each |
| `Indirection.Table.Grow` | src/indirection.c:176-353 | One overflow page is added, linked and referenced, nothing else changes |
| `Indirection.Table.NeedsGrow` | src/storage.c:767-787 | True exactly from the last slot on |
| `Indirection.Table.TryClaim` | src/storage.c:450-473 | Claims exactly when the slot is free, and changes that slot only |
| `Indirection.Table.Allocate` | src/storage.c:685-863 | Returns the first slot from the old total on that is no self-reference, with a whole record that overlaps no other, overflow pages included; stored entries stay, the tail moves by exactly the records taken, the loop ends |
| `Indirection.OkRecords` | src/storage.c:700-707 | Any two offsets in the table lie at least a record apart, and every record ends at or below the tail |
| `Indirection.Load` | src/indirection.c:15-74 | If each overflow page's record holds its words, the chain walk rebuilds exactly the table, each link resolved by the part loaded so far |
| `BinQueue.PushConserves` | src/bin.c:170-295 | A push adds exactly its item |
| `BinQueue.PopConserves` | src/bin.c:301-397 | A pop removes exactly the item it returns |
| `BinQueue.RunConserves` | src/bin.c:170-397 | Over any run, what went in came out or is still there; no page is empty, inner pages are full |
| `BinQueue.TotalIsSize` | src/bin.c:301-397 | The sum of page counts is the number of items |
| `BinQueue.DrainIsPageOrder` | src/bin.c:337-341 | Draining gives pages first in first out, each page last in first out |
| `BinQueue.FirstInFirstOutIff` | src/bin.h:10 | First in, first out for all inputs if and only if a page holds one item |
| `BinQueue.Bin.constructor` | src/bin.h:103-105 | An empty Bin with the page capacity |
| `BinQueue.Bin.Push` | src/bin.c:170-295 | Appends to the tail page or to a new one; fails exactly when a page is needed and none can be had |
| `BinQueue.Bin.Peek` | src/bin.c:403-415 | Returns what the next pop returns |
| `BinQueue.Bin.Pop` | src/bin.c:301-397 | Empty exactly when nothing is stored; otherwise the next item goes, a drained page is unlinked, count and ends stay exact |
| `BinConcurrent.BinIsInitial` | src/bin.c:170-175 | Producers may start on any Bin that pushes and pops have left behind |
| `BinConcurrent.StepKeepsOwner` | src/bin.c:193-197 | Each claimed place belongs to exactly one producer, whatever the interleaving |
| `BinConcurrent.StepKeepsLinks` | src/bin.c:239-251 | The chain of pages stays linked through every step of adding one |
| `BinConcurrent.StepKeepsInv` | src/bin.c:170-295 | Every load, swap and store of every producer keeps the whole invariant |
| `BinConcurrent.RunKeepsInv` | src/bin.c:170-295 | The invariant holds after every interleaving |
| `BinConcurrent.ClaimsAreDistinct` | src/bin.c:193-197 | At every moment no two producers hold the same page and index |
| `BinConcurrent.NoPageOverfills` | src/bin.c:230-282 | At every moment no page count exceeds the capacity |
| `BinConcurrent.PushesLand` | src/bin.c:170-295 | Once all are done, every success has its item at its own place in a page linked from head, every new place belongs to a success, older items are untouched, and the count grew by the number of successes |
| `BinOutcome.StepOutcome` | src/bin.c:181-289 | A step ends a push as full if and only if the allocator refused a page, as congested if and only if the retries under the lock are used up, and takes the lock, a place or another try exactly when it should |
| `BinOutcome.StepTakesPage` | src/bin.c:226-238 | Under the lock a new page is asked for exactly when there is no tail or it is full |
| `BinOutcome.WhenPushFails` | src/bin.c:170-295 | In every run, a finished push failed as full if and only if the allocator refused it, as congested if and only if it lost the swap 1000 times under the lock, and otherwise succeeded |
| `BinOutcome.FullNeedsRefusal` | src/bin.c:232-238 | A producer told the Bin is full made a move on which no page was on offer |
| `BinOutcome.LonePushSucceeds` | src/bin.c:170-295 | After any run, with the lock free, a producer left alone for 13 steps succeeds if the tail has room or a page is on offer |
| `TreeLock.EncodeFields` | src/gc.h:22-24 | The exclusive bit reads as set by an owner or by exactly 2^31 readers; below that the reader count reads back |
| `TreeLock.NextKeepsInv` | src/gc.c:62-112 | Every atomic step keeps the word equal to exclusive bit plus reader count |
| `TreeLock.RunKeepsInv` | src/gc.c:62-112 | That holds after every interleaving of any number of threads |
| `TreeLock.MutualExclusion` | src/gc.c:62-112 | With any number of threads, no reader is inside with an exclusive holder, and there is at most one holder |
| `TreeLock.NoNewReaders` | src/gc.c:62-75 | While the exclusive bit is set no reader gets in |
| `TreeLock.DrainedEnters` | src/gc.c:95-102 | A draining thread gets in by its next step if and only if no reader is inside |
| `TreeLock.LoneThreadEnters` | src/gc.c:62-102 | After any run, an idle thread left alone gets in: shared after three steps if nobody owns the bit and the count has room, exclusively after four if nobody is inside |
| `TreeLock.BitMeansOwnerOrFull` | src/gc.c:62-112 | After every run the exclusive bit is set exactly when somebody owns it or 2^31 readers are inside |
| `TreeLock.TooManyReadersLookExclusive` | src/gc.h:22-24 | Some run of n threads makes the lock look held by nobody, if and only if n is at least 2^31 |
| `PoolPage.PackingRoundTrips` | src/pool.h:57-86 | Page state and virtual pointers unpack to what was packed |
| `PoolPage.PopThreads` | src/pool.c:158-210 | Taking the head slot leaves the rest threaded |
| `PoolPage.PushThreads` | src/pool.c:341-406 | Returning a slot in use threads it in front |
| `PoolPage.FreeThreadsIff` | src/pool.c:341-406 | A free leaves a threaded list exactly when the slot was not free already |
| `PoolPage.SlotsPartition` | src/pool.c:17-41 | Free slots and slots in use partition the page, the free ones counted by the packed state |
| `PoolPage.Page.constructor` | src/pool.c:17-41 | All slots threaded and free |
| `PoolPage.Page.Alloc` | src/pool.c:158-210 | Takes the head of the list, fails exactly when it is empty |
| `PoolPage.Page.Free` | src/pool.c:341-406 | A slot in use goes in front and the list stays acyclic and counted; a slot already free leaves no free list at all |
| `PoolPage.Page.WriteSlot` | src/pool.c:158-210 | Whatever a caller writes into a slot in use, the list is unaffected |
| `SparseArray.ReadAfterInstall` | src/var_array.c:223-250 | Setting an index changes that index only |
| `SparseArray.ReadAfterPromote` | src/var_array.c:105-160 | A new root keeps every index below the old size |
| `SparseArray.PromoteKeepsStored` | src/var_array.c:105-160 | Root promotion preserves every stored slot |
| `SparseArray.VarArray.constructor` | src/var_array.c:78-100 | An empty array |
| `SparseArray.VarArray.NeededHeight` | src/var_array.c:105-160 | The least height whose tree covers the index |
| `SparseArray.VarArray.Set` | src/var_array.c:223-250 | The array refines a map: one index changes, the rest stays |
| `SparseArray.VarArray.Lookup` | src/var_array.c:258-281 | Reads the map, missing indices as absent |
| `HashTable.PassedMeansAbsent` | src/hash_map.c:164-183 | Reaching an empty slot, or a whole lap, without the key means it is absent |
| `HashTable.InsertRepresents` | src/hash_map.c:189-228 | Storing a new key where the probe stopped keeps all others findable |
| `HashTable.DeleteRepresents` | src/hash_map.c:230-255 | A tombstone keeps all others findable |
| `HashTable.HashMap.constructor` | src/hash_map.c:128-145 | The empty map |
| `HashTable.HashMap.SlotAt` | src/hash_map.h:154-159 | A slot never allocated reads as empty |
| `HashTable.HashMap.Get` | src/hash_map.c:164-183 | The value mapped, none exactly when the key is absent |
| `HashTable.HashMap.Put` | src/hash_map.c:189-228 | Refines the map update with exact size and tombstone counts; fails only when the key is absent and no slot is empty |
| `HashTable.HashMap.Delete` | src/hash_map.c:230-255 | Refines removal with exact counts; reports whether the key was there |

## Left out

- FUSE callbacks, the control file, listing caches, tools, benchmarks: I/O and glue.
- The directory tree walk of a commit: the model takes the chains it visits as given.
- Shadow compaction, the rename-tombstone job and the free-page queue with page reuse.
- Epoch tags are unbounded except for the alias -1, which is stored as the odd 32-bit tag.
- Clocks, recency lists, entry and dirty counters, and batch eviction of the page cache.
- The flags word of a page header and wrap-around of generations.
- Hash functions: the hash map is proved for every hash; the FNV function is not modelled.
- Sparse arrays: the index is unbounded, nodes are values, so sharing of nodes is not captured.
- Indirection pages are sequences of words, so byte order in the buffers is not captured.
- Tail allocation, `bin_pop` against `bin_push`, and pool operations under concurrency: modelled one operation at a time.
- Failures of malloc, pread and pwrite, and memory-ordering strength.
- Hardware checksum instructions, the per-file lock, and pool pages behind the first one.
- EpochChain.StepKeepsValid: the order holds only on chains whose commits passed the scan; UnscannedCommitLosesDelete shows it fail on another.
- Mirror.CrashInLaterWriteIff: header and link writes are atomic and the indirection entries survive the crash.
- Storage.Replay: pages are never freed, I/O does not fail, and the cache stays below its eviction threshold.
- FileDeletion.DeadPages: assumes that all of the file's directory entries sit in one slot chain; an entry elsewhere is not consulted.
- Storage.Backend.NextFree: stands for Indirection.Table.Allocate, whose slot and offset are never below the tail; the table's own pages are not among the pages of the backend.
- Storage.Backend.Read: whether a page without a record fails as an I/O or as a checksum error is not modelled; the latter, in a hole of the file, takes that a page of zeroes does not have checksum 0.
- Storage.Backend.Write: only allocated pages are written; the source would also cache a page number nobody allocated, and never flush it.
- Indirection.Load: the page records hold the table's words; when flushes leave them so is stated by DirectReadIsLastFlushIff.
- BinQueue.Bin.Pop: the branch that skips a drained head page is not modelled, since no linked page is ever empty.
- BinQueue.Bin.Push: the retry loops run once, since no swap is lost without concurrency.
