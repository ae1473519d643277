# scandisk: a model of a FAT12 checker's scan and repair

`scandisk.c` checks a FAT12 floppy image and repairs it. It runs in two passes.

1. **Directory walk** (`traverse_root`, `follow_dir`). It reads every slot of the root directory and, through subdirectory chains, every nested directory slot. Each slot goes through `print_dirent`:
   - empty, deleted, dot, long-name, volume-label and hidden-directory slots are skipped;
   - a visible subdirectory hands its start cluster back to the walker;
   - a regular file has its cluster chain walked. Each visited cluster is credited in a reference table. A file that reaches an already-claimed cluster is marked deleted (first name byte 0xE5). A cluster that links to itself or to the bad-cluster mark 0xFF7 is made end-of-chain. The recorded size is then reconciled with the number of clusters walked, at a hard-coded 512 bytes per cluster.
2. **Orphan sweep** (`update_orphans`). It runs over clusters 2 to `sectors - 1`. A cluster nobody claimed whose FAT entry is in use becomes a file `FOUND<n>.DAT` of size 0, and its FAT entry becomes end-of-chain. The exception is a bad-marked orphan: it only triggers a write that frees FAT entry 0xFF7 itself. The new entry is built by `write_dirent` and placed by `create_dirent` in the first free slot from the start of the root region. The search has no bound: past a full root region it goes on into data cluster 2 and beyond, which follow the root region in the image. The model sweeps this whole directory area.

Only root-level subdirectory start clusters are credited in the reference table. Files are credited along their whole chains. Clusters of nested directories, and every later cluster of a directory chain, are never credited, so the sweep treats them as orphans. The model keeps this behaviour.

The disk is abstract. The FAT is a sequence of 0x1000 12-bit entries indexed by cluster. The root region is a sequence of directory slots. Every data cluster is seen as `(bytesPerSec * secPerClust) / 32` slots. The reference table is a sequence of counts. The on-disk values come from the Microsoft FAT specification ("FAT Data Structure", "FAT Directory Structure"):
- FAT entries: free 0x000, bad 0xFF7, end-of-chain 0xFF8;
- first name byte: empty 0x00, deleted 0xE5, dot 0x2E;
- long-name attribute: 0x0F.

Modules, in dependency order:

| file | module | models |
|---|---|---|
| `fat.dfy` | `Fat` | integer widths, sentinels, `Entry`, `Geometry`, scan state |
| `dirent.dfy` | `Dirent` | slot classification of `print_dirent`; `find_dirent` |
| `names.dfy` | `Names` | `write_dirent`'s 8.3 encoding; the `found<n>.dat` name |
| `size.dfy` | `Size` | the size reconciliation rule with its unsigned comparisons |
| `chain.dfy` | `Chain` | the chain walk of `print_dirent` |
| `inspect.dfy` | `Inspect` | `print_dirent` as a whole |
| `walker.dfy` | `Walker` | `follow_dir`, `traverse_root` |
| `layout.dfy` | `Layout` | the directory area: the root region followed by the data clusters, as they lie in the image |
| `orphans.dfy` | `Orphans` | `create_dirent`, `update_orphans` |
| `scandisk.dfy` | `Scandisk` | the two passes of `main`; the reference-table length |

Each loop of the program appears twice:
- as a `method` with the loop, and
- as a recursive function that serves as its reference definition.

Each method is proved equal to its function. The properties are stated and proved about the functions.

The chain walk can run forever: it breaks only direct self-links, so a two-cluster cycle never ends (`Chain.TwoCycleDiverges`). It therefore takes a step budget, and a budget of `clusterLimit` steps is proved enough for every walk that finishes at all. The directory recursion has no cycle guard either and is bounded by a plain budget. `OutOfFuel` is the result when a budget runs out.

Two more facts about the code shape the model:
- `traverse_root` increments a count with no cap (scandisk.c:363). Two root entries naming the same directory leave that directory's start cluster with a count of 2.
- The size rule assumes 512 bytes per cluster whatever the geometry says (scandisk.c:314-315).

## Model

| member | source | states |
|---|---|---|
| Dirent.ClassifyTests | scandisk.c:202-259 | a slot is empty or deleted exactly by its first byte; a live slot is a regular file exactly when neither the volume nor the directory bit is set, and a visible subdirectory, followed at its start cluster, exactly when the directory bit is set without the volume bit or the full hidden mask |
| Dirent.FindDirent | scandisk.c:114-179 | find_dirent follows exactly the clusters print_dirent follows, except that a volume label carrying the directory bit (and not hidden) is followed too |
| Dirent.NormalEntryIsFile | scandisk.c:238-266 | a live slot with normal attributes falls through every skip test to the regular-file branch |
| Inspect.InspectEntry | scandisk.c:202-259 | skipped slots return 0 and leave entry, FAT and reference table untouched; a visible subdirectory returns its start cluster without any chain walk; every result changes the slot at most in its first name byte (to 0xE5) and its size, repairs the FAT only, and never lowers a count |
| Inspect.InspectFile | scandisk.c:282-325 | for a regular file: the chain is the FAT path from the start cluster, with no repeats; each chain cluster ends with count max(old, 1) and no other count changes; the entry is marked deleted exactly when some chain cluster was already claimed; the new size is the old size reconciled against the chain's length n, so it ends in (n·512 − 512, n·512] for n ≥ 1 clusters and is 0 for none |
| Inspect.InspectFileFat | scandisk.c:294-310 | the FAT after a file's walk is unchanged, or its last cluster is made end-of-chain (with entry 0xFF7 freed on a bad link), and the walk stops exactly at a self-link or a bad link |
| Inspect.SecondClaimantDeleted | scandisk.c:286-292 | of two files starting at the same unclaimed cluster, the second is marked deleted and the cluster's count stays 1 |
| Inspect.SelfLinkRepaired | scandisk.c:294-302 | a file whose start cluster links to itself has a one-cluster chain, that cluster becomes end-of-chain, and the size is reconciled for one cluster |
| Inspect.InspectFinishes | scandisk.c:286-312 | the inspector fails to finish only on a chain that no step budget can finish |
| Chain.ChainWalk | scandisk.c:285-312 | the recursive reference walk: a finished walk visits only valid clusters, repairs only the FAT and only claims counts (each ends at most max(old, 1)); WalkPath, WalkRefs and WalkCrossLink state the rest |
| Chain.WalkPath | scandisk.c:285-312 | a finished walk visits the FAT path from the start, stops at the first self-link, bad link or invalid next cluster, says which, and repairs only the last visited cluster (and entry 0xFF7 for a bad link) |
| Chain.WalkRefs | scandisk.c:286-292 | each visited cluster's count becomes max(old, 1); every other count is unchanged |
| Chain.WalkCrossLink | scandisk.c:286-292 | the walk reports a cross-link exactly when some visited cluster already had a claimant |
| Chain.PathDistinct | scandisk.c:294-311 | the path of a finished walk never repeats a cluster |
| Chain.FuelSufficient | scandisk.c:286-312 | a budget of clusterLimit steps gives the same result as any budget with which the walk finishes |
| Chain.TwoCycleDiverges | scandisk.c:294-311 | two valid clusters linked to each other make the walk run out of every budget |
| Chain.WalkChain | scandisk.c:282-312 | the loop computes the recursive reference walk with the budget clusterLimit |
| Size.ReconcileSize | scandisk.c:314-325 | with n ≥ 1 clusters the size lands in (n·512 − 512, n·512]: a size already there is kept and any other size becomes exactly n·512; with no clusters the unsigned comparisons force it to 0 |
| Size.ReconcileIdempotent | scandisk.c:314-325 | reconciling a reconciled size changes nothing |
| Size.SizeCutToChain | scandisk.c:317-320 | a declared 1500 bytes over two clusters is cut to 1024 |
| Size.SizeRaisedOrKept | scandisk.c:317-325 | over three clusters, 900 bytes is raised to 1536 and 1200 bytes is kept |
| Names.WriteDirent | scandisk.c:26-81 | the written entry has 8 name bytes, 3 extension bytes, normal attributes and the given start cluster and size |
| Names.SplitAtFirstDot | scandisk.c:54-61 | the name splits before its first dot: the base holds no dot and base, dot and rest rebuild the name |
| Names.Field | scandisk.c:53-71 | a field of the given width holds the leading bytes of the text, then padding |
| Names.NameRoundTrip | scandisk.c:53-71 | the encoder's inverse (trailing spaces off the name field, trailing underscores off the extension field) recovers the base and extension of a name "base.ext" of plain bytes (base 1 to 8, extension up to 3) |
| Names.NoDotRoundTrip | scandisk.c:53-58 | a name without a dot is written with extension "___", which the encoder's inverse reads as the same base and no extension |
| Names.ReadBack | scandisk.c:219-234 | reading a field back drops trailing spaces only, never the field's first byte, and everything dropped was a space |
| Names.ProgramReadsName | scandisk.c:141-151 | through the program's own reading, a written "base.ext" gives back its base, while an extension shorter than 3 bytes comes back with its padding underscores and so differs from the one written |
| Names.LastComponent | scandisk.c:36-45 | the last path component is a suffix of the name without '/' or '\\', preceded by a separator when it is not the whole name |
| Names.UpperCaseBytes | scandisk.c:47-50 | no lower-case letter remains; a lower-case letter moves up by 0x20 and every other byte is kept |
| Names.OnlyLastComponentMatters | scandisk.c:36-45 | prefixing a directory and a '/' or '\\' separator does not change the entry |
| Names.LastComponentOfUpper | scandisk.c:36-50 | upper-casing commutes with taking the last path component |
| Names.CaseIgnored | scandisk.c:47-50 | upper-casing the file name first does not change the entry |
| Names.WrittenFirstByte | scandisk.c:53-71 | the first name byte is the upper-cased first byte of the last component, or a space when the base is empty |
| Names.WrittenEntryIsFile | scandisk.c:53-77 | a written entry is seen as a live regular file unless its last component starts with byte 0xE5 |
| Names.DecimalRoundTrip | scandisk.c:395 | the decimal text of a count reads back as that count |
| Names.WriteOrphanDirent | scandisk.c:394-400 | "found<n>.dat" is written as name FOUND<n> cut or padded to 8 bytes, extension DAT, normal attributes |
| Names.OrphanEntryShape | scandisk.c:394-400 | a recovered entry reads back as FOUND<n> (cut to 8) with extension DAT and is seen as a live regular file |
| Orphans.FirstFreeSlot | scandisk.c:89-111 | the slot found is free, and no slot before it is |
| Orphans.PlaceEntry | scandisk.c:89-111 | the entry lands in the first free slot of the directory area; when that slot was never used the next slot is zeroed, wherever in the area it lies; all other slots are unchanged; no result when no free slot exists or the zeroing would fall past the last data cluster |
| Orphans.CreateDirent | scandisk.c:83-111 | the entry write_dirent builds from the name lands in the first free slot; when that slot was never used the slot after it is cleared to an empty entry; every other slot is unchanged; there is no result exactly when the search or the clearing would run past the area |
| Orphans.PlaceAdvances | scandisk.c:89-111 | slots before the one written stay unchanged and the next free slot is strictly later (right after it when the slot was never used) |
| Orphans.FosterEntry | scandisk.c:391-400 | the n-th recovered entry starts at its cluster, has size 0, normal attributes, name starting FOUND and extension DAT, and is a regular file |
| Orphans.CreateFoster | scandisk.c:394-400 | the create_dirent call of the sweep places exactly that entry |
| Orphans.SweepAt | scandisk.c:382-402 | one turn of the sweep keeps the directory area's size and the shape of the state and only repairs the FAT |
| Orphans.SweepFrom | scandisk.c:381-403 | the sweep from a cluster on keeps the state's shape and the area's size and only repairs the FAT |
| Orphans.RecoverOrphans | scandisk.c:371-405 | update_orphans from cluster 2: the state's shape and the area's size are kept and the FAT is only repaired; OrphansRecovered, OrphansFostered and OrphansKeep state the rest |
| Orphans.UpdateOrphans | scandisk.c:371-405 | the loop computes the recursive reference sweep from cluster 2 |
| Orphans.SweepAppends | scandisk.c:381-403 | the sweep only appends to the list of recovered clusters, in increasing order, each within the swept range |
| Orphans.SweepRecovers | scandisk.c:384-391 | apart from 0xFF7, a swept cluster is recovered exactly when it is unclaimed and its FAT entry is neither free nor bad |
| Orphans.SweepMarksEnd | scandisk.c:401 | apart from entry 0xFF7, each recovered cluster's FAT entry becomes end-of-chain and every other entry is unchanged |
| Orphans.SweepFreesEntryFF7 | scandisk.c:384-389 | on a volume below 0xFF7 clusters, FAT entry 0xFF7 ends free exactly when a bad-marked orphan was met, and bad-marked orphans keep their mark |
| Orphans.SweepFosters | scandisk.c:391-400 | each recovered cluster keeps its own FOUND entry in the directory area, numbered in recovery order |
| Orphans.OrphansRecovered | scandisk.c:381-403 | over a whole sweep the recovered clusters are, in increasing order from 2, exactly the unclaimed clusters whose FAT entry is neither free nor bad (0xFF7 aside), and only their FAT entries change (0xFF7 aside) |
| Orphans.OrphansFostered | scandisk.c:391-400 | after a whole sweep the n-th recovered cluster has entry FOUND<n>.DAT in the directory area |
| Orphans.SweptAt | scandisk.c:391-400 | one turn changes a slot only into a cleared slot or a FOUND entry, leaves the slots before the first free one alone, and never moves the first free slot back |
| Orphans.SweepKeeps | scandisk.c:381-403 | from any cluster on, every slot ends as it was, cleared, or the FOUND entry of a recovered cluster, and the slots before the first free one are never touched |
| Orphans.OrphansKeep | scandisk.c:381-403 | after a whole sweep every slot is as it was, cleared, or a FOUND entry, and every slot before the first free one keeps its entry |
| Orphans.OrphansFreeEntryFF7 | scandisk.c:384-389 | after a whole sweep FAT entry 0xFF7 is free exactly when some bad-marked orphan exists, and bad-marked orphans are not rewritten |
| Walker.ClusterSlot | scandisk.c:342-345 | one slot of a directory cluster, inspected and then followed without credit: only FAT repairs, claims-only counts, slots changed only as inspection may, root untouched |
| Walker.ScanCluster | scandisk.c:339-346 | the slots of one directory cluster from a given one on: the same invariants as ClusterSlot |
| Walker.RootSlot | scandisk.c:359-365 | one root slot: only FAT repairs, counts never lowered, slots changed only as inspection may, and every other root slot unchanged |
| Walker.FollowDir | scandisk.c:331-350 | a finished walk of a directory chain keeps the state's shape, only repairs the FAT, never lowers a count and changes directory slots only as inspection may |
| Walker.FollowDirectory | scandisk.c:331-350 | the loop over the directory's clusters computes the recursive reference walk |
| Walker.ScanDirCluster | scandisk.c:337-346 | the slot loop over one cluster computes the reference walk of that cluster |
| Walker.RootFrom | scandisk.c:352-369 | a finished root walk keeps the state's shape, only repairs the FAT, never lowers a count and changes slots only as inspection may |
| Walker.RootSlotCounts | scandisk.c:359-365 | after one root slot each count lies between its old value plus 1 if the slot names it as a valid visible subdirectory, and max(old, 1) plus that same 1 |
| Walker.RootFromCounts | scandisk.c:357-368 | after the root walk each count lies between its old value plus the number of root slots naming it as a valid visible subdirectory, and max(old, 1) plus that number |
| Walker.VisitRootSlot | scandisk.c:359-365 | one root slot is inspected, a valid subdirectory start is credited once and then walked |
| Walker.TraverseRoot | scandisk.c:352-369 | the loop over the root slots computes the recursive reference walk |
| Walker.FollowDirNoFiles | scandisk.c:331-350 | on a volume without regular files, walking a subdirectory changes nothing: nested directories are not credited |
| Walker.NoFilesRootSlot | scandisk.c:359-365 | on a volume without regular files, one root slot only adds 1 to the count of the valid subdirectory start it names |
| Walker.NoFilesCreditsRootDirsOnly | scandisk.c:352-369 | on a volume without regular files the walk leaves FAT and slots alone, and each count grows by exactly the number of root slots naming that cluster as a visible subdirectory |
| Scandisk.AllocatedRefsTooShort | scandisk.c:419 | the table of sectors − 33 counts is shorter than the sweep's range |
| Scandisk.FloppyRefsOverrun | scandisk.c:419 | on a 1.44 MB floppy the table has 2847 counts while the sweep reads counts up to 2879 and the walk may credit cluster 2848 |
| Scandisk.ZeroRefs | scandisk.c:419 | the corrected table: all counts zero, one for every valid cluster and every swept index |
| Layout.DirArea | scandisk.c:89-111 | the run of slots create_dirent's endless search walks: the root region first, then data cluster 2 right after it, and just the root region when there are no data clusters |
| Layout.ClusterInArea | scandisk.c:89-111 | the search that runs on from slot to slot meets data cluster c (2 ≤ c < the data end) as the run of slots starting c − 2 whole clusters after the last root slot, slot j of the cluster at that offset plus j |
| Layout.StoreArea | scandisk.c:89-111 | replacing the directory area keeps the volume's shape, the FAT, the counts and every cluster outside the area, and reading the area back gives what was stored |
| Layout.StoreAreaSame | scandisk.c:89-111 | storing back the directory area a volume already has changes nothing |
| Scandisk.DirAreaKept | scandisk.c:352-369 | the directory walk changes each slot of the directory area only as inspection may |
| Scandisk.RootSpillsIntoData | scandisk.c:89-101 | with every root slot but the last in use and the last never used, the new entry takes the last root slot and the clearing zeroes the first slot of data cluster 2, leaving the rest of that cluster and the other root slots as they were |
| Scandisk.Run | scandisk.c:419-422 | a finished run keeps the volume's shape, only repairs the FAT, leaves every slot of the directory area as inspection may leave it, cleared, or holding the FOUND entry of a recovered cluster, and recovers only clusters from 2 to sectors − 1 |
| Scandisk.ScanDisk | scandisk.c:419-422 | the two passes in sequence compute the reference run |
| Scandisk.RunRecovers | scandisk.c:421-422 | after a run, apart from 0xFF7, a cluster is recovered exactly when the walk left it unclaimed with a FAT entry neither free nor bad, and each recovered cluster ends as end-of-chain |
| Scandisk.RunFosters | scandisk.c:421-422 | after a run the n-th recovered cluster has its entry FOUND<n>.DAT in the directory area of the repaired volume |

## Left out

- Output is not modelled. This covers every `printf` diagnostic, `print_indent`, `usage`, and `find_dirent`'s name buffer. Only `find_dirent`'s return value is modelled.
- Process plumbing is not modelled: `main`'s argument check, `mmap_file`/`unmmap_file` and `check_bootsector`. The geometry is a parameter.
- The volume accessors live in dos.c, which is not part of this model.
  - `get_fat_entry`/`set_fat_entry` with 12-bit packing: the FAT is a sequence indexed by cluster.
  - `cluster_to_addr`: the root region and each data cluster are separate slot sequences. The directory area puts cluster 2 right after the last root slot. That holds only when the root region fills whole sectors (rootDirEnts · 32 a multiple of bytesPerSec, true of standard floppies). Otherwise the image has slack slots between them, which the model does not represent.
  - `is_valid_cluster`: a cluster must be at least 2 and below both an abstract `clusterLimit` and 0xFF7.
  - `getushort`/`putulong` and friends: entry fields are plain integers.
- The time and date fields of a directory entry are not modelled. `write_dirent` zeroes them and nothing reads them.
- The model stops where the program would access memory out of bounds:
  - **The orphan sweep** requires a reference table covering every swept index, and `sectors ≤ 0x1000`. Beyond that, `get_fat_entry` would read past the FAT.
  - **`create_dirent`**: its endless slot search runs from the root region on through the data clusters, as they lie in the image. Running past the last data cluster, or zeroing a slot past it, gives no result (`None`) instead.
- The directory recursion is bounded by a step budget. A directory chain that loops back on an ancestor only exhausts the budget. scandisk's own recursion does not terminate there.
- Walker.FollowDir: its contract states the invariants the walk keeps, not the exact counts. The counts are stated exactly only for volumes without regular files, in Walker.NoFilesCreditsRootDirsOnly.
- Walker.RootFrom: its contract states the invariants the root walk keeps, not the exact counts. Exact counts are stated only for volumes without regular files (Walker.NoFilesCreditsRootDirsOnly). In general Walker.RootFromCounts bounds each count from below and above.
- Orphans.SweepFreesEntryFF7: stated only for volumes with fewer than 0xFF7 clusters. Otherwise cluster 0xFF7 would itself be swept.
- Orphans.OrphansFreeEntryFF7: stated only for volumes with fewer than 0xFF7 clusters, for the same reason.
- Scandisk.Run: it uses the corrected reference-table length from `Scandisk.ZeroRefs`, not `sectors − 33`. See Findings.

## Findings

| source | as written | input that shows it | evidently intended | confidence | as-written member | corrected member |
|---|---|---|---|---|---|---|
| scandisk.c:419 | `refs` has `bpbSectors - 33` entries, but `update_orphans` reads `refs[i]` for every `i` up to `bpbSectors - 1` (scandisk.c:381-384), and the walk credits every valid cluster | a 1.44 MB floppy: 2880 sectors give 2847 counts, the sweep reads counts 2847 to 2879, and valid cluster 2848 may be credited | one count for every cluster the walk may credit and every index the sweep reads | not executed | Scandisk.FloppyRefsOverrun | Scandisk.ZeroRefs |
