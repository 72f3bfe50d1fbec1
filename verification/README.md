# VexDB-Lite verification

A Dafny model of the algorithms of VexDB-Lite that carry its hardest invariants, with machine-checked
proofs of what they promise. Floating-point kernels are modelled over the reals, SQL tables as maps and
sequences, threads as interleaved steps. `dafny verify dfyconfig.toml` checks everything.

| files | what they model |
|---|---|
| `GraphConnectivity`, `Picks` | the repair that links unreachable graph components without breaking a spanning tree |
| `Elkan` | accelerated k-means, as a refinement of exhaustive Lloyd rounds |
| `BitLock`, `BitLockProgress` | the reader/writer spin lock over packed atomic bits: safety; sessions and progress |
| `ArchivePackage`, `ArchiveReferences`, `ArchiveTree`, `ArchiveChunks`, `ArchiveVerify` | the verifier of VexFS archives |
| `ArchiveImport`, `ArchiveSchema`, `ArchiveWorkspace`, `ArchiveDatabase`, `ArchiveRefused`, `ArchiveCopy`, `ArchiveHistory` | importing an archive: id loops, target schema, joins, the whole import, packages it refuses, what a reader of the copy sees, now and at every commit |
| `Vectors`, `Rotator`, `RotatorKernels` | the RaBitQ rotation and its inverse |
| `RabitqCodes`, `RabitqEncoder`, `RabitqEndToEnd`, `Rescale`, `BitPlanes` | RaBitQ codes, factors, distance estimate, reconstruction, rescale search, query bit planes |
| `PqBitstream`, `ProductQuantizer` | product-quantizer code packing and nearest centroids |
| `Heaps`, `FilteredSearch`, `Scores` | filtered exact top-k over a bounded heap |
| `TextDiff` | the one-hunk text diff |
| `Bits`, `Basics` | machine words as natural numbers, shared types |

The main results:

- **Connectivity repair.** Every error is raised exactly when its condition holds, the "cannot connect"
  error never is, and a finished repair leaves every assigned node reachable from the root. Each repair
  overwrites one slot, loses no reachable node and gains at least one. Every write is determined: its target
  is the least unreached node, its source the first usable candidate the search names for it or else the
  nearest usable node, its slot the first empty one or else the farthest one that carries no tree edge, and
  `fallback_scans` counts the writes without a usable candidate (`RepairBaseConnectivity`, `ChoiceIsNearest`).
- **Elkan's k-means.** For every metric, a run is a run of exhaustive assignment and mean update from
  seeds drawn by squared distance, and it stops at the first round that repeats an assignment; leaving by the
  no-change break without empty clusters is a Lloyd fixpoint (`ElkanKmeans`, `LloydFixpoint`). A new centre is
  the point around which its samples balance, and that point alone has the least sum of squared distances to
  them (`MeanIsCentre`, `BalancePointIsLeastSquares`).
- **RWBitLock.** No run has two writers on an index. Over any number of agents, a run keeps readers and
  writers apart if and only if no step drains an index whose counted agents, some of them reading, are a
  multiple of 256 (`RunSafeIff`); so it does while every index counts at most 255 (`ReadersExcludeWriters`).
  All runs are safe if and only if there are at most 256 agents: with 257 the 8-bit counter wraps to zero,
  and a run that lets a writer in is constructed (`ReadersExcludedIff`, `OverflowLetsWriterIn`). On a quiet
  lock every agent can take every lock and giving it back restores the state (`ReadSessionEnds`,
  `WriteSessionEnds`), and from every state of every run some continuation lets all agents finish
  (`EveryRunCanFinish`).
- **Archives.** The verifier accepts if and only if nothing that any table names is missing, the entries form
  a tree of directories and every manifest's rows are the canonical split of its file (`VerifyArchive`,
  `ReferencesOkIff`, `TreeCheckIff`). The import of an accepted package under a free name reaches the closing
  integrity check if and only if every commit comes after its parent in id order and no row is refused by a
  primary key, CHECK or usage counter of the target tables (`Database.ImportArchive`). The verifier looks at
  neither: `LateParentRefused` and `SameNameRefused` are accepted packages that fail. What is then shown to
  the integrity check is a one-to-one renaming in which every path leads to the same file with the same
  bytes, and other workspaces are untouched (`SamePaths`, `SameBytes`, `OldPathsKept`, `OldBytesKept`). The
  walks from the new head are the images of the walks from the package's head and meet the new floor where
  those meet theirs (`SameHistory`, `SameFloor`); and at every commit the tree that history shows is the
  same, file by file and byte by byte (`SameTreeAtCommit`, `SameFileAtCommit`).
- **RaBitQ.** The inverse rotation undoes the rotation in both branches and the rotation keeps inner
  products. The stored bit uses `> 0` and the factors `>= 0`; the estimate equals the one the factors are
  made for, for every query, if and only if no residual coordinate is zero (`EstimateIsIdealIff`), and the
  distance of a stored vector to itself is exact if and only if its coordinates at zero residuals add up
  to zero (`SelfDistanceIff`, and `RawSelfDistance` for raw vectors). For every unpadded rotation there is a
  raw vector that no code puts at its true distance from itself (`RawSelfDistanceFails`), and one whose code
  is spelled out is 1024/511 away (`RawVectorAwayFromItself`).
- **Product quantizer.** Decoding what was encoded gives the codes back, for every width up to 63 bits, in
  exactly the announced number of bytes, and the 8- and 16-bit forms write the same bytes. Below 32 bits the
  code of a vector decodes to a decodable vector nearest to it; from 32 bits on, widths the configuration
  accepts, the row count handed to the search is cast to 0 and every code is 0 (`Quantize`, `WideCodesMiss`).
- **Top-k.** The bounded heap returns the front of the sorted list of all scored rows, for both directions
  and any mix of NULL, NaN and infinities: numbers in their direction, NaN after them ascending and before
  them descending, NULL last, ties by row id, and no allowed row left out that comes before a reported one.
- **Text diff.** A reader who parses the printed hunk and applies it to the old text gets the new text.

## Model

| member | source | states |
|---|---|---|
| `GraphConnectivity.RepairBaseConnectivity` | vexdb_duckdb/include/vex_graph_connectivity.hpp:19-86 | each error if and only if its condition holds on the input (so the "cannot connect" error never arises, for any candidates and any distances, NaN included); otherwise every assigned node is reachable in the final table, `reachable_after` is n, at most n minus `reachable_before` single-slot writes were made, each keeping what was reachable and adding to it, and degrees are unchanged; for every write, the target is the least unvisited node, the source is the first usable one of the candidates the search names for that target in the table as it is then, or else the nearest usable node, the slot is the one that source gives up, and the tree it is judged by is a breadth-first visit; `fallback_scans` is the number of writes without a usable candidate; when a bad neighbour is met, the table is left as after the last such write |
| `GraphConnectivity.ConnectAll` | vexdb_duckdb/include/vex_graph_connectivity.hpp:47-85 | the repair loop ends repaired in that sense, or the table held an out-of-range neighbour and every write so far followed the rule |
| `GraphConnectivity.Visit` | vexdb_duckdb/include/vex_graph_connectivity.hpp:34-46 | the breadth-first visit extends the spanning tree until its node set is closed under neighbours, each new node hanging below the first queued node that names it, in the order of first naming, and returns the number of nodes queued, the start and the new ones; it fails only on an out-of-range neighbour |
| `GraphConnectivity.VictimSlot` | vexdb_duckdb/include/vex_graph_connectivity.hpp:49-61 | the slot offered carries no spanning-tree edge; there is none only if every slot carries one; the first empty slot is taken, otherwise the replaceable slot that a running maximum of distances ends at, exactly, NaN included |
| `GraphConnectivity.CandidateSource` | vexdb_duckdb/include/vex_graph_connectivity.hpp:65-69 | the first usable candidate with its slot, or none if no candidate is usable |
| `GraphConnectivity.FallbackSource` | vexdb_duckdb/include/vex_graph_connectivity.hpp:70-79 | the scan over all nodes always finds a usable source, the one a running minimum of distances ends at, exactly, NaN included |
| `GraphConnectivity.SomeNodeIsUsable` | vexdb_duckdb/include/vex_graph_connectivity.hpp:79 | a closed spanning tree with at least one slot per node has a node with a slot to give up |
| `GraphConnectivity.DeepestNodeIsLeaf` | vexdb_duckdb/include/vex_graph_connectivity.hpp:56 | no slot of a deepest tree node carries a tree edge |
| `GraphConnectivity.LinkTarget` | vexdb_duckdb/include/vex_graph_connectivity.hpp:64-83 | one repair writes the slot the rule chooses and visits on from the target; a failure comes from a bad row that was not visited before |
| `GraphConnectivity.RepairNode` | vexdb_duckdb/include/vex_graph_connectivity.hpp:64-83 | one repair keeps the whole loop state: spanning tree, closure, statistics, the history of tables and the trace of choices |
| `GraphConnectivity.ChooseSource` | vexdb_duckdb/include/vex_graph_connectivity.hpp:64-79 | the write follows the rule, and the fallback is taken exactly when no candidate is usable |
| `GraphConnectivity.ChoiceIsNearest` | vexdb_duckdb/include/vex_graph_connectivity.hpp:49-79 | without NaN the rule means: a nearest usable node and the least such, and the first empty slot or a farthest replaceable one |
| `GraphConnectivity.LogGrows` | vexdb_duckdb/include/vex_graph_connectivity.hpp:34-46 | scanning the next queued row appends its unvisited nodes in the order of their first slots |
| `Picks.PickTakes` | vexdb_duckdb/include/vex_graph_connectivity.hpp:56-59 | a strictly better score, or the first, becomes the choice: the result is the first offer if that is NaN, otherwise the first best number |
| `Picks.PickStays` | vexdb_duckdb/include/vex_graph_connectivity.hpp:56-59 | any other score leaves the choice as it is |
| `GraphConnectivity.LinkWrite` | vexdb_duckdb/include/vex_graph_connectivity.hpp:80-81 | overwriting a replaceable slot keeps the spanning tree and hangs the target below the source |
| `GraphConnectivity.LinkReaches` | vexdb_duckdb/include/vex_graph_connectivity.hpp:80-82 | the write loses no reachable node and makes the target reachable |
| `GraphConnectivity.ClosedTreeIsReachSet` | vexdb_duckdb/include/vex_graph_connectivity.hpp:47-48 | a closed spanning tree covers exactly the nodes reachable by walks from the root |
| `Elkan.ElkanKmeans` | common/quantizer/annkmeans.cpp:210-411 | the run is a sequence of at most 500 exhaustive Lloyd rounds from the drawn seeds, each moving every non-empty cluster's centre to the balance point of its samples; it has converged exactly if its last round repeats the assignment before it, no earlier round does, and it ends by convergence or after 500; the cached bounds hold at the end |
| `Elkan.LloydFixpoint` | common/quantizer/annkmeans.cpp:407-409 | when the last round changed no assignment and no cluster is empty, the returned centres are the (normalised) balance points of their samples and every sample is at a nearest returned centre |
| `Elkan.Iterate` | common/quantizer/annkmeans.cpp:283-410 | one iteration is one Lloyd round, keeps all bounds, and reports a change exactly when an assignment changed |
| `Elkan.Reassign` | common/quantizer/annkmeans.cpp:286-341 | after the pruned pass every sample is at minimum distance among all centres, bounds hold, and a sample only moves to a strictly closer centre |
| `Elkan.PruneSample` | common/quantizer/annkmeans.cpp:309-341 | the pruned scan of one sample settles at a nearest centre with valid bounds; it measures no distance twice and none that the kept bounds rule out, and exactly the measured lower bounds become exact |
| `Elkan.HalfDistancePrunes` | common/quantizer/annkmeans.cpp:310-316 | an upper bound below half the centre distance rules the other centre out |
| `Elkan.HalveDistances` | common/quantizer/annkmeans.cpp:286-294 | the table holds half of every centre-to-centre distance |
| `Elkan.MinHalves` | common/quantizer/annkmeans.cpp:296-305 | each entry is a lower bound on its row off the diagonal and is attained, or is the cap |
| `Elkan.MoveAllBounds` | common/quantizer/annkmeans.cpp:383-400 | lower and upper bounds stay valid for any replacement of the centres |
| `Elkan.MoveBounds` | common/quantizer/annkmeans.cpp:389-400 | a lower bound falls by its centre's move but not below zero, the upper bound grows by its centre's move, and both still hold |
| `Elkan.UpdateCenters` | common/quantizer/annkmeans.cpp:343-381 | every non-empty cluster gets the point around which its samples balance, normalised when a norm is given, an empty one the normalised refill |
| `Elkan.MeanIsCentre` | common/quantizer/annkmeans.cpp:361-380 | the divided sums are that point: the deviations of the samples add up to zero in every coordinate, and the normalised centre times the norm is the raw one |
| `Elkan.BalancePointIsLeastSquares` | common/quantizer/annkmeans.cpp:361-372 | that point has the least sum of squared distances to the cluster's samples, and no other has |
| `Elkan.Accumulate` | common/quantizer/annkmeans.cpp:343-359 | sums and counts per centre are those of the samples assigned to it |
| `Elkan.InitCenters` | common/quantizer/annkmeans.cpp:119-171 | the first seed is the given sample, each further one is drawn by the weights of the seeds before it, and every lower bound is the exact distance |
| `Elkan.DrawWeighted` | common/quantizer/annkmeans.cpp:160-166 | the draw is the first sample at which the running sum of weights reaches the choice, or the last one |
| `Elkan.WeightIsLeast` | common/quantizer/annkmeans.cpp:142-149 | a weight is the least squared distance to a seed so far, or the cap |
| `Elkan.InitialAssignment` | common/quantizer/annkmeans.cpp:266-280 | every sample starts at a nearest seed, with exact lower and upper bounds |
| `BitLock.StepKeepsInv` | common/vtl/bitlock.hpp:27-98 | every atomic step of every agent keeps: counters equal the counted agents modulo 256, bits equal the holders, one holder per bit |
| `BitLock.WritersExcludeEachOther` | common/vtl/bitlock.hpp:90-98 | in every run, over any agents, no index has two writers |
| `BitLock.ReadersExcludedIff` | common/vtl/bitlock.hpp:79-98 | no run has a reader and a writer on one index, if and only if there are at most 256 agents |
| `BitLock.OverflowLetsWriterIn` | common/vtl/bitlock.hpp:83-95 | with more than 256 agents some run puts a writer next to a reader, because the 8-bit counter wraps |
| `BitLock.StepKeepsReadersOutIff` | common/vtl/bitlock.hpp:79-98 | a step from a safe state puts a writer next to a reader if and only if it drains an index whose counted agents, one of them reading, are a multiple of 256 |
| `BitLock.RunSafeIff` | common/vtl/bitlock.hpp:79-98 | over any agents, every state of a run keeps readers and writers apart if and only if no step of it is such a drain |
| `BitLock.ReadersExcludeWriters` | common/vtl/bitlock.hpp:79-98 | over any agents, a run in which every index counts at most 255 agents keeps readers and writers apart |
| `BitLock.FewReadersRunSafely` | common/vtl/bitlock.hpp:79-98 | the same from any safe state |
| `BitLock.QuiescentIsClean` | common/vtl/bitlock.hpp:97-98 | when all agents are idle again all bits and counters are zero |
| `BitLockProgress.StepOperates` | common/vtl/bitlock.hpp:27-98 | every step is the operation its program point stands for, told in bits and counters: waits change nothing, counting moves one counter by one, taking and giving the bit write that bit only |
| `BitLockProgress.WriteUnlocks` | common/vtl/bitlock.hpp:98 | `wunlock` leaves the agent idle and the bit clear and touches nothing else |
| `BitLockProgress.ReadUnlocks` | common/vtl/bitlock.hpp:97 | `runlock` leaves the agent idle and the counter one lower and touches nothing else |
| `BitLockProgress.ReadSessionEnds` | common/vtl/bitlock.hpp:79-97 | from any quiescent state every agent can, by its own steps, take the read lock of every index, and its release restores the state |
| `BitLockProgress.WriteSessionEnds` | common/vtl/bitlock.hpp:90-98 | the same for the write lock |
| `BitLockProgress.SomeoneCanGo` | common/vtl/bitlock.hpp:79-98 | unless all are idle, some agent's step leaves less to do |
| `BitLockProgress.EveryRunCanFinish` | common/vtl/bitlock.hpp:79-98 | from every state of every run some continuation lets all agents finish, with all bits and counters zero |
| `BitLock.StepIsLocal` | common/vtl/bitlock.hpp:27-68 | a step on one index leaves every other index's bit and counter alone |
| `BitLock.SlotsDistinct` | common/vtl/bitlock.hpp:29-31 | indices have distinct word and bit if and only if there are at most 2^20 of them (the word index is 16 bits wide) |
| `BitLock.FetchOrBits` | common/vtl/bitlock.hpp:32 | the atomic or sets the index's bit and no other bit of any word |
| `BitLock.FetchAndBits` | common/vtl/bitlock.hpp:47-48 | the atomic and clears the index's bit and no other bit of any word |
| `ArchiveTree.TreeCheckIff` | agent_files/cli/vexfs_archive.cpp:1399-1419 | given the reference checks, the count and single-entry query accepts a package if and only if every live inode has a path from the root and every live directory exactly one |
| `ArchiveTree.NoDirectoryCycle` | agent_files/cli/vexfs_archive.cpp:1399-1419 | in an accepted package no directory lies on a cycle of entries |
| `ArchiveTree.ReachableIffPath` | agent_files/cli/vexfs_archive.cpp:1400-1405 | the recursive query yields exactly the inodes that have a path from the root |
| `ArchiveTree.CheckImpliesTree` | agent_files/cli/vexfs_archive.cpp:1405-1418 | an accepted package is a genuine tree |
| `ArchiveTree.TreeImpliesCheck` | agent_files/cli/vexfs_archive.cpp:1405-1418 | a genuine tree passes the query |
| `ArchiveChunks.VerifyManifest` | agent_files/cli/vexfs_archive.cpp:1425-1486 | the chunk loop accepts if and only if the rows are the canonical split: numbered from 0 without gaps, full except for the last, count `ceil(size/65536)`, every checksum right |
| `ArchiveChunks.ByteAddress` | agent_files/cli/vexfs_archive.cpp:1447-1480 | byte o of a verified file is byte o mod 65536 of chunk o/65536, and the chunks add up to the file size |
| `ArchiveChunks.CanonicalFillsTable` | agent_files/cli/vexfs_archive.cpp:1433-1487 | a verified manifest's pieces are exactly its rows of the chunk table |
| `ArchiveVerify.VerifyArchive` | agent_files/cli/vexfs_archive.cpp:1291-1487 | the verifier accepts if and only if nothing that is named is missing, every live inode has a path and every live directory one only, and every manifest's chunk rows, in order, are the canonical split of its file; then the chunk table holds exactly the files' pieces |
| `ArchiveReferences.ReferencesOkIff` | agent_files/cli/vexfs_archive.cpp:1303-1398 | the reference checks pass if and only if the commits, inodes, live inodes, directories, manifests, principals and current versions named anywhere in the package are there, every version has the size and checksum of the manifest its bytes are in, every manifest is used and has as many chunks as its size needs, and the settings are in range |
| `ArchiveVerify.VerifyContent` | agent_files/cli/vexfs_archive.cpp:1425-1486 | one manifest, on the rows its query returns |
| `ArchiveVerify.ChunkRows` | agent_files/cli/vexfs_archive.cpp:1433-1437 | all rows of the manifest, each once, by ascending chunk number |
| `ArchiveVerify.RowsAreUnique` | agent_files/cli/vexfs_archive.cpp:1433-1437 | there is only one such listing |
| `ArchiveImport.CopyCommits` | agent_files/cli/vexfs_archive.cpp:1784-1822 | the loop gets through if and only if every parent exists and has a smaller id; it then copies every commit once under a fresh id, in the same order, and a copy's parent is the parent's copy |
| `ArchiveImport.CopyRows` | agent_files/cli/vexfs_archive.cpp:1865-1889 | manifests are copied one-to-one under fresh ids and old rows stay |
| `ArchiveImport.FreshId` | agent_files/cli/vexfs_archive.cpp:1814 | a new row id is one above the largest id of the table, or 1 in an empty table |
| `ArchiveImport.OwnerMap` | agent_files/cli/vexfs_archive.cpp:1895-1900 | every owned manifest is sent to the least inode that owns it |
| `ArchiveImport.PlaceChunks` | agent_files/cli/vexfs_archive.cpp:1890-1933 | exactly the joined chunks get a slot; slots are fresh, blank, have the owner's local inode and the chunk's size and checksum, and none is inserted without a use |
| `ArchiveImport.SharedSlots` | agent_files/cli/vexfs_archive.cpp:1905-1923 | two chunks share a slot if and only if they agree on inode, size and checksum |
| `ArchiveImport.CopyImportedChunks` | agent_files/cli/vexfs_archive.cpp:415-472 | every slot ends with the bytes of each chunk mapped to it, other slots are untouched, and the size and checksum errors cannot be raised |
| `ArchiveSchema.CopyInodes` | agent_files/cli/vexfs_archive.cpp:1824-1857 | the loop gets through if and only if every inode has a known kind and the trigger's running count of live bytes never turns negative; inodes are then copied one-to-one under fresh ids, and the workspace counts their live files and bytes |
| `ArchiveSchema.PlainInodesFit` | vexdb_sqlite/src/agent_files/vexfs_sqlite.cpp:585-609 | inodes of known kinds and no negative size always fit |
| `ArchiveSchema.SettingsFitIff` | vexdb_sqlite/src/agent_files/vexfs_sqlite.cpp:566-580 | the CHECKs of the workspace row pass if and only if no setting is negative |
| `ArchiveSchema.InsertRows` | vexdb_sqlite/src/agent_files/vexfs_sqlite.cpp:632-713 | an insert beside rows of other keys goes through if and only if every row passes its CHECK and no two have the same primary key, and then appends the rows |
| `ArchiveSchema.OtherRowsPass` | vexdb_sqlite/src/agent_files/vexfs_sqlite.cpp:654-695 | manifests, chunks, file versions and snapshots of a verified package pass every CHECK |
| `ArchiveWorkspace.JoinIsTotal` | agent_files/cli/vexfs_archive.cpp:1934-2014 | an inner join in which every row has a match drops and duplicates nothing |
| `ArchiveWorkspace.AllRowsMatch` | agent_files/cli/vexfs_archive.cpp:1303-1398 | for an accepted package every row of every joined table has its match |
| `ArchiveWorkspace.ChunkJoinIsTotal` | agent_files/cli/vexfs_archive.cpp:1893-1902 | for an accepted package every chunk survives the owner joins |
| `ArchiveWorkspace.ImportIds` | agent_files/cli/vexfs_archive.cpp:1784-1889 | commits, then inodes, then manifests: stopped exactly by a late parent or a refused inode, otherwise the three id maps cover their tables, are one-to-one and carry the rows across |
| `ArchiveWorkspace.ImportChunks` | agent_files/cli/vexfs_archive.cpp:1890-1940 | every chunk of the package is found, with its bytes, under its manifest's local id, in a new slot of the workspace held for the least inode that owns the manifest; no two new slots are alike, none is left over, and old chunk rows and slots stay |
| `ArchiveWorkspace.ImportRows` | agent_files/cli/vexfs_archive.cpp:1942-2015 | the statements go through if and only if the package's rows pass the target's CHECKs and differ in its key columns; versions, states, entries, attributes, access entries and snapshots then grow by exactly one row per row of the package, every inode, commit and manifest column replaced by its local id and every other column the same |
| `ArchiveWorkspace.InsertJoined` | agent_files/cli/vexfs_archive.cpp:1952-2006 | one joined insert goes through if and only if the package's own rows fit, and appends the renamed rows in order under the new workspace |
| `ArchiveWorkspace.InsertXattrs` | agent_files/cli/vexfs_archive.cpp:1979-1982 | the same for attributes, whose key has no workspace |
| `ArchiveWorkspace.FitsFollowed` | vexdb_sqlite/src/agent_files/vexfs_sqlite.cpp:632-713 | renamed rows fit if and only if the package's rows do |
| `ArchiveWorkspace.VersionsJoined` | agent_files/cli/vexfs_archive.cpp:1943-1950 | file versions are renamed one-to-one, with their manifests and aliases, beside the old ones |
| `ArchiveDatabase.ImportingWorkspace` | agent_files/cli/vexfs_archive.cpp:1955 | the scalar subquery finds the workspace being imported |
| `ArchiveDatabase.Gate` | agent_files/cli/vexfs_archive.cpp:1705-1740 | name, verifier and free-name checks, each error if and only if its condition holds |
| `ArchiveDatabase.ImportBody` | agent_files/cli/vexfs_archive.cpp:1752-2026 | from the new row to its publication: stopped by a constraint or by commit order, each if and only if its condition holds; otherwise the result is a copy, column by column, published with root, head, floor, settings and counters |
| `ArchiveDatabase.Database.ImportArchive` | agent_files/cli/vexfs_archive.cpp:1700-2075 | each error if and only if its condition holds; success if and only if the name is good and free, the verifier accepts, every commit follows its parent, the target schema takes every row and the integrity check passes; a failure leaves the database as it was; a success leaves a one-to-one copy of the package beside untouched old rows, and a workspace row with the given name, active, with the local ids of the package's root, head and floor, its settings, and counters of its live files and bytes; the database stays consistent and names stay unique |
| `ArchiveRefused.LateParentRefused` | agent_files/cli/vexfs_archive.cpp:1795-1797 | a package the verifier accepts and the commit loop refuses |
| `ArchiveRefused.SameNameRefused` | vexdb_sqlite/src/agent_files/vexfs_sqlite.cpp:632-638 | a package the verifier accepts, with commits in order and every other table in order, that the key of the directory entries refuses |
| `ArchiveDatabase.CopyIsConsistent` | agent_files/cli/vexfs_archive.cpp:2017-2026 | after an import no workspace is half imported and no row dangles |
| `ArchiveCopy.SamePaths` | agent_files/cli/vexfs_archive.cpp:1963-1968 | a list of names leads to a file of the new workspace if and only if it leads to the file's original in the package |
| `ArchiveCopy.SameBytes` | agent_files/cli/vexfs_archive.cpp:1890-1950 | every file version, aliases included, reads the same bytes in the new workspace and has its recorded size |
| `ArchiveCopy.OldPathsKept` | agent_files/cli/vexfs_archive.cpp:1963-1968 | paths of the older workspaces are unchanged |
| `ArchiveCopy.OldBytesKept` | agent_files/cli/vexfs_archive.cpp:1934-1950 | every version of an older inode reads as before, and what could not be read still cannot |
| `ArchiveHistory.SameHistory` | agent_files/cli/vexfs_archive.cpp:1784-1822 | the parent chains from the new head are exactly the images of the parent chains from the package's head |
| `ArchiveHistory.SameFloor` | agent_files/cli/vexfs_archive.cpp:2017-2026 | such a chain meets the new floor exactly where the original meets its floor |
| `ArchiveHistory.SameTreeAtCommit` | vexdb_sqlite/src/agent_files/vexfs_sqlite.cpp:5140-5224 | at every commit of the package, a path exists in the new workspace if and only if it exists in the package, and leads to the inode's copy |
| `ArchiveHistory.SameFileAtCommit` | vexdb_sqlite/src/agent_files/vexfs_sqlite.cpp:5140-5165 | an inode that exists at a commit has a copy in the same state there, and its version of then reads the same bytes |
| `ArchiveHistory.OldTimelinesKept` | agent_files/cli/vexfs_archive.cpp:1942-2015 | the states of the older workspaces, and with them their trees at every commit, are unchanged |
| `Rotator.InverseUndoesRotation` | common/rabitq/rotator.cpp:18-109 | for every vector and flip mask, with and without Kac walks, the inverse of the rotation gives the vector back and drops the padding |
| `Rotator.RotationUndoesInverse` | common/rabitq/rotator.cpp:18-109 | without padding the rotation undoes the inverse, so every rotated vector is the rotation of a raw one |
| `Rotator.RotationKeepsDot` | common/rabitq/rotator.cpp:18-71 | the rotation keeps inner products in both branches |
| `Rotator.RotationKeepsDistance` | common/rabitq/rotator.cpp:18-71 | and with them squared L2 distances |
| `Rotator.UnstageUndoesStage` | common/rabitq/rotator.cpp:47-57 | an unscaled stage and its inverse leave the factor 2 with a walk and 1 without |
| `Rotator.HadamardTwice` | common/distance/src/rabitq_template.cpp:26-115 | the fast transform applied twice multiplies by its size |
| `Rotator.HadamardDot` | common/distance/src/rabitq_template.cpp:26-115 | and stretches inner products by its size |
| `Rotator.HadamardIsMatrix` | common/distance/src/rabitq_template.cpp:26-115 | the fast transform is the product with the sign matrix whose entry (i, j) is -1 to the number of bits that i and j have in common |
| `Rotator.KacTwice` | common/distance/src/rabitq_template.cpp:423-433 | a walk applied twice doubles the vector |
| `Rotator.KacDot` | common/distance/src/rabitq_template.cpp:423-433 | a walk doubles inner products |
| `Rotator.FhtTwice` | common/rabitq/rotator.cpp:84-92 | the normalised transform of a window is its own inverse and leaves the rest alone |
| `Rotator.FlipTwice` | common/rabitq/rotator.cpp:84-91 | a sign flip is its own inverse |
| `RotatorKernels.FhtFloat` | common/distance/src/rabitq_template.cpp:26-115 | the recursive transform in place equals the vector function on its window and changes nothing else |
| `RotatorKernels.KacsWalk` | common/distance/src/rabitq_template.cpp:423-433 | the loop in place equals the walk |
| `RotatorKernels.FlipSign` | common/distance/src/rabitq_template.cpp:168-421 | coordinate i of stage s changes sign exactly when bit s*padded+i of the flip bytes, read as one string of bits, is set |
| `RotatorKernels.VecRescale` | common/rabitq/rotator.h:63-67 | the window is multiplied, the rest stays |
| `RotatorKernels.FloorLog2` | common/rabitq/rotator.h:54-61 | the largest power of two not above the argument |
| `RotatorKernels.FhtKacRotator.constructor` | common/rabitq/rotator.h:16-34 | the parameters satisfy what the rotation needs |
| `RotatorKernels.FhtKacRotator.Rotate` | common/rabitq/rotator.cpp:18-71 | the buffer ends as the rotated, padded vector |
| `RotatorKernels.FhtKacRotator.InverseRotateInplace` | common/rabitq/rotator.cpp:81-109 | the output is the unrotated front of the work buffer |
| `RotatorKernels.RoundTrip` | common/rabitq/rotator.cpp:18-109 | rotating and rotating back in place returns the original data |
| `RabitqCodes.ViewsAgree` | common/rabitq/rabitq.cpp:119 | encoder and decoder see the same value of a coordinate exactly when it is not zero; at zero they differ by 256 |
| `RabitqCodes.EstimateIsIdealIff` | common/rabitq/estimator.cpp:53-75 | the estimate equals the promised one for every query if and only if no residual coordinate is zero |
| `RabitqCodes.EstimateGap` | common/rabitq/estimator.cpp:64-75 | the exact difference between the two, for every query |
| `RabitqCodes.IdealError` | common/rabitq/estimator.cpp:64-75 | the promised estimate differs from the true distance by exactly the inner product of what the code misses of the residual with the query's residual, once or (L2) twice |
| `RabitqCodes.SelfDistanceIff` | common/rabitq/estimator.cpp:64-75 | a stored vector is at its true distance from itself (0, or 1 minus its squared length) if and only if its coordinates at zero residuals add up to zero |
| `RabitqCodes.ZeroCoordinateBreaksSelfDistance` | common/rabitq/rabitq.cpp:119 | in every dimension from two on, every code of the all-ones vector near the first unit vector, for both metrics, is off by a positive amount in its distance to itself |
| `RabitqCodes.OnesAwayFromThemselves` | common/rabitq/rabitq.cpp:119 | with the code spelled out, the L2 distance is 1024/511 |
| `RabitqCodes.ZeroResidualIsExact` | common/rabitq/rabitq.cpp:309-317 | a vector equal to its centroid is exact against every query |
| `RabitqCodes.ReconstructedLength` | common/rabitq/rabitq.cpp:303-328 | the reconstructed residual's inner product with the residual is the residual's squared length |
| `RabitqCodes.FullDistanceDecodes` | common/rabitq/estimator.cpp:69-72 | the three inner products of the query add up to one with the decoded vector |
| `RabitqCodes.DirectionPositive` | common/rabitq/rabitq.cpp:306-309 | the quantised direction has a positive inner product with every non-zero residual, for any codes |
| `RabitqEncoder.OneBitCode` | common/rabitq/rabitq.cpp:115-121 | residual and sign bits of every coordinate |
| `RabitqEncoder.RowwiseNormAbs` | common/rabitq/utils.h:183-202 | absolute values divided by the square root of the row's squared length, or zeros for a zero row |
| `RabitqEncoder.QuantizeEx` | common/rabitq/rabitq.cpp:217-246 | codes truncated and clamped at the factor the search finds, and the inverse of their inner product with the input |
| `RabitqEncoder.ExBitsCode` | common/rabitq/rabitq.cpp:248-275 | codes of negative coordinates are complemented, the others kept |
| `RabitqEncoder.QuantizeExtCode` | common/rabitq/rabitq.cpp:277-337 | the codes are the residual's normalised magnitudes at their best factor, and the stored factors are those of the reconstructed residual, for both metrics, with the degenerate branch for a zero residual |
| `RabitqEncoder.InnerProductOfCodes` | common/rabitq/rabitq.cpp:226-241 | the sum accumulated over normalised values is the inner product of residual and direction divided by the norm |
| `RabitqEncoder.DegenerateIffZero` | common/rabitq/rabitq.cpp:309 | the degenerate branch is taken if and only if the residual is zero |
| `RabitqEncoder.ReconstructRotated` | common/rabitq/rabitq.cpp:83-98 | the loop writes centroid plus scaled decoded vector |
| `RabitqEncoder.ReconstructsResidual` | common/rabitq/rabitq.cpp:83-98 | that is the centroid plus the reconstructed residual the estimator uses, if and only if no residual coordinate is zero or all are |
| `RabitqEndToEnd.RawSelfDistance` | common/rabitq/rabitq.cpp:32-50 | rotation, codes and estimate together: a raw vector off its centroid is at its true distance from itself if and only if its rotated coordinates at zero residuals add up to zero |
| `RabitqEndToEnd.RawSelfDistanceFails` | common/rabitq/rabitq.cpp:32-50 | for every unpadded rotation, a raw vector and centroid such that no code gives the true distance of the vector to itself |
| `RabitqEndToEnd.RawVectorAwayFromItself` | common/rabitq/rabitq.cpp:32-50 | and a code that puts it 1024/511 away |
| `RabitqEndToEnd.PlainRotationIsValid` | common/rabitq/rotator.h:16-34 | 64 coordinates without flips are such a rotation |
| `RabitqEndToEnd.RawCentroidDistance` | common/rabitq/rabitq.cpp:146-156 | a raw vector that is its centroid is at its true distance from every raw query |
| `RabitqEndToEnd.QueryPartRotates` | common/rabitq/estimator.h:84-99 | the query's distance to a rotated centroid is its distance to the raw one |
| `Rescale.BestRescaleFactor` | common/rabitq/utils.h:115-181 | 0 when no value exceeds the threshold; otherwise the factor of the first visited code of largest cosine, over a run that starts with the code at its fixed fraction of the end and ends ten steps after the largest coordinate is full, whose factors never decrease, whose codes grow by one coordinate at a time, keep pace with their factor, and gain at most 2^ex_bits per coordinate |
| `Rescale.Search` | common/rabitq/utils.h:151-176 | the loop terminates with that guarantee |
| `Rescale.Advance` | common/rabitq/utils.h:155-175 | one round keeps numerator and denominator equal to the sums over the code, and the queue equal to the next jumps of distinct coordinates |
| `Rescale.Start` | common/rabitq/utils.h:129-138 | the starting code is the truncation at the start factor and both sums are those of the code |
| `Rescale.FillQueue` | common/rabitq/utils.h:140-149 | every coordinate above the threshold is queued once, with its next jump |
| `Rescale.Requeue` | common/rabitq/utils.h:170-175 | the queue stays a heap of distinct next jumps within each coordinate's limit, and the coordinate is queued again if and only if it is not full and its next jump comes before the end of the search |
| `Rescale.PopKeepsPending` | common/rabitq/utils.h:155-159 | the smallest jump comes first and what is left does not concern its coordinate |
| `Rescale.BestCodeAgrees` | common/rabitq/rabitq.cpp:226-236 | the code written at the factor found is the best visited one, cut at the largest code and up to ties, on every coordinate that was full or not yet due at that factor, and only there; so on all coordinates worth scaling while the factor is not past the end of the search |
| `Rescale.TruncationAgrees` | common/rabitq/utils.h:155-175 | the same for every visit, and a truncated code is never below the visited one |
| `Rescale.BumpNumerator` | common/rabitq/utils.h:162 | raising a code by one adds its value to the numerator |
| `Rescale.BumpDenominator` | common/rabitq/utils.h:161 | and twice the new code to the denominator |
| `BitPlanes.PackBinCode` | common/rabitq/rabitq.cpp:102-113 | bit 63-k of word b is sign bit 64b+k |
| `BitPlanes.NewTransposeBin` | common/rabitq/query.h:90-105 | bit 63-k of plane p of block b is bit p of value 64b+k |
| `BitPlanes.PlanesRecoverValues` | common/rabitq/query.h:90-105 | every 4-bit value is read back from its four planes |
| `BitPlanes.PopcountAnd` | common/distance/src/rabitq_template.cpp:729-738 | popcount of sign word and plane counts the plane's one bits under the signs |
| `BitPlanes.WarmupIp` | common/distance/src/rabitq_template.cpp:437-741 | the kernel's result is the sum of the dequantised query values where the sign bit is one |
| `PqBitstream.EncodeThenDecode` | common/quantizer/product_quantizer.cpp:186-241 | for every list of codes below 2^nbits, 1 to 63 bits wide, decoding the encoded bytes returns the list |
| `PqBitstream.EncodeGeneric` | common/quantizer/product_quantizer.cpp:186-198 | exactly `ceil(nbits*M/8)` bytes are written, and they are the little-endian number whose nbits-wide digits are the codes |
| `PqBitstream.PQEncoderGeneric.Encode` | common/quantizer/pq_endecode.h:34-51 | the code is appended to the number held by written bytes and register, and nothing past the written bytes changes |
| `PqBitstream.PQEncoderGeneric.RestoreCode` | common/quantizer/pq_endecode.h:53-57 | the pending bits complete the number in the last byte |
| `PqBitstream.DecodeGeneric` | common/quantizer/product_quantizer.cpp:228-241 | code k is the k-th digit of the bytes; no byte past them is read |
| `PqBitstream.PQDecoderGeneric.Decode` | common/quantizer/pq_endecode.h:97-122 | the next nbits of the stream |
| `PqBitstream.RoundTrip` | common/quantizer/pq_endecode.h:20-123 | bytes holding the stream of some codes have those codes as digits |
| `PqBitstream.Encode8` | common/quantizer/pq_endecode.h:60-70 | the 8-bit form writes the generic stream |
| `PqBitstream.Encode16` | common/quantizer/pq_endecode.h:72-82 | so does the 16-bit form on a little-endian host |
| `PqBitstream.Decode8` | common/quantizer/pq_endecode.h:125-132 | the 8-bit form reads the generic digits |
| `PqBitstream.Decode16` | common/quantizer/pq_endecode.h:134-141 | so does the 16-bit form on a little-endian host |
| `PqBitstream.EncodersAgree` | common/quantizer/product_quantizer.cpp:202-209 | two encoders of the same stream write the same bytes |
| `ProductQuantizer.SetDerivedValues` | common/quantizer/product_quantizer.cpp:47-64 | a configuration is rejected if and only if it is malformed or code size or centroid table overflow a 64-bit size, and an accepted one is computed without wrap-around |
| `ProductQuantizer.NearestRow` | common/distance/src/distances_simd_template.cpp:1900-1919 | the first row of least squared distance among those given, and 0 when there are none |
| `ProductQuantizer.RowCount` | common/quantizer/product_quantizer.cpp:192-194 | the cast row count is the table's below 32 bits of code and 0 from there on |
| `ProductQuantizer.ComputeCode` | common/quantizer/product_quantizer.cpp:186-226 | the bytes hold one centroid number per subvector, whichever encoder the width selects: nearest centroids below 32 bits, zeros from there on |
| `ProductQuantizer.DecodeCode` | common/quantizer/product_quantizer.cpp:228-258 | the centroids the bytes name; the range error cannot be raised |
| `ProductQuantizer.NearestCodesAreBest` | common/quantizer/product_quantizer.cpp:186-198 | codes that are nearest part by part decode to a vector at least as near to the input as any other codes do |
| `ProductQuantizer.Quantize` | common/quantizer/product_quantizer.cpp:202-258 | encoding and decoding: below 32 bits every subvector becomes a nearest centroid and no decodable vector is nearer to the input; from 32 bits on every subvector becomes the first centroid |
| `ProductQuantizer.WideCodesMiss` | common/quantizer/product_quantizer.cpp:192-194 | for every width from 32 bits on, a quantizer and an input for which the first centroid is not nearest |
| `ProductQuantizer.WideCodesAreAccepted` | common/quantizer/product_quantizer.cpp:47-64 | widths from 32 to 61 bits are accepted |
| `FilteredSearch.FilteredExact` | vexdb_duckdb/include/vex_filtered_search.hpp:75-144 | min(k, n) rows are reported and the others left out, together exactly the allowed rows; on the values fetched, reported rows come in order and no row left out comes before one: numbers rising or falling, NaN after them or before, NULL last, ties by row id; every reported distance is its row's; ids and distances are those of the front of the list sorted by the comparator, each row scored once from the storage that holds it |
| `FilteredSearch.CloserIsTotalOrder` | vexdb_duckdb/include/vex_filtered_search.hpp:91-100 | the comparator is a strict total order for both directions and any mix of NULL, NaN and infinities |
| `FilteredSearch.AtMostIsInOrder` | vexdb_duckdb/include/vex_filtered_search.hpp:91-100 | the comparator puts rows in that order |
| `FilteredSearch.KeptAreTopK` | vexdb_duckdb/include/vex_filtered_search.hpp:131-142 | what the heap keeps, sorted, are the first allowed rows in that order |
| `FilteredSearch.NextBatch` | vexdb_duckdb/include/vex_filtered_search.hpp:105-109 | a batch is 1 to 2048 rows of one storage kind, cut only by size, end or a change of kind |
| `FilteredSearch.ScoreBatch` | vexdb_duckdb/include/vex_filtered_search.hpp:110-140 | every row of the batch is offered to the heap with its own storage's score |
| `Heaps.Offer` | vexdb_duckdb/include/vex_filtered_search.hpp:131-138 | the heap keeps the k closest entries met, and no dropped one is closer |
| `Heaps.KeptIsTopK` | vexdb_duckdb/include/vex_filtered_search.hpp:142 | what the heap keeps, sorted, is the front of everything met, sorted |
| `Heaps.SortedIsUnique` | vexdb_duckdb/include/vex_filtered_search.hpp:91-100 | under a strict total order a list can be sorted in one way only |
| `Heaps.PushHeap` | vexdb_duckdb/include/vex_filtered_search.hpp:133 | a heap with one more entry is a heap of the same entries |
| `Heaps.PopHeap` | vexdb_duckdb/include/vex_filtered_search.hpp:135 | the farthest entry goes last, the rest is a heap, entries are kept |
| `Heaps.SortHeap` | vexdb_duckdb/include/vex_filtered_search.hpp:142 | the heap's entries, sorted |
| `TextDiff.PrintDiff` | agent_files/cli/vexfs_main.cpp:635-686 | unchanged, binary and too large each if and only if its condition holds; otherwise parsing the printed hunk and applying it to the old lines gives exactly the new lines, and the header counts match the printed lines |
| `TextDiff.PrintHunk` | agent_files/cli/vexfs_main.cpp:662-684 | the hunk comes from a cut of both texts whose common ends are maximal, do not overlap and give up to three lines of context |
| `TextDiff.HunkApplies` | agent_files/cli/vexfs_main.cpp:677-684 | strict application of the hunk to the old lines gives the new lines |
| `TextDiff.ApplyIff` | agent_files/cli/vexfs_main.cpp:675-684 | a hunk applies to lines if and only if they begin with its old side, and then its new side takes that place |
| `TextDiff.HunkCounts` | agent_files/cli/vexfs_main.cpp:675-676 | the lines of each side of a hunk |
| `TextDiff.WindowCuts` | agent_files/cli/vexfs_main.cpp:670-674 | both texts are put together from the same pieces, so trailing context from the new side is also the old side's |
| `TextDiff.FindWindow` | agent_files/cli/vexfs_main.cpp:662-669 | the longest common prefix, and the longest common suffix that does not overlap it |
| `TextDiff.ParsePrinted` | agent_files/cli/vexfs_main.cpp:624-629 | printed lines, with the no-newline mark, parse back to the hunk |
| `TextDiff.SplitLines` | agent_files/cli/vexfs_main.cpp:609-622 | the lines of the text |
| `TextDiff.LinesSplit` | agent_files/cli/vexfs_main.cpp:609-622 | the lines concatenate back to the text, and only the last may lack its break |
| `TextDiff.SplitIsUnique` | agent_files/cli/vexfs_main.cpp:609-622 | no other list of lines does |

## Left out

- Floating-point rounding, overflow, and the SIMD variants of kernels: kernels are modelled over the reals by their scalar loops; square roots are oracles.
- The 1-bit (`get_bin_dist`) estimate, error bounds `f_error` and `low_dist`, and the choice of `delta` and `vl` in `quantize_scalar`: they would repeat the algebra of the full estimate.
- The choice of the closest centroid and the byte layout of stored codes.
- The random refill of empty clusters and the quick path for few samples: random draws and refills are arbitrary values. Work-memory guards and infinity clamping are not modelled.
- The reverse direction of an archive (export), PostgreSQL records, `commit_changes`, record and package checksums, and dirty-table clean-up; integers and row ids are unbounded, and a package table with a unique key is a map.
- Database, file system and interrupt errors of SQLite and DuckDB; memory-order weaker than sequential consistency in the lock.
- JSON output, file headers and number formatting of the diff.
- GraphConnectivity.RepairBaseConnectivity: the cast of a slot number to 16 bits is the identity here, and the candidate oracle is a function of table and target.
- BitLock.StepKeepsInv: `trylock` and resizing are not steps, and yielding is an unchanged state.
- ArchiveDatabase.Database.ImportArchive: the container, format, record-checksum and package-checksum checks are one argument (`sealed`), the closing `vexfs_check` is an arbitrary test of the filled tables, and SHA-256 is assumed free of collisions among the package's chunks.
- ArchiveHistory.SameTreeAtCommit: the tree at a commit is told by its paths; the reader's range check of the commit, its cycle error and its limit of 1024 components are not modelled, and attributes and access entries at a commit are left out.
- ArchiveImport.PlaceChunks: chunks are placed in arbitrary order, and the textual reuse key is the triple it is made of.
- Elkan.ElkanKmeans: the distance is an arbitrary metric, parallel loops run in index order, and FLT_MAX and DBL_MAX are one arbitrary bound above the distances.
- ProductQuantizer.ComputeCode: the vector is given as its subvectors, and subvectors of 2^32 or more coordinates, whose dimension would be cast as well, are not modelled.
- ProductQuantizer.NearestRow: the vectorised kernels for 2, 4 and 8 coordinates may pick another of several nearest rows.
- PqBitstream.EncodeGeneric: the encoder's start at a non-zero bit offset is not modelled.
- RotatorKernels.FhtKacRotator.constructor: the flip bytes are arbitrary, and `fac` is a real with `fac*fac*trunc = 1`.
- Rescale.BestRescaleFactor: the overflow of `int` products is not modelled.
- BitPlanes.WarmupIp: query values are assumed below 16, as a 4-bit quantiser makes them.
- FilteredSearch.FilteredExact: DuckDB's row-id and vector-size constants are fixed, and the cast of scores to `float` is the identity.
- Heaps.PushHeap: the C++ library's heap functions are modelled by the textbook sift loops that meet their contracts.
- TextDiff.PrintDiff: header numbers are kept as numbers.
