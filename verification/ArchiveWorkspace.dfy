/** The database an archive is imported into (agent_files/cli/vexfs_archive.cpp), and the statements that
    fill its tables: the id loops, the chunks and the INSERT ... SELECT ... JOINs, each with what it adds
    and when the target schema refuses it. */
module ArchiveWorkspace {
  import opened Basics
  import opened ArchivePackage
  import opened ArchiveChunks
  import opened ArchiveImport
  import opened ArchiveSchema

  datatype Maps = Maps(commits: map<Id, Id>, inodes: map<Id, Id>, manifests: map<Id, Id>)

  // ----- INSERT ... SELECT ... JOIN -----

  /** An inner join against key maps: rows without a match are dropped, the rest renamed, in order. */
  function Join<R(!new), L>(rows: seq<R>, matched: R -> bool, image: R --> L): seq<L>
    requires forall r :: matched(r) ==> image.requires(r)
  {
    if rows == [] then []
    else
      var last := rows[|rows| - 1];
      Join(rows[..|rows| - 1], matched, image) + (if matched(last) then [image(last)] else [])
  }

  /** A join in which every row has its match loses nothing and duplicates nothing. */
  lemma {:induction false} JoinIsTotal<R(!new), L>(rows: seq<R>, matched: R -> bool, image: R --> L)
    requires forall r :: matched(r) ==> image.requires(r)
    requires forall i :: 0 <= i < |rows| ==> matched(rows[i])
    ensures |Join(rows, matched, image)| == |rows|
    ensures forall i :: 0 <= i < |rows| ==> Join(rows, matched, image)[i] == image(rows[i])
  {
    if rows != [] {
      JoinIsTotal(rows[..|rows| - 1], matched, image);
    }
  }

  predicate MatchesDentry(m: Maps, e: Dentry) { e.parent in m.inodes && e.inode in m.inodes }

  function RenameDentry(m: Maps, e: Dentry): Dentry
    requires MatchesDentry(m, e)
  {
    Dentry(m.inodes[e.parent], e.name, m.inodes[e.inode])
  }

  predicate MatchesInodeState(m: Maps, s: InodeState) { s.inode in m.inodes && s.commit in m.commits }

  function RenameInodeState(m: Maps, s: InodeState): InodeState
    requires MatchesInodeState(m, s)
  {
    s.(inode := m.inodes[s.inode], commit := m.commits[s.commit])
  }

  predicate MatchesDentryState(m: Maps, s: DentryState) {
    s.parent in m.inodes && s.inode in m.inodes && s.commit in m.commits
  }

  function RenameDentryState(m: Maps, s: DentryState): DentryState
    requires MatchesDentryState(m, s)
  {
    s.(parent := m.inodes[s.parent], inode := m.inodes[s.inode], commit := m.commits[s.commit])
  }

  predicate MatchesXattrState(m: Maps, s: XattrState) { s.inode in m.inodes && s.commit in m.commits }

  function RenameXattrState(m: Maps, s: XattrState): XattrState
    requires MatchesXattrState(m, s)
  {
    s.(inode := m.inodes[s.inode], commit := m.commits[s.commit])
  }

  predicate MatchesAclState(m: Maps, s: AclState) { s.inode in m.inodes && s.commit in m.commits }

  function RenameAclState(m: Maps, s: AclState): AclState
    requires MatchesAclState(m, s)
  {
    s.(inode := m.inodes[s.inode], commit := m.commits[s.commit])
  }

  predicate MatchesXattr(m: Maps, x: Xattr) { x.inode in m.inodes }

  function RenameXattr(m: Maps, x: Xattr): Xattr
    requires MatchesXattr(m, x)
  {
    x.(inode := m.inodes[x.inode])
  }

  predicate MatchesAclEntry(m: Maps, e: AclEntry) { e.inode in m.inodes }

  function RenameAclEntry(m: Maps, e: AclEntry): AclEntry
    requires MatchesAclEntry(m, e)
  {
    e.(inode := m.inodes[e.inode])
  }

  predicate MatchesSnapshot(m: Maps, s: Snapshot) { s.commit in m.commits }

  function RenameSnapshot(m: Maps, s: Snapshot): Snapshot
    requires MatchesSnapshot(m, s)
  {
    s.(commit := m.commits[s.commit])
  }

  predicate MatchesVersion(m: Maps, k: VersionKey, v: Version) { k.inode in m.inodes && v.commit in m.commits }

  /** The manifest comes from a LEFT JOIN: an unmatched one becomes NULL. */
  function RenameVersion(m: Maps, k: VersionKey, v: Version): Version
    requires MatchesVersion(m, k, v)
  {
    v.(commit := m.commits[v.commit],
       manifest := if v.manifest.Some? && v.manifest.value in m.manifests
                   then Some(m.manifests[v.manifest.value]) else None)
  }

  function RenameVersionKey(m: Maps, k: VersionKey): VersionKey
    requires k.inode in m.inodes
  {
    VersionKey(m.inodes[k.inode], k.versionNo)
  }

  function RenameChunkKey(m: Maps, k: ChunkKey): ChunkKey
    requires k.manifest in m.manifests
  {
    ChunkKey(m.manifests[k.manifest], k.chunkNo)
  }

  function JoinVersions(m: Maps, versions: map<VersionKey, Version>): map<VersionKey, Version>
    requires Injective(m.inodes)
  {
    map k | k in versions && MatchesVersion(m, k, versions[k]) ::
      RenameVersionKey(m, k) := RenameVersion(m, k, versions[k])
  }

  function JoinManifestChunks(m: Maps, placed: map<ChunkKey, Id>): map<ChunkKey, Id>
    requires Injective(m.manifests)
  {
    map k | k in placed && k.manifest in m.manifests :: RenameChunkKey(m, k) := placed[k]
  }

  // ----- Copies, column by column -----

  ghost predicate IsDentryCopy(m: Maps, e: Dentry, local: Dentry) {
    && e.parent in m.inodes && local.parent == m.inodes[e.parent]
    && e.inode in m.inodes && local.inode == m.inodes[e.inode]
    && local.name == e.name
  }

  ghost predicate IsInodeStateCopy(m: Maps, s: InodeState, local: InodeState) {
    && s.inode in m.inodes && local.inode == m.inodes[s.inode]
    && s.commit in m.commits && local.commit == m.commits[s.commit]
    && local.kind == s.kind && local.currentVersion == s.currentVersion
    && local.deletedAt == s.deletedAt && local.rest == s.rest
  }

  ghost predicate IsDentryStateCopy(m: Maps, s: DentryState, local: DentryState) {
    && s.parent in m.inodes && local.parent == m.inodes[s.parent]
    && s.inode in m.inodes && local.inode == m.inodes[s.inode]
    && s.commit in m.commits && local.commit == m.commits[s.commit]
    && local.name == s.name && local.deleted == s.deleted
  }

  ghost predicate IsXattrStateCopy(m: Maps, s: XattrState, local: XattrState) {
    && s.inode in m.inodes && local.inode == m.inodes[s.inode]
    && s.commit in m.commits && local.commit == m.commits[s.commit]
    && local.name == s.name && local.deleted == s.deleted && local.rest == s.rest
  }

  ghost predicate IsAclStateCopy(m: Maps, s: AclState, local: AclState) {
    && s.inode in m.inodes && local.inode == m.inodes[s.inode]
    && s.commit in m.commits && local.commit == m.commits[s.commit]
    && local.principal == s.principal && local.effect == s.effect
    && local.deleted == s.deleted && local.rest == s.rest
  }

  ghost predicate IsXattrCopy(m: Maps, x: Xattr, local: Xattr) {
    x.inode in m.inodes && local.inode == m.inodes[x.inode] && local.name == x.name && local.rest == x.rest
  }

  ghost predicate IsAclEntryCopy(m: Maps, e: AclEntry, local: AclEntry) {
    && e.inode in m.inodes && local.inode == m.inodes[e.inode]
    && local.principal == e.principal && local.effect == e.effect
    && local.inheritFlags == e.inheritFlags && local.rest == e.rest
  }

  ghost predicate IsSnapshotCopy(m: Maps, s: Snapshot, local: Snapshot) {
    && s.commit in m.commits && local.commit == m.commits[s.commit]
    && local.kind == s.kind && local.rest == s.rest
  }

  /** A version without a manifest has none in the database either. */
  ghost predicate IsVersionCopy(m: Maps, v: Version, local: Version) {
    && v.commit in m.commits && local.commit == m.commits[v.commit]
    && (v.manifest.None? ==> local.manifest.None?)
    && (v.manifest.Some? ==> v.manifest.value in m.manifests && local.manifest == Some(m.manifests[v.manifest.value]))
    && local.size == v.size && local.checksum == v.checksum
    && local.sourceVersion == v.sourceVersion && local.rest == v.rest
  }

  // ----- The database -----

  datatype Phase = Importing | Active

  datatype Workspace = Workspace(name: string, phase: Phase, root: Option<Id>, head: Option<Id>, floor: Option<Id>,
                                 settings: Settings, usage: Usage, rest: Columns)

  datatype SnapshotKey = SnapshotKey(workspace: Id, name: string)

  datatype Tables = Tables(
    workspaces: map<Id, Workspace>,
    commits: map<Id, Owned<Commit>>,
    inodes: map<Id, Owned<Inode>>,
    manifests: map<Id, Owned<Manifest>>,
    chunks: map<Id, LocalChunk>,
    manifestChunks: map<ChunkKey, Id>,
    versions: map<VersionKey, Version>,
    inodeStates: seq<Owned<InodeState>>,
    dentries: seq<Owned<Dentry>>,
    dentryStates: seq<Owned<DentryState>>,
    xattrs: seq<Xattr>,
    xattrStates: seq<Owned<XattrState>>,
    aclEntries: seq<Owned<AclEntry>>,
    aclStates: seq<Owned<AclState>>,
    snapshots: map<SnapshotKey, Snapshot>)

  ghost predicate OwnersKnown<R>(rows: seq<Owned<R>>, workspaces: map<Id, Workspace>) {
    forall i :: 0 <= i < |rows| ==> rows[i].workspace in workspaces
  }

  /** The rows of every table that has a workspace column belong to a workspace. */
  ghost predicate AllOwnersKnown(t: Tables) {
    && OwnersKnown(t.inodeStates, t.workspaces) && OwnersKnown(t.dentries, t.workspaces)
    && OwnersKnown(t.dentryStates, t.workspaces) && OwnersKnown(t.xattrStates, t.workspaces)
    && OwnersKnown(t.aclEntries, t.workspaces) && OwnersKnown(t.aclStates, t.workspaces)
  }

  ghost predicate ManifestKnown(v: Version, manifests: map<Id, Owned<Manifest>>) {
    v.manifest.Some? ==> v.manifest.value in manifests
  }

  ghost predicate NamesDiffer(workspaces: map<Id, Workspace>) {
    forall v, w :: v in workspaces && w in workspaces && v != w ==> workspaces[v].name != workspaces[w].name
  }

  /** Between imports: nothing is half imported, and rows belong to rows that exist. */
  ghost predicate Consistent(t: Tables) {
    && (forall w :: w in t.workspaces ==> t.workspaces[w].phase == Active)
    && NamesDiffer(t.workspaces)
    && (forall k :: k in t.versions ==> k.inode in t.inodes && ManifestKnown(t.versions[k], t.manifests))
    && (forall k :: k in t.manifestChunks ==> k.manifest in t.manifests && t.manifestChunks[k] in t.chunks)
    && (forall k :: k in t.snapshots ==> k.workspace in t.workspaces)
    && (forall i :: 0 <= i < |t.xattrs| ==> t.xattrs[i].inode in t.inodes)
    && AllOwnersKnown(t)
  }

  /** The three id maps cover their tables, are one-to-one, and carry the rows across. */
  ghost predicate IdsCopied(p: Package, workspace: Id, t0: Tables, t: Tables, m: Maps) {
    && m.commits.Keys == p.commits.Keys && CommitsCopied(p.commits, workspace, t0.commits, t.commits, m.commits)
    && m.inodes.Keys == p.inodes.Keys && RowsCopied(p.inodes, workspace, t0.inodes, t.inodes, m.inodes)
    && m.manifests.Keys == p.manifests.Keys
    && RowsCopied(p.manifests, workspace, t0.manifests, t.manifests, m.manifests)
  }

  /** Commits, inodes and manifests. The inodes' trigger counts them in the workspace row. */
  method ImportIds(p: Package, workspace: Id, t0: Tables) returns (ordered: bool, ok: bool, t: Tables, m: Maps)
    requires workspace in t0.workspaces
    requires t0.workspaces[workspace].usage.files == t0.workspaces[workspace].usage.bytes == 0
    ensures ordered <==> ParentsFirst(p.commits)
    ensures ok <==> ordered && InodesFit(p.inodes)
    ensures ok ==> IdsCopied(p, workspace, t0, t, m) && IdsOnly(p, workspace, t0, t)
  {
    var commits, commitMap;
    ordered, commits, commitMap := CopyCommits(p.commits, workspace, t0.commits);
    ok, t, m := false, t0, Maps(map[], map[], map[]);
    if ordered {
      var inodes, inodeMap, usage;
      ok, inodes, inodeMap, usage := CopyInodes(p.inodes, workspace, t0.inodes, t0.workspaces[workspace].usage);
      if ok {
        var manifests, manifestMap := CopyRows(p.manifests, workspace, t0.manifests);
        t := t0.(commits := commits, inodes := inodes, manifests := manifests,
                 workspaces := t0.workspaces[workspace := t0.workspaces[workspace].(usage := usage)]);
        m := Maps(commitMap, inodeMap, manifestMap);
      }
    }
  }

  /** Only the three tables and the counters of the workspace row change. */
  ghost predicate IdsOnly(p: Package, workspace: Id, t0: Tables, t: Tables)
    requires workspace in t0.workspaces
  {
    && t == t0.(commits := t.commits, inodes := t.inodes, manifests := t.manifests, workspaces := t.workspaces)
    && workspace in t.workspaces && IsUsage(p.inodes, p.inodes.Keys, t.workspaces[workspace].usage)
    && t.workspaces ==
       t0.workspaces[workspace := t0.workspaces[workspace].(usage := t.workspaces[workspace].usage)]
  }

  // ----- Content -----

  ghost predicate HasChunk(rows: map<ChunkKey, Id>, slots: map<Id, LocalChunk>, k: ChunkKey, c: Chunk) {
    k in rows && rows[k] in slots && slots[rows[k]].chunk == c
  }

  /** Every chunk of the package is found, bytes and all, under its manifest's local id. */
  ghost predicate ChunksFound(chunks: map<ChunkKey, Chunk>, m: Maps, rows: map<ChunkKey, Id>,
                              slots: map<Id, LocalChunk>)
  {
    forall k :: k in chunks ==>
      k.manifest in m.manifests && HasChunk(rows, slots, ChunkKey(m.manifests[k.manifest], k.chunkNo), chunks[k])
  }

  /** The old rows stay and the new ones are rows of the package. */
  ghost predicate ChunkRowsAdded(chunks: set<ChunkKey>, m: Maps, rows0: map<ChunkKey, Id>, rows: map<ChunkKey, Id>) {
    && (forall k :: k in rows0 ==> k in rows && rows[k] == rows0[k])
    && (forall k :: k in rows ==> k in rows0 || IsChunkRow(chunks, m, k))
  }

  ghost predicate IsChunkRow(chunks: set<ChunkKey>, m: Maps, k: ChunkKey) {
    exists j :: j in chunks && j.manifest in m.manifests && ChunkKey(m.manifests[j.manifest], j.chunkNo) == k
  }

  /** Where the rows put the chunks of the package. */
  ghost function Placement(chunks: map<ChunkKey, Chunk>, m: Maps, rows: map<ChunkKey, Id>): map<ChunkKey, Id> {
    map k | k in chunks && k.manifest in m.manifests && ChunkKey(m.manifests[k.manifest], k.chunkNo) in rows ::
      rows[ChunkKey(m.manifests[k.manifest], k.chunkNo)]
  }

  /** `inode` is the least inode with a version that owns the manifest. */
  ghost predicate IsLeastOwner(versions: map<VersionKey, Version>, manifest: Id, inode: Id) {
    && (exists v :: Owns(versions, v, manifest) && v.inode == inode)
    && (forall v :: Owns(versions, v, manifest) ==> inode.n <= v.inode.n)
  }

  /** A new slot of this workspace, held for the local inode of the manifest's owner. */
  ghost predicate IsAssigned(p: Package, workspace: Id, inodes: map<Id, Id>, slots0: map<Id, LocalChunk>,
                             slots: map<Id, LocalChunk>, k: ChunkKey, id: Id)
  {
    && id !in slots0 && id in slots && slots[id].workspace == workspace
    && exists owner ::
         IsLeastOwner(p.versions, k.manifest, owner) && owner in inodes && slots[id].inode == inodes[owner]
  }

  /** Chunks have new slots; no two new slots are alike in inode, size and checksum, and none is left over. */
  ghost predicate SlotsAssigned(p: Package, workspace: Id, inodes: map<Id, Id>, slots0: map<Id, LocalChunk>,
                                slots: map<Id, LocalChunk>, placed: map<ChunkKey, Id>)
  {
    && (forall k :: k in placed ==> IsAssigned(p, workspace, inodes, slots0, slots, k, placed[k]))
    && (forall a, b :: a in slots && a !in slots0 && b in slots && b !in slots0 && AlikeSlots(slots[a], slots[b]) ==>
          a == b)
    && (forall id :: id in slots && id !in slots0 ==> exists k :: k in placed && placed[k] == id)
  }

  ghost predicate AlikeSlots(a: LocalChunk, b: LocalChunk) {
    a.inode == b.inode && a.chunk.size == b.chunk.size && a.chunk.checksum == b.chunk.checksum
  }

  ghost predicate ContentCopied(p: Package, workspace: Id, t0: Tables, t: Tables, m: Maps) {
    && ChunksFound(p.chunks, m, t.manifestChunks, t.chunks)
    && ChunkRowsAdded(p.chunks.Keys, m, t0.manifestChunks, t.manifestChunks)
    && (forall id :: id in t0.chunks ==> id in t.chunks && t.chunks[id] == t0.chunks[id])
    && SlotsAssigned(p, workspace, m.inodes, t0.chunks, t.chunks, Placement(p.chunks, m, t.manifestChunks))
  }

  /** New manifests are not the manifests of old chunk rows. */
  ghost predicate FreshManifests(m: Maps, rows0: map<ChunkKey, Id>) {
    forall k, j :: k in rows0 && j in m.manifests ==> m.manifests[j] != k.manifest
  }

  lemma ManifestChunksJoined(m: Maps, placed: map<ChunkKey, Id>, k: ChunkKey)
    requires Injective(m.manifests) && k in placed && k.manifest in m.manifests
    ensures RenameChunkKey(m, k) in JoinManifestChunks(m, placed)
    ensures JoinManifestChunks(m, placed)[RenameChunkKey(m, k)] == placed[k]
  {
  }

  lemma ChunkRowsMerged(m: Maps, placed: map<ChunkKey, Id>, rows0: map<ChunkKey, Id>, rows: map<ChunkKey, Id>)
    requires Injective(m.manifests) && FreshManifests(m, rows0) && rows == rows0 + JoinManifestChunks(m, placed)
    ensures ChunkRowsAdded(placed.Keys, m, rows0, rows)
    ensures RowsPointAt(m, placed, rows)
  {
    forall k | k in placed && k.manifest in m.manifests
      ensures ChunkKey(m.manifests[k.manifest], k.chunkNo) in rows
      ensures rows[ChunkKey(m.manifests[k.manifest], k.chunkNo)] == placed[k]
    {
      ManifestChunksJoined(m, placed, k);
    }
  }

  ghost predicate RowsPointAt(m: Maps, placed: map<ChunkKey, Id>, rows: map<ChunkKey, Id>) {
    forall k :: k in placed && k.manifest in m.manifests ==>
      && ChunkKey(m.manifests[k.manifest], k.chunkNo) in rows
      && rows[ChunkKey(m.manifests[k.manifest], k.chunkNo)] == placed[k]
  }

  lemma PlacementIs(p: Package, m: Maps, placed: map<ChunkKey, Id>, rows: map<ChunkKey, Id>)
    requires ChunksOk(p) && m.manifests.Keys == p.manifests.Keys && placed.Keys == p.chunks.Keys
    requires RowsPointAt(m, placed, rows)
    ensures Placement(p.chunks, m, rows) == placed
  {
  }

  /** Every chunk row survives the two joins of the chunk query: its manifest is owned by a version,
      and the owner is an inode of the package. */
  lemma ChunkJoinIsTotal(p: Package, owner: map<Id, Id>, inodes: map<Id, Id>, k: ChunkKey)
    requires ManifestsOk(p) && ChunksOk(p) && VersionsOk(p)
    requires IsOwnerMap(p.versions, owner) && inodes.Keys == p.inodes.Keys && k in p.chunks
    ensures Joined(owner, inodes, k)
  {
    assert HasOwner(p, k.manifest);
    var v :| v in p.versions && p.versions[v].manifest == Some(k.manifest) && p.versions[v].sourceVersion.None?;
    assert Owns(p.versions, v, k.manifest);
    var o :| Owns(p.versions, o, k.manifest) && o.inode == owner[k.manifest];
    assert VersionOk(p, o);
  }

  lemma AllChunksJoined(p: Package, owner: map<Id, Id>, inodes: map<Id, Id>, placed: map<ChunkKey, Id>)
    requires ManifestsOk(p) && ChunksOk(p) && VersionsOk(p)
    requires IsOwnerMap(p.versions, owner) && inodes.Keys == p.inodes.Keys
    requires forall k :: k in placed <==> k in p.chunks && k.manifest in owner && owner[k.manifest] in inodes
    ensures placed.Keys == p.chunks.Keys
    ensures forall k :: k in p.chunks ==> p.chunks[k].size >= 0
  {
    forall k | k in p.chunks ensures k in placed {
      ChunkJoinIsTotal(p, owner, inodes, k);
    }
  }

  /** Every chunk of the package gets a slot of its own size and checksum. */
  method PlaceAllChunks(p: Package, inodes: map<Id, Id>, workspace: Id, table0: map<Id, LocalChunk>)
    returns (slots: map<Id, LocalChunk>, placed: map<ChunkKey, Id>)
    requires ManifestsOk(p) && ChunksOk(p) && VersionsOk(p) && inodes.Keys == p.inodes.Keys
    ensures placed.Keys == p.chunks.Keys && SlotsFit(p.chunks, placed, slots)
    ensures forall id :: id in table0 ==> id in slots && slots[id] == table0[id]
    ensures SlotsAssigned(p, workspace, inodes, table0, slots, placed)
  {
    var owner := OwnerMap(p.versions);
    ghost var reuse;
    slots, placed, reuse := PlaceChunks(p.chunks, owner, inodes, workspace, table0);
    AllChunksJoined(p, owner, inodes, placed);
    AllChunksPlaced(p, owner, inodes, workspace, table0, slots, placed, reuse);
  }

  lemma AllChunksPlaced(p: Package, owner: map<Id, Id>, inodes: map<Id, Id>, workspace: Id,
                        table0: map<Id, LocalChunk>, slots: map<Id, LocalChunk>, placed: map<ChunkKey, Id>,
                        reuse: map<ReuseKey, Id>)
    requires IsOwnerMap(p.versions, owner) && forall k :: k in p.chunks ==> p.chunks[k].size >= 0
    requires ChunksPlaced(p.chunks, owner, inodes, workspace, table0, slots, placed, reuse)
    ensures SlotsFit(p.chunks, placed, slots)
    ensures forall id :: id in table0 ==> id in slots && slots[id] == table0[id]
    ensures SlotsAssigned(p, workspace, inodes, table0, slots, placed)
  {
    PlacedSlotsFit(p.chunks, owner, inodes, workspace, table0, slots, placed, reuse);
    PlacedSlotsAssigned(p, owner, inodes, workspace, table0, slots, placed, reuse);
  }

  lemma PlacedSlotsFit(chunks: map<ChunkKey, Chunk>, owner: map<Id, Id>, inodes: map<Id, Id>, workspace: Id,
                       table0: map<Id, LocalChunk>, slots: map<Id, LocalChunk>, placed: map<ChunkKey, Id>,
                       reuse: map<ReuseKey, Id>)
    requires ChunksPlaced(chunks, owner, inodes, workspace, table0, slots, placed, reuse)
    requires forall k :: k in chunks ==> chunks[k].size >= 0
    ensures SlotsFit(chunks, placed, slots)
  {
    forall k | k in placed
      ensures k in chunks && placed[k] in slots && slots[placed[k]].chunk.size == chunks[k].size
      ensures slots[placed[k]].chunk.checksum == chunks[k].checksum
      ensures |slots[placed[k]].chunk.content| == chunks[k].size
    {
      assert IsPlaced(chunks, owner, inodes, reuse, k, placed[k]);
      var r := ReuseKey(inodes[owner[k.manifest]], chunks[k].size, chunks[k].checksum);
      assert IsBlank(slots[reuse[r]], workspace, r);
    }
  }

  lemma ChunkIsAssigned(p: Package, owner: map<Id, Id>, inodes: map<Id, Id>, workspace: Id,
                        table0: map<Id, LocalChunk>, slots: map<Id, LocalChunk>, placed: map<ChunkKey, Id>,
                        reuse: map<ReuseKey, Id>, k: ChunkKey)
    requires ChunksPlaced(p.chunks, owner, inodes, workspace, table0, slots, placed, reuse) && k in placed
    requires IsOwnerMap(p.versions, owner)
    ensures IsAssigned(p, workspace, inodes, table0, slots, k, placed[k])
  {
    assert IsPlaced(p.chunks, owner, inodes, reuse, k, placed[k]);
    var r := ReuseKey(inodes[owner[k.manifest]], p.chunks[k].size, p.chunks[k].checksum);
    assert IsBlank(slots[reuse[r]], workspace, r);
    assert IsLeastOwner(p.versions, k.manifest, owner[k.manifest]);
  }

  lemma PlacedSlotsAssigned(p: Package, owner: map<Id, Id>, inodes: map<Id, Id>, workspace: Id,
                            table0: map<Id, LocalChunk>, slots: map<Id, LocalChunk>, placed: map<ChunkKey, Id>,
                            reuse: map<ReuseKey, Id>)
    requires ChunksPlaced(p.chunks, owner, inodes, workspace, table0, slots, placed, reuse)
    requires IsOwnerMap(p.versions, owner)
    ensures SlotsAssigned(p, workspace, inodes, table0, slots, placed)
  {
    forall k | k in placed ensures IsAssigned(p, workspace, inodes, table0, slots, k, placed[k]) {
      ChunkIsAssigned(p, owner, inodes, workspace, table0, slots, placed, reuse, k);
    }
    forall a, b | a in slots && a !in table0 && b in slots && b !in table0 && AlikeSlots(slots[a], slots[b])
      ensures a == b
    {
      var r, r' :| r in reuse && reuse[r] == a && r' in reuse && reuse[r'] == b;
      assert IsBlank(slots[a], workspace, r) && IsBlank(slots[b], workspace, r');
    }
  }

  /** Writing the bytes leaves the slots where they are. */
  lemma FilledSlotsAssigned(p: Package, workspace: Id, inodes: map<Id, Id>, table0: map<Id, LocalChunk>,
                            slots: map<Id, LocalChunk>, placed: map<ChunkKey, Id>, filled: map<Id, LocalChunk>)
    requires SlotsAssigned(p, workspace, inodes, table0, slots, placed) && Filled(p.chunks, placed, slots, filled, {})
    ensures SlotsAssigned(p, workspace, inodes, table0, filled, placed)
  {
    forall k | k in placed ensures IsAssigned(p, workspace, inodes, table0, filled, k, placed[k]) {
      assert IsAssigned(p, workspace, inodes, table0, slots, k, placed[k]);
      assert SameSlot(filled[placed[k]], slots[placed[k]]);
    }
    forall a, b | a in filled && a !in table0 && b in filled && b !in table0 && AlikeSlots(filled[a], filled[b])
      ensures a == b
    {
      assert SameSlot(filled[a], slots[a]) && SameSlot(filled[b], slots[b]);
      assert AlikeSlots(slots[a], slots[b]);
    }
  }

  method ImportChunks(p: Package, sha: Sha, workspace: Id, t0: Tables, m: Maps) returns (t: Tables)
    requires ManifestsOk(p) && ChunksOk(p) && VersionsOk(p) && ContentOk(p, sha) && CollisionFree(sha, p.chunks)
    requires m.inodes.Keys == p.inodes.Keys && m.manifests.Keys == p.manifests.Keys && Injective(m.manifests)
    requires FreshManifests(m, t0.manifestChunks)
    ensures ContentCopied(p, workspace, t0, t, m)
    ensures t == t0.(chunks := t.chunks, manifestChunks := t.manifestChunks)
  {
    var slots, placed := PlaceAllChunks(p, m.inodes, workspace, t0.chunks);
    AllChunksMatch(p, sha);
    var filled := CopyImportedChunks(sha, p.chunks, placed, slots);
    var rows := t0.manifestChunks + JoinManifestChunks(m, placed);
    ChunkRowsMerged(m, placed, t0.manifestChunks, rows);
    ContentIsFound(p, m, slots, placed, filled, rows);
    OldSlotsKept(p, workspace, m.inodes, t0.chunks, slots, placed, filled);
    FilledSlotsAssigned(p, workspace, m.inodes, t0.chunks, slots, placed, filled);
    PlacementIs(p, m, placed, rows);
    t := t0.(chunks := filled, manifestChunks := rows);
  }

  lemma AllChunksMatch(p: Package, sha: Sha)
    requires ContentOk(p, sha)
    ensures forall k :: k in p.chunks ==>
              |p.chunks[k].content| == p.chunks[k].size && sha(p.chunks[k].content) == p.chunks[k].checksum
  {
    forall k | k in p.chunks
      ensures |p.chunks[k].content| == p.chunks[k].size && sha(p.chunks[k].content) == p.chunks[k].checksum
    {
      ChunkMatches(p, sha, k);
    }
  }

  lemma ContentIsFound(p: Package, m: Maps, slots: map<Id, LocalChunk>, placed: map<ChunkKey, Id>,
                       filled: map<Id, LocalChunk>, rows: map<ChunkKey, Id>)
    requires ChunksOk(p) && m.manifests.Keys == p.manifests.Keys
    requires placed.Keys == p.chunks.Keys && SlotsFit(p.chunks, placed, slots)
    requires Filled(p.chunks, placed, slots, filled, {})
    requires RowsPointAt(m, placed, rows)
    ensures ChunksFound(p.chunks, m, rows, filled)
  {
    forall k | k in p.chunks
      ensures k.manifest in m.manifests
      ensures HasChunk(rows, filled, ChunkKey(m.manifests[k.manifest], k.chunkNo), p.chunks[k])
    {
      assert SameSlot(filled[placed[k]], slots[placed[k]]);
    }
  }

  lemma OldSlotsKept(p: Package, workspace: Id, inodes: map<Id, Id>, table0: map<Id, LocalChunk>,
                     slots: map<Id, LocalChunk>, placed: map<ChunkKey, Id>, filled: map<Id, LocalChunk>)
    requires forall id :: id in table0 ==> id in slots && slots[id] == table0[id]
    requires SlotsAssigned(p, workspace, inodes, table0, slots, placed) && Filled(p.chunks, placed, slots, filled, {})
    ensures forall id :: id in table0 ==> id in filled && filled[id] == table0[id]
  {
    forall id | id in table0 ensures id in filled && filled[id] == table0[id] {
      assert forall k :: k in placed ==> IsAssigned(p, workspace, inodes, table0, slots, k, placed[k]);
    }
  }

  // ----- The joined tables -----

  function InodeStateMatch(m: Maps): InodeState -> bool { r => MatchesInodeState(m, r) }

  function InodeStateImage(m: Maps): InodeState --> InodeState {
    r requires MatchesInodeState(m, r) => RenameInodeState(m, r)
  }

  function DentryMatch(m: Maps): Dentry -> bool { r => MatchesDentry(m, r) }

  function DentryImage(m: Maps): Dentry --> Dentry { r requires MatchesDentry(m, r) => RenameDentry(m, r) }

  function DentryStateMatch(m: Maps): DentryState -> bool { r => MatchesDentryState(m, r) }

  function DentryStateImage(m: Maps): DentryState --> DentryState {
    r requires MatchesDentryState(m, r) => RenameDentryState(m, r)
  }

  function XattrStateMatch(m: Maps): XattrState -> bool { r => MatchesXattrState(m, r) }

  function XattrStateImage(m: Maps): XattrState --> XattrState {
    r requires MatchesXattrState(m, r) => RenameXattrState(m, r)
  }

  function AclEntryMatch(m: Maps): AclEntry -> bool { r => MatchesAclEntry(m, r) }

  function AclEntryImage(m: Maps): AclEntry --> AclEntry { r requires MatchesAclEntry(m, r) => RenameAclEntry(m, r) }

  function AclStateMatch(m: Maps): AclState -> bool { r => MatchesAclState(m, r) }

  function AclStateImage(m: Maps): AclState --> AclState { r requires MatchesAclState(m, r) => RenameAclState(m, r) }

  /** `out` adds to `before` exactly the renamed rows, in order and under the new workspace. */
  ghost predicate Appended<R(!new)>(before: seq<Owned<R>>, out: seq<Owned<R>>, workspace: Id, rows: seq<R>,
                                    matched: R -> bool, image: R --> R)
    requires forall r :: matched(r) ==> image.requires(r)
  {
    && |out| == |before| + |rows| && before <= out
    && forall i :: 0 <= i < |rows| ==> matched(rows[i]) && out[|before| + i] == Owned(workspace, image(rows[i]))
  }

  // Keys under renaming.

  predicate KeyMapped(m: Maps, k: RowKey) { k.inode in m.inodes && (k.commit.Some? ==> k.commit.value in m.commits) }

  function RenameKey(m: Maps, k: RowKey): RowKey
    requires KeyMapped(m, k)
  {
    k.(inode := m.inodes[k.inode], commit := RenameOption(m.commits, k.commit))
  }

  lemma RenameKeyInjective(m: Maps, k: RowKey, k': RowKey)
    requires Injective(m.inodes) && Injective(m.commits) && KeyMapped(m, k) && KeyMapped(m, k')
    ensures RenameKey(m, k) == RenameKey(m, k') <==> k == k'
  {
  }

  /** A renamed row has the renamed key, and passes the check if the row does. */
  ghost predicate KeyFollows<R>(m: Maps, key: R -> RowKey, check: R -> bool, r: R, r': R) {
    KeyMapped(m, key(r)) && key(r') == RenameKey(m, key(r)) && check(r') == check(r)
  }

  lemma FitsFollowed<R(!new), T(!new), L(!new)>(m: Maps, rows: seq<R>, key: R -> RowKey, check: R -> bool,
                                                renamed: seq<R>, images: seq<T>, key': T -> L, check': T -> bool)
    requires Injective(m.inodes) && Injective(m.commits) && |images| == |renamed| == |rows|
    requires forall i :: 0 <= i < |rows| ==> KeyFollows(m, key, check, rows[i], renamed[i])
    requires forall i :: 0 <= i < |rows| ==> check'(images[i]) == check(renamed[i])
    requires forall i, j :: 0 <= i < |rows| && 0 <= j < |rows| ==>
               (key'(images[i]) == key'(images[j]) <==> key(renamed[i]) == key(renamed[j]))
    ensures Fits(images, key', check') <==> Fits(rows, key, check)
  {
    forall i, j | 0 <= i < |rows| && 0 <= j < |rows|
      ensures key'(images[i]) == key'(images[j]) <==> key(rows[i]) == key(rows[j])
    {
      assert KeyFollows(m, key, check, rows[i], renamed[i]) && KeyFollows(m, key, check, rows[j], renamed[j]);
      RenameKeyInjective(m, key(rows[i]), key(rows[j]));
    }
    FitsRenamed(rows, key, check, images, key', check');
  }

  function OwnedKey<R>(key: R -> RowKey): Owned<R> -> (Id, RowKey) { (o: Owned<R>) => (o.workspace, key(o.row)) }

  function OwnedCheck<R>(check: R -> bool): Owned<R> -> bool { (o: Owned<R>) => check(o.row) }

  ghost predicate OthersOnly<R>(rows: seq<Owned<R>>, workspace: Id) {
    forall i :: 0 <= i < |rows| ==> rows[i].workspace != workspace
  }

  /** INSERT ... SELECT for one table, with the scalar subquery's workspace id on every row. The statement
      goes through if and only if the package's rows pass the check and have different keys. */
  method InsertJoined<R(!new)>(before: seq<Owned<R>>, workspace: Id, rows: seq<R>, matched: R -> bool, image: R --> R,
                               key: R -> RowKey, check: R -> bool, ghost m: Maps)
    returns (ok: bool, out: seq<Owned<R>>)
    requires forall r :: matched(r) ==> image.requires(r)
    requires forall i :: 0 <= i < |rows| ==> matched(rows[i]) && KeyFollows(m, key, check, rows[i], image(rows[i]))
    requires Injective(m.inodes) && Injective(m.commits) && OthersOnly(before, workspace)
    ensures ok <==> Fits(rows, key, check)
    ensures ok ==> Appended(before, out, workspace, rows, matched, image) && NewRows(before, out, workspace, |rows|)
  {
    var joined := Join(rows, matched, image);
    JoinIsTotal(rows, matched, image);
    var owned := seq(|joined|, i requires 0 <= i < |joined| => Owned(workspace, joined[i]));
    FitsFollowed(m, rows, key, check, joined, owned, OwnedKey(key), OwnedCheck(check));
    ok, out := InsertRows(before, owned, OwnedKey(key), OwnedCheck(check));
  }

  // ----- What the statements add -----

  /** `n` rows of the new workspace behind the old ones. */
  ghost predicate NewRows<R>(before: seq<Owned<R>>, out: seq<Owned<R>>, workspace: Id, n: nat) {
    && |out| == |before| + n && before <= out
    && forall i :: |before| <= i < |out| ==> out[i].workspace == workspace
  }

  ghost predicate InodeStatesAdded(rows: seq<InodeState>, m: Maps, workspace: Id,
                                   before: seq<Owned<InodeState>>, out: seq<Owned<InodeState>>)
  {
    && NewRows(before, out, workspace, |rows|)
    && forall i :: 0 <= i < |rows| ==> IsInodeStateCopy(m, rows[i], out[|before| + i].row)
  }

  ghost predicate DentriesAdded(rows: seq<Dentry>, m: Maps, workspace: Id,
                                before: seq<Owned<Dentry>>, out: seq<Owned<Dentry>>)
  {
    && NewRows(before, out, workspace, |rows|)
    && forall i :: 0 <= i < |rows| ==> IsDentryCopy(m, rows[i], out[|before| + i].row)
  }

  ghost predicate DentryStatesAdded(rows: seq<DentryState>, m: Maps, workspace: Id,
                                    before: seq<Owned<DentryState>>, out: seq<Owned<DentryState>>)
  {
    && NewRows(before, out, workspace, |rows|)
    && forall i :: 0 <= i < |rows| ==> IsDentryStateCopy(m, rows[i], out[|before| + i].row)
  }

  ghost predicate XattrStatesAdded(rows: seq<XattrState>, m: Maps, workspace: Id,
                                   before: seq<Owned<XattrState>>, out: seq<Owned<XattrState>>)
  {
    && NewRows(before, out, workspace, |rows|)
    && forall i :: 0 <= i < |rows| ==> IsXattrStateCopy(m, rows[i], out[|before| + i].row)
  }

  ghost predicate AclEntriesAdded(rows: seq<AclEntry>, m: Maps, workspace: Id,
                                  before: seq<Owned<AclEntry>>, out: seq<Owned<AclEntry>>)
  {
    && NewRows(before, out, workspace, |rows|)
    && forall i :: 0 <= i < |rows| ==> IsAclEntryCopy(m, rows[i], out[|before| + i].row)
  }

  ghost predicate AclStatesAdded(rows: seq<AclState>, m: Maps, workspace: Id,
                                 before: seq<Owned<AclState>>, out: seq<Owned<AclState>>)
  {
    && NewRows(before, out, workspace, |rows|)
    && forall i :: 0 <= i < |rows| ==> IsAclStateCopy(m, rows[i], out[|before| + i].row)
  }

  ghost predicate XattrsAdded(rows: seq<Xattr>, m: Maps, before: seq<Xattr>, out: seq<Xattr>) {
    && |out| == |before| + |rows| && before <= out
    && forall i :: 0 <= i < |rows| ==> IsXattrCopy(m, rows[i], out[|before| + i])
  }

  ghost predicate SnapshotsAdded(rows: map<string, Snapshot>, m: Maps, workspace: Id,
                                 before: map<SnapshotKey, Snapshot>, out: map<SnapshotKey, Snapshot>)
  {
    && (forall k :: k in before ==> k in out && out[k] == before[k])
    && (forall n :: n in rows ==>
          SnapshotKey(workspace, n) in out && IsSnapshotCopy(m, rows[n], out[SnapshotKey(workspace, n)]))
    && (forall k :: k in out ==> k in before || (k.workspace == workspace && k.name in rows))
  }

  ghost predicate VersionsAdded(versions: map<VersionKey, Version>, m: Maps,
                                table0: map<VersionKey, Version>, table: map<VersionKey, Version>)
  {
    && (forall k :: k in table0 ==> k in table && table[k] == table0[k])
    && (forall k :: k in versions ==> HasVersion(versions[k], m, table, k))
    && (forall k :: k in table ==> k in table0 || IsVersionRow(versions, m, k))
  }

  ghost predicate HasVersion(v: Version, m: Maps, table: map<VersionKey, Version>, k: VersionKey) {
    && k.inode in m.inodes && VersionKey(m.inodes[k.inode], k.versionNo) in table
    && IsVersionCopy(m, v, table[VersionKey(m.inodes[k.inode], k.versionNo)])
  }

  ghost predicate IsVersionRow(versions: map<VersionKey, Version>, m: Maps, k: VersionKey) {
    exists j :: j in versions && j.inode in m.inodes && VersionKey(m.inodes[j.inode], j.versionNo) == k
  }

  /** Every manifest of a version has a local id. */
  ghost predicate ManifestsMapped(versions: map<VersionKey, Version>, m: Maps) {
    forall k :: k in versions && versions[k].manifest.Some? ==> versions[k].manifest.value in m.manifests
  }

  lemma VersionsJoined(versions: map<VersionKey, Version>, m: Maps, table0: map<VersionKey, Version>)
    requires Injective(m.inodes) && forall k :: k in versions ==> MatchesVersion(m, k, versions[k])
    requires ManifestsMapped(versions, m)
    requires forall k, j :: k in table0 && j in m.inodes ==> m.inodes[j] != k.inode
    ensures VersionsAdded(versions, m, table0, table0 + JoinVersions(m, versions))
  {
    var table := table0 + JoinVersions(m, versions);
    forall k | k in versions ensures HasVersion(versions[k], m, table, k) {
      assert RenameVersionKey(m, k) in JoinVersions(m, versions);
    }
  }

  /** Every joined table grew by exactly the copies of the package's rows. */
  ghost predicate RowsRenamed(p: Package, workspace: Id, t0: Tables, t: Tables, m: Maps) {
    && InodeStatesAdded(p.inodeStates, m, workspace, t0.inodeStates, t.inodeStates)
    && DentriesAdded(p.dentries, m, workspace, t0.dentries, t.dentries)
    && DentryStatesAdded(p.dentryStates, m, workspace, t0.dentryStates, t.dentryStates)
    && XattrStatesAdded(p.xattrStates, m, workspace, t0.xattrStates, t.xattrStates)
    && AclEntriesAdded(p.aclEntries, m, workspace, t0.aclEntries, t.aclEntries)
    && AclStatesAdded(p.aclStates, m, workspace, t0.aclStates, t.aclStates)
    && VersionsAdded(p.versions, m, t0.versions, t.versions)
    && XattrsAdded(p.xattrs, m, t0.xattrs, t.xattrs)
    && SnapshotsAdded(p.snapshots, m, workspace, t0.snapshots, t.snapshots)
  }

  function XattrMatch(m: Maps): Xattr -> bool { r => MatchesXattr(m, r) }

  function XattrImage(m: Maps): Xattr --> Xattr { r requires MatchesXattr(m, r) => RenameXattr(m, r) }

  /** Attributes have no workspace column: their inode tells them apart from older ones. */
  method InsertXattrs(before: seq<Xattr>, rows: seq<Xattr>, m: Maps) returns (ok: bool, out: seq<Xattr>)
    requires Injective(m.inodes) && Injective(m.commits) && forall i :: 0 <= i < |rows| ==> MatchesXattr(m, rows[i])
    requires forall i, j :: 0 <= i < |before| && j in m.inodes ==> m.inodes[j] != before[i].inode
    ensures ok <==> XattrsFit(rows)
    ensures ok ==> XattrsAdded(rows, m, before, out)
  {
    var joined := Join(rows, XattrMatch(m), XattrImage(m));
    JoinIsTotal(rows, XattrMatch(m), XattrImage(m));
    forall i | 0 <= i < |rows| ensures KeyFollows(m, XattrKey, XattrCheck, rows[i], joined[i]) {
      assert joined[i] == XattrImage(m)(rows[i]) == RenameXattr(m, rows[i]);
    }
    FitsFollowed(m, rows, XattrKey, XattrCheck, joined, joined, XattrKey, XattrCheck);
    ok, out := InsertRows(before, joined, XattrKey, XattrCheck);
    XattrsInColumns(rows);
    if ok {
      forall i | 0 <= i < |rows| ensures IsXattrCopy(m, rows[i], out[|before| + i]) {
        assert out[|before| + i] == joined[i] == RenameXattr(m, rows[i]);
      }
    }
  }

  method InsertInodeStates(before: seq<Owned<InodeState>>, workspace: Id, rows: seq<InodeState>, m: Maps)
    returns (ok: bool, out: seq<Owned<InodeState>>)
    requires Injective(m.inodes) && Injective(m.commits) && OthersOnly(before, workspace)
    requires forall i :: 0 <= i < |rows| ==> MatchesInodeState(m, rows[i])
    ensures ok <==> InodeStatesFit(rows)
    ensures ok ==> InodeStatesAdded(rows, m, workspace, before, out)
  {
    InodeStatesInColumns(rows);
    ok, out := InsertJoined(before, workspace, rows, InodeStateMatch(m), InodeStateImage(m),
                            InodeStateKey, InodeStateCheck, m);
    if ok {
      forall i | 0 <= i < |rows| ensures IsInodeStateCopy(m, rows[i], out[|before| + i].row) {
        assert InodeStateMatch(m)(rows[i]) && out[|before| + i] == Owned(workspace, InodeStateImage(m)(rows[i]));
      }
    }
  }

  method InsertDentries(before: seq<Owned<Dentry>>, workspace: Id, rows: seq<Dentry>, m: Maps)
    returns (ok: bool, out: seq<Owned<Dentry>>)
    requires Injective(m.inodes) && Injective(m.commits) && OthersOnly(before, workspace)
    requires forall i :: 0 <= i < |rows| ==> MatchesDentry(m, rows[i])
    ensures ok <==> DentriesFit(rows)
    ensures ok ==> DentriesAdded(rows, m, workspace, before, out)
  {
    DentriesInColumns(rows);
    ok, out := InsertJoined(before, workspace, rows, DentryMatch(m), DentryImage(m), DentryKey, DentryCheck, m);
    if ok {
      forall i | 0 <= i < |rows| ensures IsDentryCopy(m, rows[i], out[|before| + i].row) {
        assert DentryMatch(m)(rows[i]) && out[|before| + i] == Owned(workspace, DentryImage(m)(rows[i]));
      }
    }
  }

  method InsertDentryStates(before: seq<Owned<DentryState>>, workspace: Id, rows: seq<DentryState>, m: Maps)
    returns (ok: bool, out: seq<Owned<DentryState>>)
    requires Injective(m.inodes) && Injective(m.commits) && OthersOnly(before, workspace)
    requires forall i :: 0 <= i < |rows| ==> MatchesDentryState(m, rows[i])
    ensures ok <==> DentryStatesFit(rows)
    ensures ok ==> DentryStatesAdded(rows, m, workspace, before, out)
  {
    DentryStatesInColumns(rows);
    ok, out := InsertJoined(before, workspace, rows, DentryStateMatch(m), DentryStateImage(m),
                            DentryStateKey, DentryStateCheck, m);
    if ok {
      forall i | 0 <= i < |rows| ensures IsDentryStateCopy(m, rows[i], out[|before| + i].row) {
        assert DentryStateMatch(m)(rows[i]) && out[|before| + i] == Owned(workspace, DentryStateImage(m)(rows[i]));
      }
    }
  }

  method InsertXattrStates(before: seq<Owned<XattrState>>, workspace: Id, rows: seq<XattrState>, m: Maps)
    returns (ok: bool, out: seq<Owned<XattrState>>)
    requires Injective(m.inodes) && Injective(m.commits) && OthersOnly(before, workspace)
    requires forall i :: 0 <= i < |rows| ==> MatchesXattrState(m, rows[i])
    ensures ok <==> XattrStatesFit(rows)
    ensures ok ==> XattrStatesAdded(rows, m, workspace, before, out)
  {
    XattrStatesInColumns(rows);
    ok, out := InsertJoined(before, workspace, rows, XattrStateMatch(m), XattrStateImage(m),
                            XattrStateKey, XattrStateCheck, m);
    if ok {
      forall i | 0 <= i < |rows| ensures IsXattrStateCopy(m, rows[i], out[|before| + i].row) {
        assert XattrStateMatch(m)(rows[i]) && out[|before| + i] == Owned(workspace, XattrStateImage(m)(rows[i]));
      }
    }
  }

  method InsertAclEntries(before: seq<Owned<AclEntry>>, workspace: Id, rows: seq<AclEntry>, m: Maps)
    returns (ok: bool, out: seq<Owned<AclEntry>>)
    requires Injective(m.inodes) && Injective(m.commits) && OthersOnly(before, workspace)
    requires forall i :: 0 <= i < |rows| ==> MatchesAclEntry(m, rows[i])
    ensures ok <==> AclEntriesFit(rows)
    ensures ok ==> AclEntriesAdded(rows, m, workspace, before, out)
  {
    AclEntriesInColumns(rows);
    ok, out := InsertJoined(before, workspace, rows, AclEntryMatch(m), AclEntryImage(m),
                            AclEntryKey, AclEntryCheck, m);
    if ok {
      forall i | 0 <= i < |rows| ensures IsAclEntryCopy(m, rows[i], out[|before| + i].row) {
        assert AclEntryMatch(m)(rows[i]) && out[|before| + i] == Owned(workspace, AclEntryImage(m)(rows[i]));
      }
    }
  }

  method InsertAclStates(before: seq<Owned<AclState>>, workspace: Id, rows: seq<AclState>, m: Maps)
    returns (ok: bool, out: seq<Owned<AclState>>)
    requires Injective(m.inodes) && Injective(m.commits) && OthersOnly(before, workspace)
    requires forall i :: 0 <= i < |rows| ==> MatchesAclState(m, rows[i])
    ensures ok <==> AclStatesFit(rows)
    ensures ok ==> AclStatesAdded(rows, m, workspace, before, out)
  {
    AclStatesInColumns(rows);
    ok, out := InsertJoined(before, workspace, rows, AclStateMatch(m), AclStateImage(m),
                            AclStateKey, AclStateCheck, m);
    if ok {
      forall i | 0 <= i < |rows| ensures IsAclStateCopy(m, rows[i], out[|before| + i].row) {
        assert AclStateMatch(m)(rows[i]) && out[|before| + i] == Owned(workspace, AclStateImage(m)(rows[i]));
      }
    }
  }

  function JoinSnapshots(m: Maps, workspace: Id, rows: map<string, Snapshot>): map<SnapshotKey, Snapshot> {
    map n | n in rows && MatchesSnapshot(m, rows[n]) :: SnapshotKey(workspace, n) := RenameSnapshot(m, rows[n])
  }

  lemma SnapshotsJoined(m: Maps, workspace: Id, rows: map<string, Snapshot>, before: map<SnapshotKey, Snapshot>)
    requires forall n :: n in rows ==> MatchesSnapshot(m, rows[n])
    requires forall k :: k in before ==> k.workspace != workspace
    ensures SnapshotsAdded(rows, m, workspace, before, before + JoinSnapshots(m, workspace, rows))
  {
  }

  /** The maps cover every table a join looks into. */
  ghost predicate Covers(p: Package, m: Maps) {
    m.commits.Keys == p.commits.Keys && m.inodes.Keys == p.inodes.Keys && m.manifests.Keys == p.manifests.Keys
  }

  /** For an accepted package every inner join is total. */
  lemma AllRowsMatch(p: Package, m: Maps)
    requires Covers(p, m) && DentriesOk(p) && StatesOk(p) && VersionsOk(p) && SnapshotsOk(p)
    ensures forall i :: 0 <= i < |p.inodeStates| ==> MatchesInodeState(m, p.inodeStates[i])
    ensures forall i :: 0 <= i < |p.dentries| ==> MatchesDentry(m, p.dentries[i])
    ensures forall i :: 0 <= i < |p.dentryStates| ==> MatchesDentryState(m, p.dentryStates[i])
    ensures forall i :: 0 <= i < |p.xattrStates| ==> MatchesXattrState(m, p.xattrStates[i])
    ensures forall i :: 0 <= i < |p.aclEntries| ==> MatchesAclEntry(m, p.aclEntries[i])
    ensures forall i :: 0 <= i < |p.aclStates| ==> MatchesAclState(m, p.aclStates[i])
    ensures forall i :: 0 <= i < |p.xattrs| ==> MatchesXattr(m, p.xattrs[i])
    ensures forall k :: k in p.versions ==> MatchesVersion(m, k, p.versions[k])
    ensures ManifestsMapped(p.versions, m)
    ensures forall n :: n in p.snapshots ==> MatchesSnapshot(m, p.snapshots[n])
  {
    forall i | 0 <= i < |p.dentries| ensures MatchesDentry(m, p.dentries[i]) {
      assert DentryOk(p, p.dentries[i]);
    }
    forall k | k in p.versions
      ensures MatchesVersion(m, k, p.versions[k])
      ensures p.versions[k].manifest.Some? ==> p.versions[k].manifest.value in m.manifests
    {
      assert VersionOk(p, k);
    }
  }

  /** The new workspace has no rows yet, and its inodes are not those of older rows. */
  ghost predicate RoomFor(t: Tables, workspace: Id, m: Maps) {
    && OthersOnly(t.inodeStates, workspace) && OthersOnly(t.dentries, workspace)
    && OthersOnly(t.dentryStates, workspace) && OthersOnly(t.xattrStates, workspace)
    && OthersOnly(t.aclEntries, workspace) && OthersOnly(t.aclStates, workspace)
    && (forall i, j :: 0 <= i < |t.xattrs| && j in m.inodes ==> m.inodes[j] != t.xattrs[i].inode)
    && (forall k, j :: k in t.versions && j in m.inodes ==> m.inodes[j] != k.inode)
    && (forall k :: k in t.snapshots ==> k.workspace != workspace)
  }

  /** The INSERT ... SELECT statements. They go through if and only if no row is refused. */
  method ImportRows(p: Package, workspace: Id, t0: Tables, m: Maps) returns (ok: bool, t: Tables)
    requires Covers(p, m) && DentriesOk(p) && StatesOk(p) && VersionsOk(p) && SnapshotsOk(p)
    requires Injective(m.inodes) && Injective(m.commits) && RoomFor(t0, workspace, m)
    ensures ok <==> RowsFit(p)
    ensures ok ==> RowsRenamed(p, workspace, t0, t, m)
    ensures ok ==> t.workspaces == t0.workspaces && t.commits == t0.commits && t.inodes == t0.inodes
    ensures ok ==> t.manifests == t0.manifests && t.chunks == t0.chunks && t.manifestChunks == t0.manifestChunks
  {
    AllRowsMatch(p, m);
    VersionsJoined(p.versions, m, t0.versions);
    var ok1, states := InsertInodeStates(t0.inodeStates, workspace, p.inodeStates, m);
    var ok2, dentries := InsertDentries(t0.dentries, workspace, p.dentries, m);
    var ok3, dentryStates := InsertDentryStates(t0.dentryStates, workspace, p.dentryStates, m);
    var ok4, xattrs := InsertXattrs(t0.xattrs, p.xattrs, m);
    var ok5, xattrStates := InsertXattrStates(t0.xattrStates, workspace, p.xattrStates, m);
    var ok6, aclEntries := InsertAclEntries(t0.aclEntries, workspace, p.aclEntries, m);
    var ok7, aclStates := InsertAclStates(t0.aclStates, workspace, p.aclStates, m);
    if !(ok1 && ok2 && ok3 && ok4 && ok5 && ok6 && ok7) {
      return false, t0;
    }
    SnapshotsJoined(m, workspace, p.snapshots, t0.snapshots);
    ok := true;
    t := t0.(inodeStates := states, dentries := dentries, dentryStates := dentryStates,
             xattrStates := xattrStates, aclEntries := aclEntries, aclStates := aclStates,
             xattrs := xattrs,
             versions := t0.versions + JoinVersions(m, p.versions),
             snapshots := t0.snapshots + JoinSnapshots(m, workspace, p.snapshots));
  }
}
