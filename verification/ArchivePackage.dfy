/** A VexFS archive package (agent_files/cli/vexfs_archive.cpp): its tables, and the reference checks
    of the verifier.

    A table with a unique key is a map from that key; a table without one is a sequence of rows.
    Columns that are only copied are gathered in an uninterpreted `rest` column.
 */
module ArchivePackage {
  import opened Basics

  // Row ids; the 64-bit range of the original is not modelled, so a fresh id always exists.
  datatype Id = Id(n: int)

  type Columns = string

  const DIRECTORY := "directory"

  datatype Commit = Commit(parent: Option<Id>, rest: Columns)
  datatype Inode = Inode(kind: string, owner: string, size: int, currentVersion: int, deletedAt: Option<int>,
                         rest: Columns)
  datatype Dentry = Dentry(parent: Id, name: string, inode: Id)
  datatype VersionKey = VersionKey(inode: Id, versionNo: int)
  datatype Version = Version(commit: Id, manifest: Option<Id>, size: int, checksum: string,
                             sourceVersion: Option<int>, rest: Columns)
  datatype Manifest = Manifest(fileSize: int, chunkSize: int, chunkCount: int, checksum: string, rest: Columns)
  datatype ChunkKey = ChunkKey(manifest: Id, chunkNo: int)
  datatype Chunk = Chunk(content: seq<Byte>, size: int, checksum: string)
  datatype InodeState = InodeState(inode: Id, commit: Id, kind: string, currentVersion: int, deletedAt: Option<int>,
                                   rest: Columns)
  datatype DentryState = DentryState(parent: Id, name: string, commit: Id, inode: Id, deleted: int)
  datatype XattrState = XattrState(inode: Id, name: string, commit: Id, deleted: int, rest: Columns)
  datatype AclState = AclState(inode: Id, principal: string, effect: string, commit: Id, deleted: int, rest: Columns)
  datatype Snapshot = Snapshot(kind: string, commit: Id, rest: Columns)
  datatype Xattr = Xattr(inode: Id, name: string, rest: Columns)
  datatype AclEntry = AclEntry(inode: Id, principal: string, effect: string, inheritFlags: int, rest: Columns)

  /** Retention, snapshot and quota columns of the workspace. */
  datatype Settings = Settings(keepVersions: int, keepDays: int, agentKeep: int, safetyKeep: int, snapshotDays: int,
                               maxBytes: Option<int>, maxFiles: Option<int>, maxFileBytes: Option<int>)
  datatype Head = Head(root: Id, commit: Id, floor: Id, settings: Settings, rest: Columns)

  datatype Package = Package(
    head: Head,
    commits: map<Id, Commit>,
    inodes: map<Id, Inode>,
    dentries: seq<Dentry>,
    versions: map<VersionKey, Version>,
    manifests: map<Id, Manifest>,
    chunks: map<ChunkKey, Chunk>,
    inodeStates: seq<InodeState>,
    dentryStates: seq<DentryState>,
    xattrStates: seq<XattrState>,
    aclStates: seq<AclState>,
    snapshots: map<string, Snapshot>,
    xattrs: seq<Xattr>,
    aclEntries: seq<AclEntry>,
    principals: set<string>)

  predicate Live(p: Package, id: Id) {
    id in p.inodes && p.inodes[id].deletedAt.None?
  }

  predicate IsDirectory(p: Package, id: Id) {
    id in p.inodes && p.inodes[id].kind == DIRECTORY
  }

  // ----- One predicate per group of reference checks -----

  predicate HeadOk(p: Package) {
    && p.head.commit in p.commits && p.head.floor in p.commits
    && IsDirectory(p, p.head.root) && Live(p, p.head.root)
    && 0 <= p.head.settings.agentKeep <= 1000000 && 0 <= p.head.settings.safetyKeep <= 1000000
    && 0 <= p.head.settings.snapshotDays <= 36500
  }

  predicate CommitOk(p: Package, c: Id)
    requires c in p.commits
  {
    p.commits[c].parent.Some? ==> p.commits[c].parent.value in p.commits
  }

  predicate CommitsOk(p: Package) {
    forall c {:trigger CommitOk(p, c)} :: c in p.commits ==> CommitOk(p, c)
  }

  predicate DentryOk(p: Package, e: Dentry) {
    IsDirectory(p, e.parent) && Live(p, e.parent) && Live(p, e.inode)
  }

  predicate DentriesOk(p: Package) {
    forall i :: 0 <= i < |p.dentries| ==> DentryOk(p, p.dentries[i])
  }

  /** A version has its own manifest of the same size and checksum, or is an alias of one that has. */
  predicate VersionOk(p: Package, k: VersionKey)
    requires k in p.versions
  {
    var v := p.versions[k];
    && k.inode in p.inodes && v.commit in p.commits
    && (v.sourceVersion.None? ==>
          && v.manifest.Some? && v.manifest.value in p.manifests
          && p.manifests[v.manifest.value].fileSize == v.size
          && p.manifests[v.manifest.value].checksum == v.checksum)
    && (v.sourceVersion.Some? ==>
          && v.manifest.None?
          && VersionKey(k.inode, v.sourceVersion.value) in p.versions
          && var source := p.versions[VersionKey(k.inode, v.sourceVersion.value)];
             source.sourceVersion.None? && source.size == v.size && source.checksum == v.checksum)
  }

  predicate VersionsOk(p: Package) {
    forall k :: k in p.versions ==> VersionOk(p, k)
  }

  /** Some version owns the manifest. */
  predicate HasOwner(p: Package, m: Id) {
    exists k :: k in p.versions && p.versions[k].manifest == Some(m) && p.versions[k].sourceVersion.None?
  }

  predicate ManifestsOk(p: Package) {
    forall m :: m in p.manifests ==>
      var manifest := p.manifests[m];
      && manifest.chunkSize == 65536 && manifest.fileSize >= 0 && manifest.chunkCount >= 0
      && manifest.chunkCount == (manifest.fileSize + 65535) / 65536
      && HasOwner(p, m)
  }

  predicate ChunksOk(p: Package) {
    forall c :: c in p.chunks ==>
      c.manifest in p.manifests && c.chunkNo >= 0 && 0 < p.chunks[c].size <= 65536
  }

  predicate CurrentVersionOk(p: Package, inode: Id, kind: string, version: int) {
    kind != DIRECTORY && version > 0 ==> VersionKey(inode, version) in p.versions
  }

  predicate InodesOk(p: Package) {
    forall i :: i in p.inodes ==>
      && CurrentVersionOk(p, i, p.inodes[i].kind, p.inodes[i].currentVersion)
      && p.inodes[i].owner in p.principals
  }

  predicate SnapshotsOk(p: Package) {
    forall n :: n in p.snapshots ==>
      p.snapshots[n].commit in p.commits && p.snapshots[n].kind in {"manual", "agent", "safety"}
  }

  predicate StatesOk(p: Package) {
    && (forall i :: 0 <= i < |p.inodeStates| ==>
          var s := p.inodeStates[i];
          s.inode in p.inodes && s.commit in p.commits && CurrentVersionOk(p, s.inode, s.kind, s.currentVersion))
    && (forall i :: 0 <= i < |p.dentryStates| ==>
          var s := p.dentryStates[i];
          IsDirectory(p, s.parent) && s.inode in p.inodes && s.commit in p.commits)
    && (forall i :: 0 <= i < |p.xattrStates| ==>
          var s := p.xattrStates[i]; s.inode in p.inodes && s.commit in p.commits)
    && (forall i :: 0 <= i < |p.aclStates| ==>
          var s := p.aclStates[i]; s.inode in p.inodes && s.commit in p.commits && s.principal in p.principals)
    && (forall i :: 0 <= i < |p.xattrs| ==> Live(p, p.xattrs[i].inode))
    && (forall i :: 0 <= i < |p.aclEntries| ==> Live(p, p.aclEntries[i].inode))
  }

  predicate ReferencesOk(p: Package) {
    && HeadOk(p) && CommitsOk(p) && DentriesOk(p) && VersionsOk(p) && ManifestsOk(p) && ChunksOk(p)
    && InodesOk(p) && SnapshotsOk(p) && StatesOk(p)
  }
}
