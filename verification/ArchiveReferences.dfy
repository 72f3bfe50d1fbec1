/** What the reference checks of the archive verifier (agent_files/cli/vexfs_archive.cpp) come to: whatever any
    table of the package names is there, in the right state. */
module ArchiveReferences {
  import opened Basics
  import opened ArchivePackage

  // ----- What the tables name -----

  ghost function CommitsNamed(p: Package): set<Id> {
    {p.head.commit, p.head.floor}
    + (set c | c in p.commits && p.commits[c].parent.Some? :: p.commits[c].parent.value)
    + (set k | k in p.versions :: p.versions[k].commit)
    + (set n | n in p.snapshots :: p.snapshots[n].commit)
    + CommitsOfStates(p)
  }

  ghost function CommitsOfStates(p: Package): set<Id> {
    (set i | 0 <= i < |p.inodeStates| :: p.inodeStates[i].commit)
    + (set i | 0 <= i < |p.dentryStates| :: p.dentryStates[i].commit)
    + (set i | 0 <= i < |p.xattrStates| :: p.xattrStates[i].commit)
    + (set i | 0 <= i < |p.aclStates| :: p.aclStates[i].commit)
  }

  /** Inodes that history names; they may be deleted by now. */
  ghost function InodesNamed(p: Package): set<Id> {
    (set k | k in p.versions :: k.inode)
    + (set i | 0 <= i < |p.inodeStates| :: p.inodeStates[i].inode)
    + (set i | 0 <= i < |p.dentryStates| :: p.dentryStates[i].inode)
    + (set i | 0 <= i < |p.xattrStates| :: p.xattrStates[i].inode)
    + (set i | 0 <= i < |p.aclStates| :: p.aclStates[i].inode)
  }

  /** Inodes that the present tree names. */
  ghost function LiveNamed(p: Package): set<Id> {
    {p.head.root}
    + (set i | 0 <= i < |p.dentries| :: p.dentries[i].parent)
    + (set i | 0 <= i < |p.dentries| :: p.dentries[i].inode)
    + (set i | 0 <= i < |p.xattrs| :: p.xattrs[i].inode)
    + (set i | 0 <= i < |p.aclEntries| :: p.aclEntries[i].inode)
  }

  /** Whatever has entries. */
  ghost function ParentsNamed(p: Package): set<Id> {
    {p.head.root}
    + (set i | 0 <= i < |p.dentries| :: p.dentries[i].parent)
    + (set i | 0 <= i < |p.dentryStates| :: p.dentryStates[i].parent)
  }

  ghost function ManifestsNamed(p: Package): set<Id> {
    (set k | k in p.versions && p.versions[k].manifest.Some? :: p.versions[k].manifest.value)
    + (set k | k in p.chunks :: k.manifest)
  }

  ghost function PrincipalsNamed(p: Package): set<string> {
    (set i | i in p.inodes :: p.inodes[i].owner)
    + (set i | 0 <= i < |p.aclStates| :: p.aclStates[i].principal)
  }

  /** The current versions of files and links, now and in history; 0 stands for none yet. */
  ghost function VersionsNamed(p: Package): set<VersionKey> {
    (set i | i in p.inodes && p.inodes[i].kind != "directory" && p.inodes[i].currentVersion > 0 ::
       VersionKey(i, p.inodes[i].currentVersion))
    + (set i | 0 <= i < |p.inodeStates| && p.inodeStates[i].kind != "directory" &&
               p.inodeStates[i].currentVersion > 0 ::
         VersionKey(p.inodeStates[i].inode, p.inodeStates[i].currentVersion))
  }

  // ----- What must be there -----

  ghost predicate NothingDangles(p: Package) {
    && CommitsNamed(p) <= p.commits.Keys
    && InodesNamed(p) <= p.inodes.Keys
    && LiveNamed(p) <= (set i | i in p.inodes && p.inodes[i].deletedAt == None)
    && ParentsNamed(p) <= (set i | i in p.inodes && p.inodes[i].kind == "directory")
    && ManifestsNamed(p) <= p.manifests.Keys
    && PrincipalsNamed(p) <= p.principals
    && VersionsNamed(p) <= p.versions.Keys
  }

  /** The version whose manifest holds the bytes: the version itself, or the one it repeats. */
  ghost function Origin(p: Package, k: VersionKey): VersionKey
    requires k in p.versions
  {
    if p.versions[k].sourceVersion.Some? then VersionKey(k.inode, p.versions[k].sourceVersion.value) else k
  }

  /** Exactly the versions that repeat no other have a manifest, and every version has the size and the checksum of
      the manifest its bytes are in. */
  ghost predicate VersionHasContent(p: Package, k: VersionKey)
    requires k in p.versions
  {
    && (p.versions[k].manifest.Some? <==> p.versions[k].sourceVersion.None?)
    && Origin(p, k) in p.versions && p.versions[Origin(p, k)].manifest.Some?
    && var manifest := p.versions[Origin(p, k)].manifest.value;
       && manifest in p.manifests
       && p.manifests[manifest].fileSize == p.versions[k].size
       && p.manifests[manifest].checksum == p.versions[k].checksum
  }

  /** As many chunks of 65536 bytes as the file needs, and some version that is made of them. */
  ghost predicate ManifestIsUsed(p: Package, m: Id)
    requires m in p.manifests
  {
    var manifest := p.manifests[m];
    && manifest.chunkSize == 65536 && manifest.fileSize >= 0 && manifest.chunkCount >= 0
    && 65536 * (manifest.chunkCount - 1) < manifest.fileSize <= 65536 * manifest.chunkCount
    && exists k :: k in p.versions && p.versions[k].sourceVersion == None && p.versions[k].manifest == Some(m)
  }

  ghost predicate ContentIsDescribed(p: Package) {
    && (forall k :: k in p.versions ==> VersionHasContent(p, k))
    && (forall m :: m in p.manifests ==> ManifestIsUsed(p, m))
    && (forall k :: k in p.chunks ==> k.chunkNo >= 0 && 1 <= p.chunks[k].size <= 65536)
  }

  ghost predicate SettingsInRange(p: Package) {
    && 0 <= p.head.settings.agentKeep <= 1000000 && 0 <= p.head.settings.safetyKeep <= 1000000
    && 0 <= p.head.settings.snapshotDays <= 36500
    && forall n :: n in p.snapshots ==>
         p.snapshots[n].kind == "manual" || p.snapshots[n].kind == "agent" || p.snapshots[n].kind == "safety"
  }

  ghost predicate ReferencesClosed(p: Package) {
    NothingDangles(p) && ContentIsDescribed(p) && SettingsInRange(p)
  }

  // ----- The checks and their meaning -----

  lemma NothingDanglesIfOk(p: Package)
    requires ReferencesOk(p)
    ensures NothingDangles(p)
  {
    CommitsNamedAreThere(p);
    InodesNamedAreThere(p);
    ManifestsNamedAreThere(p);
    VersionsNamedAreThere(p);
  }

  lemma CommitsNamedAreThere(p: Package)
    requires HeadOk(p) && CommitsOk(p) && VersionsOk(p) && SnapshotsOk(p) && StatesOk(p)
    ensures CommitsNamed(p) <= p.commits.Keys
  {
    forall c | c in p.commits ensures CommitOk(p, c) {
    }
    forall k | k in p.versions ensures p.versions[k].commit in p.commits {
      assert VersionOk(p, k);
    }
  }

  lemma InodesNamedAreThere(p: Package)
    requires HeadOk(p) && DentriesOk(p) && VersionsOk(p) && StatesOk(p)
    ensures InodesNamed(p) <= p.inodes.Keys
    ensures LiveNamed(p) <= (set i | i in p.inodes && p.inodes[i].deletedAt == None)
    ensures ParentsNamed(p) <= (set i | i in p.inodes && p.inodes[i].kind == "directory")
  {
    forall i | 0 <= i < |p.dentries| ensures DentryOk(p, p.dentries[i]) {
    }
    forall k | k in p.versions ensures k.inode in p.inodes {
      assert VersionOk(p, k);
    }
  }

  lemma ManifestsNamedAreThere(p: Package)
    requires VersionsOk(p) && ChunksOk(p)
    ensures ManifestsNamed(p) <= p.manifests.Keys
  {
    forall k | k in p.versions && p.versions[k].manifest.Some? ensures p.versions[k].manifest.value in p.manifests {
      assert VersionOk(p, k);
    }
  }

  lemma VersionsNamedAreThere(p: Package)
    requires InodesOk(p) && StatesOk(p)
    ensures VersionsNamed(p) <= p.versions.Keys
  {
    forall i | i in p.inodes ensures CurrentVersionOk(p, i, p.inodes[i].kind, p.inodes[i].currentVersion) {
    }
  }

  lemma PieceCount(fileSize: int, count: int)
    ensures count == (fileSize + 65535) / 65536 <==> 65536 * (count - 1) < fileSize <= 65536 * count
  {
  }

  lemma OkVersionHasContent(p: Package, k: VersionKey)
    requires k in p.versions && VersionOk(p, k)
    requires p.versions[k].sourceVersion.Some? ==> Origin(p, k) in p.versions && VersionOk(p, Origin(p, k))
    ensures VersionHasContent(p, k)
  {
  }

  lemma OkManifestIsUsed(p: Package, m: Id)
    requires ManifestsOk(p) && m in p.manifests
    ensures ManifestIsUsed(p, m)
  {
    assert HasOwner(p, m);
    PieceCount(p.manifests[m].fileSize, p.manifests[m].chunkCount);
  }

  lemma ContentDescribedIfOk(p: Package)
    requires VersionsOk(p) && ManifestsOk(p) && ChunksOk(p)
    ensures ContentIsDescribed(p)
  {
    forall k | k in p.versions ensures VersionHasContent(p, k) {
      assert VersionOk(p, k);
      OkVersionHasContent(p, k);
    }
    forall m | m in p.manifests ensures ManifestIsUsed(p, m) {
      OkManifestIsUsed(p, m);
    }
  }

  lemma DescribedVersionIsOk(p: Package, k: VersionKey)
    requires k in p.versions && k.inode in p.inodes && p.versions[k].commit in p.commits && VersionHasContent(p, k)
    requires p.versions[k].sourceVersion.Some? ==> VersionHasContent(p, Origin(p, k))
    ensures VersionOk(p, k)
  {
  }

  lemma UsedManifestIsOk(p: Package, m: Id)
    requires m in p.manifests && ManifestIsUsed(p, m)
    ensures p.manifests[m].chunkCount == (p.manifests[m].fileSize + 65535) / 65536 && HasOwner(p, m)
  {
    PieceCount(p.manifests[m].fileSize, p.manifests[m].chunkCount);
  }

  lemma VersionsOkIfDescribed(p: Package)
    requires InodesNamed(p) <= p.inodes.Keys && CommitsNamed(p) <= p.commits.Keys
    requires forall k :: k in p.versions ==> VersionHasContent(p, k)
    ensures VersionsOk(p)
  {
    forall k | k in p.versions ensures VersionOk(p, k) {
      assert VersionHasContent(p, k);
      assert k.inode in InodesNamed(p) && p.versions[k].commit in CommitsNamed(p);
      DescribedVersionIsOk(p, k);
    }
  }

  lemma ChunksOkIfDescribed(p: Package)
    requires ManifestsNamed(p) <= p.manifests.Keys
    requires forall k :: k in p.chunks ==> k.chunkNo >= 0 && 1 <= p.chunks[k].size <= 65536
    ensures ChunksOk(p)
  {
    forall k | k in p.chunks ensures k.manifest in p.manifests {
      assert k.manifest in ManifestsNamed(p);
    }
  }

  lemma ManifestsOkIfUsed(p: Package)
    requires forall m :: m in p.manifests ==> ManifestIsUsed(p, m)
    ensures ManifestsOk(p)
  {
    forall m | m in p.manifests
      ensures p.manifests[m].chunkSize == 65536 && p.manifests[m].fileSize >= 0 && p.manifests[m].chunkCount >= 0
      ensures p.manifests[m].chunkCount == (p.manifests[m].fileSize + 65535) / 65536 && HasOwner(p, m)
    {
      assert ManifestIsUsed(p, m);
      UsedManifestIsOk(p, m);
    }
  }

  lemma TreeOkIfNothingDangles(p: Package)
    requires NothingDangles(p) && SettingsInRange(p)
    ensures HeadOk(p) && CommitsOk(p) && DentriesOk(p) && SnapshotsOk(p)
  {
    assert p.head.root in LiveNamed(p) && p.head.root in ParentsNamed(p);
    forall c | c in p.commits ensures CommitOk(p, c) {
      assert p.commits[c].parent.Some? ==> p.commits[c].parent.value in CommitsNamed(p);
    }
    forall i | 0 <= i < |p.dentries| ensures DentryOk(p, p.dentries[i]) {
      assert p.dentries[i].parent in LiveNamed(p) && p.dentries[i].inode in LiveNamed(p);
      assert p.dentries[i].parent in ParentsNamed(p);
    }
    forall n | n in p.snapshots ensures p.snapshots[n].commit in p.commits {
      assert p.snapshots[n].commit in CommitsNamed(p);
    }
  }

  lemma InodesOkIfNothingDangles(p: Package)
    requires NothingDangles(p)
    ensures InodesOk(p)
  {
    forall i | i in p.inodes
      ensures CurrentVersionOk(p, i, p.inodes[i].kind, p.inodes[i].currentVersion) && p.inodes[i].owner in p.principals
    {
      assert p.inodes[i].owner in PrincipalsNamed(p);
      assert p.inodes[i].kind != DIRECTORY && p.inodes[i].currentVersion > 0 ==>
             VersionKey(i, p.inodes[i].currentVersion) in VersionsNamed(p);
    }
  }

  lemma StatesOkIfNothingDangles(p: Package)
    requires NothingDangles(p)
    ensures StatesOk(p)
  {
    forall i | 0 <= i < |p.inodeStates|
      ensures p.inodeStates[i].inode in p.inodes && p.inodeStates[i].commit in p.commits
      ensures CurrentVersionOk(p, p.inodeStates[i].inode, p.inodeStates[i].kind, p.inodeStates[i].currentVersion)
    {
      var s := p.inodeStates[i];
      assert s.inode in InodesNamed(p) && s.commit in CommitsOfStates(p);
      assert s.kind != DIRECTORY && s.currentVersion > 0 ==> VersionKey(s.inode, s.currentVersion) in VersionsNamed(p);
    }
    forall i | 0 <= i < |p.dentryStates|
      ensures IsDirectory(p, p.dentryStates[i].parent)
      ensures p.dentryStates[i].inode in p.inodes && p.dentryStates[i].commit in p.commits
    {
      var s := p.dentryStates[i];
      assert s.parent in ParentsNamed(p) && s.inode in InodesNamed(p) && s.commit in CommitsOfStates(p);
    }
    AttributesOkIfNothingDangles(p);
  }

  lemma AttributesOkIfNothingDangles(p: Package)
    requires NothingDangles(p)
    ensures forall i :: 0 <= i < |p.xattrStates| ==>
              p.xattrStates[i].inode in p.inodes && p.xattrStates[i].commit in p.commits
    ensures forall i :: 0 <= i < |p.aclStates| ==>
              && p.aclStates[i].inode in p.inodes && p.aclStates[i].commit in p.commits
              && p.aclStates[i].principal in p.principals
    ensures forall i :: 0 <= i < |p.xattrs| ==> Live(p, p.xattrs[i].inode)
    ensures forall i :: 0 <= i < |p.aclEntries| ==> Live(p, p.aclEntries[i].inode)
  {
    forall i | 0 <= i < |p.xattrStates|
      ensures p.xattrStates[i].inode in p.inodes && p.xattrStates[i].commit in p.commits
    {
      assert p.xattrStates[i].inode in InodesNamed(p) && p.xattrStates[i].commit in CommitsOfStates(p);
    }
    forall i | 0 <= i < |p.aclStates|
      ensures p.aclStates[i].inode in p.inodes && p.aclStates[i].commit in p.commits
      ensures p.aclStates[i].principal in p.principals
    {
      assert p.aclStates[i].inode in InodesNamed(p) && p.aclStates[i].commit in CommitsOfStates(p);
      assert p.aclStates[i].principal in PrincipalsNamed(p);
    }
    forall i | 0 <= i < |p.xattrs| ensures Live(p, p.xattrs[i].inode) {
      assert p.xattrs[i].inode in LiveNamed(p);
    }
    forall i | 0 <= i < |p.aclEntries| ensures Live(p, p.aclEntries[i].inode) {
      assert p.aclEntries[i].inode in LiveNamed(p);
    }
  }

  /** The verifier's reference checks pass exactly when nothing that is named is missing. */
  lemma ReferencesOkIff(p: Package)
    ensures ReferencesOk(p) <==> ReferencesClosed(p)
  {
    if ReferencesOk(p) {
      NothingDanglesIfOk(p);
      ContentDescribedIfOk(p);
    }
    if ReferencesClosed(p) {
      VersionsOkIfDescribed(p);
      ManifestsOkIfUsed(p);
      ChunksOkIfDescribed(p);
      TreeOkIfNothingDangles(p);
      InodesOkIfNothingDangles(p);
      StatesOkIfNothingDangles(p);
    }
  }
}
