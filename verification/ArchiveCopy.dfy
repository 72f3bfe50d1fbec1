/** What an import (agent_files/cli/vexfs_archive.cpp) means to a reader of the new workspace: the same
    paths lead to the same files with the same bytes as in the package. */
module ArchiveCopy {
  import opened Basics
  import opened ArchivePackage
  import opened ArchiveChunks
  import opened ArchiveImport
  import opened ArchiveVerify
  import opened ArchiveWorkspace
  import opened ArchiveDatabase

  // ----- Paths -----

  /** Following `names` from the root of the package ends at `to`. */
  ghost predicate LeadsTo(p: Package, names: seq<string>, to: Id)
    decreases |names|
  {
    if names == [] then to == p.head.root
    else exists i: nat :: i < |p.dentries| && Enters(p, names, to, i)
  }

  ghost predicate Enters(p: Package, names: seq<string>, to: Id, i: nat)
    requires names != [] && i < |p.dentries|
    decreases |names|, 0
  {
    && p.dentries[i].name == names[|names| - 1] && p.dentries[i].inode == to
    && LeadsTo(p, names[..|names| - 1], p.dentries[i].parent)
  }

  /** The same in the database, through the entries of one workspace. */
  ghost predicate LeadsInto(t: Tables, workspace: Id, names: seq<string>, to: Id)
    decreases |names|
  {
    if names == [] then workspace in t.workspaces && t.workspaces[workspace].root == Some(to)
    else exists i: nat :: i < |t.dentries| && EntersRow(t, workspace, names, to, i)
  }

  ghost predicate EntersRow(t: Tables, workspace: Id, names: seq<string>, to: Id, i: nat)
    requires names != [] && i < |t.dentries|
    decreases |names|, 0
  {
    var e := t.dentries[i];
    && e.workspace == workspace && e.row.name == names[|names| - 1] && e.row.inode == to
    && LeadsInto(t, workspace, names[..|names| - 1], e.row.parent)
  }

  /** Old entries stay and belong to others; the entries behind them are copies of the package's. */
  ghost predicate EntriesCopied(p: Package, workspace: Id, d0: seq<Owned<Dentry>>, d: seq<Owned<Dentry>>, m: Maps) {
    && |d| == |d0| + |p.dentries|
    && (forall j :: 0 <= j < |d0| ==> d[j] == d0[j] && d0[j].workspace != workspace)
    && (forall j :: |d0| <= j < |d| ==> d[j].workspace == workspace && IsDentryCopy(m, p.dentries[j - |d0|], d[j].row))
  }

  lemma EntriesAppended(p: Package, workspace: Id, d0: seq<Owned<Dentry>>, d: seq<Owned<Dentry>>, m: Maps)
    requires DentriesAdded(p.dentries, m, workspace, d0, d) && OthersOnly(d0, workspace)
    ensures EntriesCopied(p, workspace, d0, d, m)
  {
    forall j | |d0| <= j < |d| ensures d[j].workspace == workspace && IsDentryCopy(m, p.dentries[j - |d0|], d[j].row) {
      var i := j - |d0|;
      assert IsDentryCopy(m, p.dentries[i], d[|d0| + i].row);
    }
  }

  /** What an import does to directory entries and workspace roots. */
  ghost predicate TreeCopied(p: Package, workspace: Id, t0: Tables, t: Tables, m: Maps) {
    && EntriesCopied(p, workspace, t0.dentries, t.dentries, m)
    && Injective(m.inodes) && p.head.root in m.inodes
    && workspace in t.workspaces && t.workspaces[workspace].root == Some(m.inodes[p.head.root])
    && (forall w :: w in t0.workspaces ==> w != workspace && w in t.workspaces && t.workspaces[w] == t0.workspaces[w])
  }

  lemma EntriesAreCopied(p: Package, workspace: Id, t0: Tables, t: Tables, m: Maps)
    requires AllOwnersKnown(t0) && workspace !in t0.workspaces && RowsRenamed(p, workspace, t0, t, m)
    ensures EntriesCopied(p, workspace, t0.dentries, t.dentries, m)
  {
    NoneOfNew(t0.dentries, t0.workspaces, workspace);
    EntriesAppended(p, workspace, t0.dentries, t.dentries, m);
  }

  lemma ImportCopiesTree(p: Package, name: string, workspace: Id, t0: Tables, t: Tables, m: Maps)
    requires Consistent(t0) && IsRenamedCopy(p, name, workspace, t0, t, m)
    ensures TreeCopied(p, workspace, t0, t, m)
  {
    EntriesAreCopied(p, workspace, t0, t, m);
  }

  lemma {:induction false} PathIsCopied(p: Package, workspace: Id, t0: Tables, t: Tables, m: Maps, names: seq<string>,
                                        to: Id)
    requires TreeCopied(p, workspace, t0, t, m) && LeadsTo(p, names, to)
    ensures to in m.inodes && LeadsInto(t, workspace, names, m.inodes[to])
    decreases |names|
  {
    if names != [] {
      var i: nat :| i < |p.dentries| && Enters(p, names, to, i);
      PathIsCopied(p, workspace, t0, t, m, names[..|names| - 1], p.dentries[i].parent);
      var j := |t0.dentries| + i;
      assert t.dentries[j].workspace == workspace;
      assert EntersRow(t, workspace, names, m.inodes[to], j);
    }
  }

  lemma {:induction false} PathIsOriginal(p: Package, workspace: Id, t0: Tables, t: Tables, m: Maps,
                                          names: seq<string>, local: Id) returns (to: Id)
    requires TreeCopied(p, workspace, t0, t, m) && LeadsInto(t, workspace, names, local)
    ensures to in m.inodes && m.inodes[to] == local && LeadsTo(p, names, to)
    decreases |names|
  {
    if names == [] {
      to := p.head.root;
    } else {
      var j: nat :| j < |t.dentries| && EntersRow(t, workspace, names, local, j);
      var i := j - |t0.dentries|;
      var parent := PathIsOriginal(p, workspace, t0, t, m, names[..|names| - 1], t.dentries[j].row.parent);
      to := p.dentries[i].inode;
      assert Enters(p, names, to, i);
    }
  }

  /** A path of names exists in the new workspace exactly when it exists in the package, and it leads
      to the renamed inode. */
  lemma SamePaths(p: Package, name: string, workspace: Id, t0: Tables, t: Tables, m: Maps, names: seq<string>,
                  local: Id)
    requires Consistent(t0) && IsRenamedCopy(p, name, workspace, t0, t, m)
    ensures LeadsInto(t, workspace, names, local) <==>
              exists to :: LeadsTo(p, names, to) && to in m.inodes && m.inodes[to] == local
  {
    ImportCopiesTree(p, name, workspace, t0, t, m);
    if LeadsInto(t, workspace, names, local) {
      var to := PathIsOriginal(p, workspace, t0, t, m, names, local);
    }
    forall to | LeadsTo(p, names, to) && to in m.inodes && m.inodes[to] == local
      ensures LeadsInto(t, workspace, names, local)
    {
      PathIsCopied(p, workspace, t0, t, m, names, to);
    }
  }

  lemma {:induction false} OldPathStays(p: Package, workspace: Id, t0: Tables, t: Tables, m: Maps,
                                        other: Id, names: seq<string>, to: Id)
    requires TreeCopied(p, workspace, t0, t, m) && other in t0.workspaces && LeadsInto(t0, other, names, to)
    ensures LeadsInto(t, other, names, to)
    decreases |names|
  {
    if names != [] {
      var j: nat :| j < |t0.dentries| && EntersRow(t0, other, names, to, j);
      OldPathStays(p, workspace, t0, t, m, other, names[..|names| - 1], t0.dentries[j].row.parent);
      assert EntersRow(t, other, names, to, j);
    }
  }

  lemma {:induction false} OldPathWasThere(p: Package, workspace: Id, t0: Tables, t: Tables, m: Maps,
                                           other: Id, names: seq<string>, to: Id)
    requires TreeCopied(p, workspace, t0, t, m) && other in t0.workspaces && LeadsInto(t, other, names, to)
    ensures LeadsInto(t0, other, names, to)
    decreases |names|
  {
    if names != [] {
      var j: nat :| j < |t.dentries| && EntersRow(t, other, names, to, j);
      OldPathWasThere(p, workspace, t0, t, m, other, names[..|names| - 1], t.dentries[j].row.parent);
      assert EntersRow(t0, other, names, to, j);
    }
  }

  /** Paths of the older workspaces are untouched. */
  lemma OldPathsKept(p: Package, name: string, workspace: Id, t0: Tables, t: Tables, m: Maps,
                     other: Id, names: seq<string>, to: Id)
    requires Consistent(t0) && IsRenamedCopy(p, name, workspace, t0, t, m) && other in t0.workspaces
    ensures LeadsInto(t, other, names, to) <==> LeadsInto(t0, other, names, to)
  {
    ImportCopiesTree(p, name, workspace, t0, t, m);
    if LeadsInto(t0, other, names, to) {
      OldPathStays(p, workspace, t0, t, m, other, names, to);
    }
    if LeadsInto(t, other, names, to) {
      OldPathWasThere(p, workspace, t0, t, m, other, names, to);
    }
  }

  // ----- Bytes -----

  /** The first `n` chunks of a manifest, end to end. */
  ghost function PackageBytes(p: Package, manifest: Id, n: nat): Option<seq<Byte>> {
    if n == 0 then Some([])
    else
      var front, k := PackageBytes(p, manifest, n - 1), ChunkKey(manifest, n - 1);
      if front.Some? && k in p.chunks then Some(front.value + p.chunks[k].content) else None
  }

  ghost function LocalBytes(t: Tables, manifest: Id, n: nat): Option<seq<Byte>> {
    if n == 0 then Some([])
    else
      var front, k := LocalBytes(t, manifest, n - 1), ChunkKey(manifest, n - 1);
      if front.Some? && k in t.manifestChunks && t.manifestChunks[k] in t.chunks
      then Some(front.value + t.chunks[t.manifestChunks[k]].chunk.content) else None
  }

  /** An alias has the manifest of the version it repeats. */
  ghost function ManifestOf(versions: map<VersionKey, Version>, k: VersionKey): Option<Id> {
    if k !in versions then None
    else if versions[k].sourceVersion.None? then versions[k].manifest
    else
      var source := VersionKey(k.inode, versions[k].sourceVersion.value);
      if source in versions then versions[source].manifest else None
  }

  /** The bytes of a file version. */
  ghost function ReadPackage(p: Package, k: VersionKey): Option<seq<Byte>> {
    var manifest := ManifestOf(p.versions, k);
    if manifest.Some? && manifest.value in p.manifests && p.manifests[manifest.value].chunkCount >= 0
    then PackageBytes(p, manifest.value, p.manifests[manifest.value].chunkCount) else None
  }

  ghost function ReadLocal(t: Tables, k: VersionKey): Option<seq<Byte>> {
    var manifest := ManifestOf(t.versions, k);
    if manifest.Some? && manifest.value in t.manifests && t.manifests[manifest.value].row.chunkCount >= 0
    then LocalBytes(t, manifest.value, t.manifests[manifest.value].row.chunkCount) else None
  }

  lemma {:induction false} SameChunks(p: Package, sha: Sha, t: Tables, m: Maps, manifest: Id, n: nat)
    requires ChunksFound(p.chunks, m, t.manifestChunks, t.chunks) && manifest in m.manifests && manifest in p.manifests
    requires PiecesInTable(p, sha, manifest) && n <= p.manifests[manifest].chunkCount
    ensures PackageBytes(p, manifest, n).Some?
    ensures |PackageBytes(p, manifest, n).value| == Total(p.manifests[manifest].fileSize, n)
    ensures LocalBytes(t, m.manifests[manifest], n) == PackageBytes(p, manifest, n)
  {
    if n > 0 {
      SameChunks(p, sha, t, m, manifest, n - 1);
      var k := ChunkKey(manifest, n - 1);
      PieceTotals(p.manifests[manifest].fileSize, n - 1);
      assert IsPiece(p.manifests[manifest].fileSize, sha, n - 1, Row(n - 1, p.chunks[k]));
      assert HasChunk(t.manifestChunks, t.chunks, ChunkKey(m.manifests[k.manifest], k.chunkNo), p.chunks[k]);
    }
  }

  /** Renaming follows aliases. */
  lemma SameManifest(p: Package, t0: Tables, t: Tables, m: Maps, k: VersionKey)
    requires VersionsOk(p) && k in p.versions && m.manifests.Keys == p.manifests.Keys
    requires VersionsAdded(p.versions, m, t0.versions, t.versions)
    ensures ManifestOf(p.versions, k).Some? && ManifestOf(p.versions, k).value in p.manifests
    ensures p.manifests[ManifestOf(p.versions, k).value].fileSize == p.versions[k].size
    ensures k.inode in m.inodes
    ensures ManifestOf(t.versions, VersionKey(m.inodes[k.inode], k.versionNo)) ==
            Some(m.manifests[ManifestOf(p.versions, k).value])
  {
    assert VersionOk(p, k) && HasVersion(p.versions[k], m, t.versions, k);
    if p.versions[k].sourceVersion.Some? {
      var source := VersionKey(k.inode, p.versions[k].sourceVersion.value);
      assert VersionOk(p, source) && HasVersion(p.versions[source], m, t.versions, source);
    }
  }

  lemma SameBytesOf(p: Package, sha: Sha, workspace: Id, t0: Tables, t: Tables, m: Maps, k: VersionKey)
    requires VersionsOk(p) && ContentOk(p, sha) && k in p.versions && m.manifests.Keys == p.manifests.Keys
    requires VersionsAdded(p.versions, m, t0.versions, t.versions) && ContentCopied(p, workspace, t0, t, m)
    requires RowsCopied(p.manifests, workspace, t0.manifests, t.manifests, m.manifests)
    ensures k.inode in m.inodes && ReadPackage(p, k).Some? && |ReadPackage(p, k).value| == p.versions[k].size
    ensures ReadLocal(t, VersionKey(m.inodes[k.inode], k.versionNo)) == ReadPackage(p, k)
  {
    SameManifest(p, t0, t, m, k);
    var manifest := ManifestOf(p.versions, k).value;
    assert PiecesInTable(p, sha, manifest);
    SameChunks(p, sha, t, m, manifest, p.manifests[manifest].chunkCount);
    PieceTotals(p.manifests[manifest].fileSize, p.manifests[manifest].chunkCount);
    assert t.manifests[m.manifests[manifest]] == Owned(workspace, p.manifests[manifest]);
  }

  /** Every version of every file reads the same in the new workspace, and has the recorded size. */
  lemma SameBytes(p: Package, sha: Sha, name: string, workspace: Id, t0: Tables, t: Tables, m: Maps, k: VersionKey)
    requires Verified(p, sha) && k in p.versions && IsRenamedCopy(p, name, workspace, t0, t, m)
    ensures k.inode in m.inodes && ReadPackage(p, k).Some? && |ReadPackage(p, k).value| == p.versions[k].size
    ensures ReadLocal(t, VersionKey(m.inodes[k.inode], k.versionNo)) == ReadPackage(p, k)
  {
    SameBytesOf(p, sha, workspace, t0, t, m, k);
  }

  /** The chunk rows of a manifest that was there before stay as they were, present or missing. */
  lemma {:induction false} OldChunksKept(p: Package, t0: Tables, t: Tables, m: Maps, manifest: Id, n: nat)
    requires ChunkRowsAdded(p.chunks.Keys, m, t0.manifestChunks, t.manifestChunks)
    requires forall id :: id in t0.chunks ==> id in t.chunks && t.chunks[id] == t0.chunks[id]
    requires forall j :: j in m.manifests ==> m.manifests[j] != manifest
    requires forall k :: k in t0.manifestChunks ==> t0.manifestChunks[k] in t0.chunks
    ensures LocalBytes(t, manifest, n) == LocalBytes(t0, manifest, n)
  {
    if n > 0 {
      OldChunksKept(p, t0, t, m, manifest, n - 1);
      var k := ChunkKey(manifest, n - 1);
      assert k in t.manifestChunks <==> k in t0.manifestChunks;
    }
  }

  lemma OldManifestKept(p: Package, workspace: Id, t0: Tables, t: Tables, m: Maps, k: VersionKey)
    requires VersionsAdded(p.versions, m, t0.versions, t.versions) && k.inode in t0.inodes
    requires RowsCopied(p.inodes, workspace, t0.inodes, t.inodes, m.inodes)
    ensures ManifestOf(t.versions, k) == ManifestOf(t0.versions, k)
  {
    assert k in t.versions <==> k in t0.versions;
    if k in t0.versions && t0.versions[k].sourceVersion.Some? {
      var source := VersionKey(k.inode, t0.versions[k].sourceVersion.value);
      assert source in t.versions <==> source in t0.versions;
    }
  }

  /** Every version of an older inode reads as before; what could not be read still cannot. */
  lemma OldBytesKept(p: Package, name: string, workspace: Id, t0: Tables, t: Tables, m: Maps, k: VersionKey)
    requires Consistent(t0) && IsRenamedCopy(p, name, workspace, t0, t, m) && k.inode in t0.inodes
    ensures ReadLocal(t, k) == ReadLocal(t0, k)
  {
    OldManifestKept(p, workspace, t0, t, m, k);
    var manifest := ManifestOf(t0.versions, k);
    if manifest.Some? {
      OldManifestIsOld(t0, k);
      OldContentKept(p, workspace, t0, t, m, manifest.value);
    }
  }

  lemma OldManifestIsOld(t0: Tables, k: VersionKey)
    requires forall j :: j in t0.versions ==> ManifestKnown(t0.versions[j], t0.manifests)
    requires ManifestOf(t0.versions, k).Some?
    ensures ManifestOf(t0.versions, k).value in t0.manifests
  {
    if t0.versions[k].sourceVersion.None? {
      assert ManifestKnown(t0.versions[k], t0.manifests);
    } else {
      assert ManifestKnown(t0.versions[VersionKey(k.inode, t0.versions[k].sourceVersion.value)], t0.manifests);
    }
  }

  lemma OldContentKept(p: Package, workspace: Id, t0: Tables, t: Tables, m: Maps, manifest: Id)
    requires ContentCopied(p, workspace, t0, t, m) && manifest in t0.manifests
    requires RowsCopied(p.manifests, workspace, t0.manifests, t.manifests, m.manifests)
    requires forall k :: k in t0.manifestChunks ==> t0.manifestChunks[k] in t0.chunks
    ensures manifest in t.manifests && t.manifests[manifest] == t0.manifests[manifest]
    ensures forall n: nat :: LocalBytes(t, manifest, n) == LocalBytes(t0, manifest, n)
  {
    forall n: nat ensures LocalBytes(t, manifest, n) == LocalBytes(t0, manifest, n) {
      OldChunksKept(p, t0, t, m, manifest, n);
    }
  }
}
