/** The whole import (agent_files/cli/vexfs_archive.cpp): from an accepted package to a new workspace
    that is the package with its ids renamed, or to an unchanged database. */
module ArchiveDatabase {
  import opened Basics
  import opened ArchivePackage
  import opened ArchiveChunks
  import opened ArchiveImport
  import opened ArchiveVerify
  import opened ArchiveSchema
  import opened ArchiveWorkspace

  datatype Failure = BadName | NotAccepted | WorkspaceExists | Constraint | CommitOrder | IntegrityCheck

  datatype Outcome = Imported(workspace: Id) | Failed(failure: Failure)

  /** The new workspace is the package with its ids renamed by `m`; everything older is untouched. */
  ghost predicate IsRenamedCopy(p: Package, name: string, workspace: Id, t0: Tables, t: Tables, m: Maps) {
    && IdsCopied(p, workspace, t0, t, m)
    && ContentCopied(p, workspace, t0, t, m)
    && RowsRenamed(p, workspace, t0, t, m)
    && workspace !in t0.workspaces
    && HeadIsMapped(p, m)
    && RowPublished(p, name, workspace, t0.workspaces, t.workspaces, m)
  }

  /** One row is added: head, floor, root and settings of the package, and counters that count its live files. */
  ghost predicate RowPublished(p: Package, name: string, workspace: Id,
                               w0: map<Id, Workspace>, w: map<Id, Workspace>, m: Maps)
    requires HeadIsMapped(p, m)
  {
    && w.Keys == w0.Keys + {workspace} && (forall i :: i in w0 && i != workspace ==> w[i] == w0[i])
    && w[workspace].name == name && w[workspace].phase == Active
    && w[workspace].root == Some(m.inodes[p.head.root])
    && w[workspace].head == Some(m.commits[p.head.commit])
    && w[workspace].floor == Some(m.commits[p.head.floor])
    && w[workspace].settings == p.head.settings && w[workspace].rest == p.head.rest
    && IsUsage(p.inodes, p.inodes.Keys, w[workspace].usage)
  }

  ghost predicate HeadIsMapped(p: Package, m: Maps) {
    p.head.root in m.inodes && p.head.commit in m.commits && p.head.floor in m.commits
  }

  /** The closing UPDATE of the workspace row. */
  function Published(row: Workspace, head: Head, m: Maps): Workspace
    requires head.root in m.inodes && head.commit in m.commits && head.floor in m.commits
  {
    row.(root := Some(m.inodes[head.root]), head := Some(m.commits[head.commit]),
         floor := Some(m.commits[head.floor]), phase := Active)
  }

  /** `SELECT id FROM _vexfs_workspaces WHERE state='importing'`: some importing workspace. */
  method ImportingWorkspace(workspaces: map<Id, Workspace>, ghost only: Id) returns (id: Id)
    requires only in workspaces && workspaces[only].phase == Importing
    requires forall w :: w in workspaces && w != only ==> workspaces[w].phase == Active
    ensures id == only
  {
    id :| id in workspaces && workspaces[id].phase == Importing;
  }

  predicate NameTaken(workspaces: map<Id, Workspace>, name: string) {
    exists w :: w in workspaces && workspaces[w].name == name
  }

  lemma FreshAgainstOldRows(p: Package, workspace: Id, t0: Tables, t: Tables, m: Maps)
    requires IdsCopied(p, workspace, t0, t, m)
    requires forall k :: k in t0.manifestChunks ==> k.manifest in t0.manifests
    requires forall k :: k in t0.versions ==> k.inode in t0.inodes
    requires forall i :: 0 <= i < |t0.xattrs| ==> t0.xattrs[i].inode in t0.inodes
    ensures FreshManifests(m, t0.manifestChunks)
    ensures forall k, j :: k in t0.versions && j in m.inodes ==> m.inodes[j] != k.inode
    ensures forall i, j :: 0 <= i < |t0.xattrs| && j in m.inodes ==> m.inodes[j] != t0.xattrs[i].inode
  {
  }

  /** The tables an import starts to fill: ids are assigned and one workspace is marked importing. */
  ghost predicate ReadyToFill(p: Package, workspace: Id, t: Tables, m: Maps) {
    && Covers(p, m) && Injective(m.inodes) && Injective(m.commits) && Injective(m.manifests)
    && FreshManifests(m, t.manifestChunks) && RoomFor(t, workspace, m)
    && workspace in t.workspaces && t.workspaces[workspace].phase == Importing
    && (forall w :: w in t.workspaces && w != workspace ==> t.workspaces[w].phase == Active)
  }

  method FillWorkspace(p: Package, sha: Sha, workspace: Id, t0: Tables, m: Maps) returns (ok: bool, t: Tables)
    requires ReferencesOk(p) && ContentOk(p, sha) && CollisionFree(sha, p.chunks) && ReadyToFill(p, workspace, t0, m)
    ensures ok <==> RowsFit(p)
    ensures ok ==> ContentCopied(p, workspace, t0, t, m) && RowsRenamed(p, workspace, t0, t, m)
    ensures ok ==> t.workspaces == t0.workspaces && t.commits == t0.commits
    ensures ok ==> t.inodes == t0.inodes && t.manifests == t0.manifests
  {
    OtherRowsPass(p, sha); // manifests, chunks, versions and snapshots are not refused
    var content := ImportChunks(p, sha, workspace, t0, m);
    var target := ImportingWorkspace(content.workspaces, workspace);
    ok, t := ImportRows(p, target, content, m);
  }

  function Begun(t: Tables, name: string, workspace: Id, head: Head): Tables {
    t.(workspaces := t.workspaces[workspace :=
         Workspace(name, Importing, None, None, None, head.settings, Usage(0, 0), head.rest)])
  }

  lemma NoneOfNew<R>(rows: seq<Owned<R>>, workspaces: map<Id, Workspace>, workspace: Id)
    requires OwnersKnown(rows, workspaces) && workspace !in workspaces
    ensures OthersOnly(rows, workspace)
  {
  }

  lemma RoomForNew(t: Tables, workspace: Id, m: Maps)
    requires AllOwnersKnown(t) && workspace !in t.workspaces
    requires forall k :: k in t.snapshots ==> k.workspace in t.workspaces
    requires forall i, j :: 0 <= i < |t.xattrs| && j in m.inodes ==> m.inodes[j] != t.xattrs[i].inode
    requires forall k, j :: k in t.versions && j in m.inodes ==> m.inodes[j] != k.inode
    ensures RoomFor(t, workspace, m)
  {
    NoneOfNew(t.inodeStates, t.workspaces, workspace);
    NoneOfNew(t.dentries, t.workspaces, workspace);
    NoneOfNew(t.dentryStates, t.workspaces, workspace);
    NoneOfNew(t.xattrStates, t.workspaces, workspace);
    NoneOfNew(t.aclEntries, t.workspaces, workspace);
    NoneOfNew(t.aclStates, t.workspaces, workspace);
  }

  lemma ReadyAfterIds(p: Package, name: string, workspace: Id, t0: Tables, t: Tables, m: Maps)
    requires Consistent(t0) && workspace !in t0.workspaces && IdsCopied(p, workspace, t0, t, m)
    requires IdsOnly(p, workspace, Begun(t0, name, workspace, p.head), t)
    ensures ReadyToFill(p, workspace, t, m)
  {
    FreshAgainstOldRows(p, workspace, t0, t, m);
    RoomForNew(t0, workspace, m);
    OneIsImporting(p, name, workspace, t0, t);
  }

  lemma OneIsImporting(p: Package, name: string, workspace: Id, t0: Tables, t: Tables)
    requires IdsOnly(p, workspace, Begun(t0, name, workspace, p.head), t)
    requires forall w :: w in t0.workspaces ==> t0.workspaces[w].phase == Active
    ensures workspace in t.workspaces && t.workspaces[workspace].phase == Importing
    ensures forall w :: w in t.workspaces && w != workspace ==> t.workspaces[w].phase == Active
  {
  }

  // Opening and publishing the workspace row touch no other table.

  lemma SameIds(p: Package, workspace: Id, a0: Tables, a: Tables, b0: Tables, b: Tables, m: Maps)
    requires IdsCopied(p, workspace, a0, a, m)
    requires a0.commits == b0.commits && a0.inodes == b0.inodes && a0.manifests == b0.manifests
    requires a.commits == b.commits && a.inodes == b.inodes && a.manifests == b.manifests
    ensures IdsCopied(p, workspace, b0, b, m)
  {
  }

  lemma SameContent(p: Package, workspace: Id, a0: Tables, a: Tables, b0: Tables, b: Tables, m: Maps)
    requires ContentCopied(p, workspace, a0, a, m)
    requires a0.chunks == b0.chunks && a0.manifestChunks == b0.manifestChunks
    requires a.chunks == b.chunks && a.manifestChunks == b.manifestChunks
    ensures ContentCopied(p, workspace, b0, b, m)
  {
  }

  lemma SameRows(p: Package, workspace: Id, a0: Tables, a: Tables, b0: Tables, b: Tables, m: Maps)
    requires RowsRenamed(p, workspace, a0, a, m)
    requires a0 == b0.(workspaces := a0.workspaces, commits := a0.commits, inodes := a0.inodes,
                       manifests := a0.manifests)
    requires a == b.(workspaces := a.workspaces)
    ensures RowsRenamed(p, workspace, b0, b, m)
  {
  }

  lemma RowReplaced(workspaces: map<Id, Workspace>, id: Id, first: Workspace, second: Workspace, third: Workspace)
    ensures workspaces[id := first][id := second][id := third] == workspaces[id := third]
  {
  }

  lemma RowIsPublished(p: Package, name: string, workspace: Id, w0: map<Id, Workspace>, row: Workspace, m: Maps)
    requires HeadIsMapped(p, m) && IsUsage(p.inodes, p.inodes.Keys, row.usage)
    requires row.name == name && row.phase == Active && row.settings == p.head.settings && row.rest == p.head.rest
    requires row.root == Some(m.inodes[p.head.root]) && row.head == Some(m.commits[p.head.commit])
    requires row.floor == Some(m.commits[p.head.floor])
    ensures RowPublished(p, name, workspace, w0, w0[workspace := row], m)
  {
    assert w0[workspace := row].Keys == w0.Keys + {workspace};
  }

  lemma PublishedAfterIds(p: Package, name: string, workspace: Id, t0: Tables, ids: Tables, w: map<Id, Workspace>,
                          m: Maps)
    requires IdsOnly(p, workspace, Begun(t0, name, workspace, p.head), ids) && HeadIsMapped(p, m)
    requires w == ids.workspaces[workspace := Published(ids.workspaces[workspace], p.head, m)]
    ensures RowPublished(p, name, workspace, t0.workspaces, w, m)
  {
    var first := Begun(t0, name, workspace, p.head).workspaces[workspace];
    var second := first.(usage := ids.workspaces[workspace].usage);
    var third := Published(second, p.head, m);
    RowReplaced(t0.workspaces, workspace, first, second, third);
    RowIsPublished(p, name, workspace, t0.workspaces, third, m);
  }

  lemma CopyIsComplete(p: Package, name: string, workspace: Id, t0: Tables, ids: Tables, filled: Tables, t: Tables,
                       m: Maps)
    requires IdsCopied(p, workspace, t0, ids, m) && IdsOnly(p, workspace, Begun(t0, name, workspace, p.head), ids)
    requires ContentCopied(p, workspace, ids, filled, m) && RowsRenamed(p, workspace, ids, filled, m)
    requires filled.workspaces == ids.workspaces && filled.commits == ids.commits
    requires filled.inodes == ids.inodes && filled.manifests == ids.manifests
    requires HeadIsMapped(p, m) && workspace !in t0.workspaces
    requires t == filled.(workspaces :=
               filled.workspaces[workspace := Published(filled.workspaces[workspace], p.head, m)])
    ensures IsRenamedCopy(p, name, workspace, t0, t, m)
  {
    SameIds(p, workspace, t0, ids, t0, t, m);
    SameContent(p, workspace, ids, filled, t0, t, m);
    SameRows(p, workspace, ids, filled, t0, t, m);
    PublishedAfterIds(p, name, workspace, t0, ids, t.workspaces, m);
  }

  /** Nothing in the package stands in the way of filling the tables. */
  ghost predicate Fillable(p: Package) {
    ParentsFirst(p.commits) && TargetFits(p)
  }

  ghost predicate OutOfOrder(p: Package) {
    SettingsFit(p.head.settings) && !ParentsFirst(p.commits)
  }

  /** Some INSERT is refused, before or after the loop over the commits. */
  ghost predicate Constrained(p: Package) {
    !SettingsFit(p.head.settings) || (ParentsFirst(p.commits) && !(InodesFit(p.inodes) && RowsFit(p)))
  }

  /** Everything between opening the workspace row and publishing it. */
  method ImportBody(name: string, p: Package, sha: Sha, workspace: Id, t0: Tables)
    returns (failure: Option<Failure>, t: Tables, m: Maps)
    requires Consistent(t0) && Verified(p, sha) && CollisionFree(sha, p.chunks) && workspace !in t0.workspaces
    ensures failure in {None, Some(Constraint), Some(CommitOrder)}
    ensures failure == Some(Constraint) <==> Constrained(p)
    ensures failure == Some(CommitOrder) <==> OutOfOrder(p)
    ensures failure == None <==> Fillable(p)
    ensures failure == None ==> IsRenamedCopy(p, name, workspace, t0, t, m)
  {
    t, m := t0, Maps(map[], map[], map[]);
    SettingsFitIff(p.head.settings);
    if !SettingsCheck(p.head.settings) {
      return Some(Constraint), t, m;
    }
    var ordered, ok, ids;
    ordered, ok, ids, m := ImportIds(p, workspace, Begun(t0, name, workspace, p.head));
    if !ordered {
      return Some(CommitOrder), t, m;
    }
    if !ok {
      return Some(Constraint), t, m;
    }
    ReadyAfterIds(p, name, workspace, t0, ids, m);
    var filled;
    ok, filled := FillWorkspace(p, sha, workspace, ids, m);
    if !ok {
      return Some(Constraint), t, m;
    }
    failure := None;
    t := filled.(workspaces :=
           filled.workspaces[workspace := Published(filled.workspaces[workspace], p.head, m)]);
    CopyIsComplete(p, name, workspace, t0, ids, filled, t, m);
  }

  // ----- The database stays consistent -----

  lemma ChunkRowsConsistent(p: Package, workspace: Id, t0: Tables, t: Tables, m: Maps)
    requires forall k :: k in t0.manifestChunks ==> k.manifest in t0.manifests && t0.manifestChunks[k] in t0.chunks
    requires ChunksFound(p.chunks, m, t.manifestChunks, t.chunks)
    requires ChunkRowsAdded(p.chunks.Keys, m, t0.manifestChunks, t.manifestChunks)
    requires forall id :: id in t0.chunks ==> id in t.chunks
    requires RowsCopied(p.manifests, workspace, t0.manifests, t.manifests, m.manifests)
    ensures forall k :: k in t.manifestChunks ==> k.manifest in t.manifests && t.manifestChunks[k] in t.chunks
  {
    forall k | k in t.manifestChunks && k !in t0.manifestChunks
      ensures k.manifest in t.manifests && t.manifestChunks[k] in t.chunks
    {
      var j :| j in p.chunks && j.manifest in m.manifests && ChunkKey(m.manifests[j.manifest], j.chunkNo) == k;
      assert HasChunk(t.manifestChunks, t.chunks, k, p.chunks[j]);
    }
  }

  lemma VersionsConsistent(p: Package, workspace: Id, t0: Tables, t: Tables, m: Maps)
    requires forall k :: k in t0.versions ==> k.inode in t0.inodes && ManifestKnown(t0.versions[k], t0.manifests)
    requires VersionsAdded(p.versions, m, t0.versions, t.versions)
    requires RowsCopied(p.inodes, workspace, t0.inodes, t.inodes, m.inodes)
    requires RowsCopied(p.manifests, workspace, t0.manifests, t.manifests, m.manifests)
    ensures forall k :: k in t.versions ==> k.inode in t.inodes && ManifestKnown(t.versions[k], t.manifests)
  {
    forall k | k in t.versions ensures k.inode in t.inodes && ManifestKnown(t.versions[k], t.manifests) {
      if k in t0.versions {
        assert ManifestKnown(t0.versions[k], t0.manifests);
      } else {
        var j :| j in p.versions && j.inode in m.inodes && VersionKey(m.inodes[j.inode], j.versionNo) == k;
        assert HasVersion(p.versions[j], m, t.versions, j);
      }
    }
  }

  lemma OwnersStayKnown<R>(before: seq<Owned<R>>, out: seq<Owned<R>>, workspace: Id, n: nat,
                           w0: map<Id, Workspace>, w: map<Id, Workspace>)
    requires NewRows(before, out, workspace, n) && OwnersKnown(before, w0) && w0.Keys <= w.Keys && workspace in w
    ensures OwnersKnown(out, w)
  {
    forall i | 0 <= i < |out| ensures out[i].workspace in w {
      assert i < |before| ==> out[i] == before[i];
    }
  }

  lemma AllOwnersStayKnown(p: Package, workspace: Id, t0: Tables, t: Tables, m: Maps)
    requires AllOwnersKnown(t0) && RowsRenamed(p, workspace, t0, t, m)
    requires t0.workspaces.Keys <= t.workspaces.Keys && workspace in t.workspaces
    ensures AllOwnersKnown(t)
  {
    var w0, w := t0.workspaces, t.workspaces;
    OwnersStayKnown(t0.inodeStates, t.inodeStates, workspace, |p.inodeStates|, w0, w);
    OwnersStayKnown(t0.dentries, t.dentries, workspace, |p.dentries|, w0, w);
    OwnersStayKnown(t0.dentryStates, t.dentryStates, workspace, |p.dentryStates|, w0, w);
    OwnersStayKnown(t0.xattrStates, t.xattrStates, workspace, |p.xattrStates|, w0, w);
    OwnersStayKnown(t0.aclEntries, t.aclEntries, workspace, |p.aclEntries|, w0, w);
    OwnersStayKnown(t0.aclStates, t.aclStates, workspace, |p.aclStates|, w0, w);
  }

  lemma XattrsConsistent(p: Package, workspace: Id, t0: Tables, t: Tables, m: Maps)
    requires forall i :: 0 <= i < |t0.xattrs| ==> t0.xattrs[i].inode in t0.inodes
    requires XattrsAdded(p.xattrs, m, t0.xattrs, t.xattrs)
    requires RowsCopied(p.inodes, workspace, t0.inodes, t.inodes, m.inodes)
    ensures forall i :: 0 <= i < |t.xattrs| ==> t.xattrs[i].inode in t.inodes
  {
    forall i | 0 <= i < |t.xattrs| ensures t.xattrs[i].inode in t.inodes {
      if i >= |t0.xattrs| {
        assert IsXattrCopy(m, p.xattrs[i - |t0.xattrs|], t.xattrs[|t0.xattrs| + (i - |t0.xattrs|)]);
      }
    }
  }

  lemma WorkspacesConsistent(p: Package, name: string, workspace: Id, w0: map<Id, Workspace>, w: map<Id, Workspace>,
                             m: Maps)
    requires HeadIsMapped(p, m) && RowPublished(p, name, workspace, w0, w, m)
    requires NamesDiffer(w0) && forall i :: i in w0 ==> w0[i].phase == Active && w0[i].name != name
    ensures NamesDiffer(w) && forall i :: i in w ==> w[i].phase == Active
    ensures w0.Keys <= w.Keys && workspace in w
  {
  }

  lemma SnapshotsConsistent(p: Package, workspace: Id, s0: map<SnapshotKey, Snapshot>, s: map<SnapshotKey, Snapshot>,
                            w0: map<Id, Workspace>, w: map<Id, Workspace>, m: Maps)
    requires SnapshotsAdded(p.snapshots, m, workspace, s0, s) && w0.Keys <= w.Keys && workspace in w
    requires forall k :: k in s0 ==> k.workspace in w0
    ensures forall k :: k in s ==> k.workspace in w
  {
  }

  /** The rows of a copy belong to rows that exist. */
  lemma RowsConsistent(p: Package, workspace: Id, t0: Tables, t: Tables, m: Maps)
    requires Consistent(t0) && IdsCopied(p, workspace, t0, t, m) && RowsRenamed(p, workspace, t0, t, m)
    requires t0.workspaces.Keys <= t.workspaces.Keys && workspace in t.workspaces
    ensures forall k :: k in t.versions ==> k.inode in t.inodes && ManifestKnown(t.versions[k], t.manifests)
    ensures forall k :: k in t.snapshots ==> k.workspace in t.workspaces
    ensures forall i :: 0 <= i < |t.xattrs| ==> t.xattrs[i].inode in t.inodes
    ensures AllOwnersKnown(t)
  {
    VersionsConsistent(p, workspace, t0, t, m);
    SnapshotsConsistent(p, workspace, t0.snapshots, t.snapshots, t0.workspaces, t.workspaces, m);
    XattrsConsistent(p, workspace, t0, t, m);
    AllOwnersStayKnown(p, workspace, t0, t, m);
  }

  lemma CopyIsConsistent(p: Package, name: string, workspace: Id, t0: Tables, t: Tables, m: Maps)
    requires Consistent(t0) && IsRenamedCopy(p, name, workspace, t0, t, m)
    requires forall i :: i in t0.workspaces ==> t0.workspaces[i].name != name
    ensures Consistent(t)
  {
    WorkspacesConsistent(p, name, workspace, t0.workspaces, t.workspaces, m);
    ChunkRowsConsistent(p, workspace, t0, t, m);
    RowsConsistent(p, workspace, t0, t, m);
  }

  /** What an import needs before it inserts anything. `sealed` stands for the container, the format version,
      the record checksums and the package checksum. */
  ghost predicate Startable(name: string, p: Package, sha: Sha, sum: ManifestSum, sealed: bool,
                            workspaces: map<Id, Workspace>)
  {
    && 0 < |name| <= 128 && sealed && Acceptable(p, sha, sum)
    && forall w :: w in workspaces ==> workspaces[w].name != name
  }

  /** The checks before the first INSERT. */
  method Gate(name: string, p: Package, sha: Sha, sum: ManifestSum, sealed: bool, workspaces: map<Id, Workspace>)
    returns (failure: Option<Failure>)
    ensures failure in {None, Some(BadName), Some(NotAccepted), Some(WorkspaceExists)}
    ensures failure == Some(BadName) <==> |name| == 0 || |name| > 128
    ensures failure == Some(NotAccepted) <==> 0 < |name| <= 128 && !(sealed && Acceptable(p, sha, sum))
    ensures failure == Some(WorkspaceExists) <==>
              && 0 < |name| <= 128 && sealed && Acceptable(p, sha, sum)
              && exists w :: w in workspaces && workspaces[w].name == name
    ensures failure == None <==> Startable(name, p, sha, sum, sealed, workspaces)
    ensures failure == None ==> Verified(p, sha)
  {
    if |name| == 0 || |name| > 128 {
      return Some(BadName);
    }
    var accepted := VerifyArchive(p, sha, sum);
    if !sealed || !accepted {
      return Some(NotAccepted);
    }
    return if NameTaken(workspaces, name) then Some(WorkspaceExists) else None;
  }

  class Database {
    var tables: Tables

    constructor (tables: Tables)
      requires Consistent(tables)
      ensures this.tables == tables
    {
      this.tables := tables;
    }

    /** `ImportArchive`. `check` is the closing integrity check of the new workspace, an arbitrary test of
        the filled tables; `copy` is what it is shown. A failed import rolls back; a finished one leaves a
        renamed copy next to the untouched old workspaces. */
    method ImportArchive(name: string, p: Package, sha: Sha, sum: ManifestSum, sealed: bool,
                         check: (Tables, Id) -> bool)
      returns (r: Outcome, ghost workspace: Id, ghost copy: Tables, ghost m: Maps)
      requires Consistent(tables) && CollisionFree(sha, p.chunks)
      modifies this
      ensures r == Failed(BadName) <==> |name| == 0 || |name| > 128
      ensures r == Failed(NotAccepted) <==> 0 < |name| <= 128 && !(sealed && Acceptable(p, sha, sum))
      ensures r == Failed(WorkspaceExists) <==>
                && 0 < |name| <= 128 && sealed && Acceptable(p, sha, sum)
                && exists w :: w in old(tables).workspaces && old(tables).workspaces[w].name == name
      ensures r == Failed(Constraint) <==>
                Startable(name, p, sha, sum, sealed, old(tables).workspaces) && Constrained(p)
      ensures r == Failed(CommitOrder) <==>
                Startable(name, p, sha, sum, sealed, old(tables).workspaces) && OutOfOrder(p)
      ensures r == Failed(IntegrityCheck) <==>
                Startable(name, p, sha, sum, sealed, old(tables).workspaces) && Fillable(p) && !check(copy, workspace)
      ensures r.Imported? <==>
                Startable(name, p, sha, sum, sealed, old(tables).workspaces) && Fillable(p) && check(copy, workspace)
      ensures r.Imported? || r == Failed(IntegrityCheck) ==>
                IsRenamedCopy(p, name, workspace, old(tables), copy, m)
      ensures tables == if r.Imported? then copy else old(tables)
      ensures r.Imported? ==> r.workspace == workspace && workspace !in old(tables).workspaces
      ensures r.Imported? ==> workspace in tables.workspaces
      ensures r.Imported? ==> HeadIsMapped(p, m)
      ensures r.Imported? ==> tables.workspaces[workspace].name == name
      ensures r.Imported? ==> tables.workspaces[workspace].phase == Active
      ensures r.Imported? ==> tables.workspaces[workspace].root == Some(m.inodes[p.head.root])
      ensures r.Imported? ==> tables.workspaces[workspace].head == Some(m.commits[p.head.commit])
      ensures r.Imported? ==> tables.workspaces[workspace].floor == Some(m.commits[p.head.floor])
      ensures r.Imported? ==> tables.workspaces[workspace].settings == p.head.settings
      ensures r.Imported? ==> IsUsage(p.inodes, p.inodes.Keys, tables.workspaces[workspace].usage)
      ensures Consistent(tables)
    {
      workspace, copy, m := Id(0), tables, Maps(map[], map[], map[]);
      var failure := Gate(name, p, sha, sum, sealed, tables.workspaces);
      if failure.Some? {
        return Failed(failure.value), workspace, copy, m;
      }
      var id := FreshId(tables.workspaces.Keys);
      var t, maps;
      failure, t, maps := ImportBody(name, p, sha, id, tables);
      workspace, copy, m := id, t, maps;
      if failure.Some? {
        return Failed(failure.value), workspace, copy, m;
      }
      if !check(t, id) {
        return Failed(IntegrityCheck), workspace, copy, m;
      }
      CopyIsConsistent(p, name, id, tables, t, maps);
      tables := t;
      return Imported(id), workspace, copy, m;
    }
  }
}
