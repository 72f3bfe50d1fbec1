/** What an import (agent_files/cli/vexfs_archive.cpp) does to history: the chain of commits, and the tree that
    `TreeAtCommit` (vexdb_sqlite/src/agent_files/vexfs_sqlite.cpp) finds at every one of them. */
module ArchiveHistory {
  import opened Basics
  import opened ArchivePackage
  import opened ArchiveChunks
  import opened ArchiveImport
  import opened ArchiveVerify
  import opened ArchiveWorkspace
  import opened ArchiveDatabase
  import opened ArchiveCopy

  // ----- The chain of commits -----

  /** A walk from the head commit into the past, parent by parent. */
  ghost predicate IsHistory(p: Package, walk: seq<Id>) {
    && |walk| > 0 && walk[0] == p.head.commit
    && (forall k :: 0 <= k < |walk| ==> walk[k] in p.commits)
    && (forall k, j :: 0 <= k < |walk| && j == k + 1 < |walk| ==> p.commits[walk[k]].parent == Some(walk[j]))
  }

  /** The same through the commits of a workspace in the database. */
  ghost predicate IsLocalHistory(t: Tables, workspace: Id, walk: seq<Id>) {
    && |walk| > 0 && workspace in t.workspaces && t.workspaces[workspace].head == Some(walk[0])
    && (forall k :: 0 <= k < |walk| ==> walk[k] in t.commits && t.commits[walk[k]].workspace == workspace)
    && (forall k, j :: 0 <= k < |walk| && j == k + 1 < |walk| ==> t.commits[walk[k]].row.parent == Some(walk[j]))
  }

  ghost predicate IsImage(m: map<Id, Id>, walk: seq<Id>, local: seq<Id>) {
    |local| == |walk| && forall k :: 0 <= k < |walk| ==> walk[k] in m && local[k] == m[walk[k]]
  }

  lemma HistoryIsCopied(p: Package, workspace: Id, t: Tables, m: Maps, walk: seq<Id>, local: seq<Id>)
    requires CommitRowsAre(p.commits, workspace, t.commits, m.commits)
    requires p.head.commit in m.commits && workspace in t.workspaces
    requires t.workspaces[workspace].head == Some(m.commits[p.head.commit])
    requires IsHistory(p, walk) && IsImage(m.commits, walk, local)
    ensures IsLocalHistory(t, workspace, local)
  {
    forall k | 0 <= k < |walk|
      ensures local[k] in t.commits && t.commits[local[k]].workspace == workspace
      ensures IsCommitCopy(m.commits, p.commits[walk[k]], t.commits[local[k]].row)
    {
      assert walk[k] in m.commits;
    }
    forall k, j | 0 <= k < |local| && j == k + 1 < |local|
      ensures t.commits[local[k]].row.parent == Some(local[j])
    {
      assert p.commits[walk[k]].parent == Some(walk[j]);
      assert IsCommitCopy(m.commits, p.commits[walk[k]], t.commits[local[k]].row);
    }
  }

  /** The parent of a commit's copy is the copy of its parent. */
  lemma ParentIsOriginal(p: Package, workspace: Id, t: Tables, m: Maps, c: Id, local: Id)
    requires CommitRowsAre(p.commits, workspace, t.commits, m.commits) && c in m.commits && m.commits[c] in t.commits
    requires t.commits[m.commits[c]].row.parent == Some(local)
    ensures c in p.commits && p.commits[c].parent.Some? && p.commits[c].parent.value in m.commits
    ensures p.commits[c].parent.value in p.commits && m.commits[p.commits[c].parent.value] == local
  {
    assert IsCommitCopy(m.commits, p.commits[c], t.commits[m.commits[c]].row);
  }

  lemma {:induction false} HistoryIsOriginal(p: Package, workspace: Id, t: Tables, m: Maps, local: seq<Id>, n: nat)
    returns (walk: seq<Id>)
    requires CommitRowsAre(p.commits, workspace, t.commits, m.commits)
    requires p.head.commit in m.commits && workspace in t.workspaces
    requires t.workspaces[workspace].head == Some(m.commits[p.head.commit])
    requires IsLocalHistory(t, workspace, local) && 0 < n <= |local|
    ensures IsHistory(p, walk) && IsImage(m.commits, walk, local[..n])
  {
    if n == 1 {
      walk := [p.head.commit];
    } else {
      var front := HistoryIsOriginal(p, workspace, t, m, local, n - 1);
      var c := front[n - 2];
      assert c in m.commits && local[..n - 1][n - 2] == m.commits[c];
      assert t.commits[local[n - 2]].row.parent == Some(local[n - 1]);
      ParentIsOriginal(p, workspace, t, m, c, local[n - 1]);
      walk := front + [p.commits[c].parent.value];
      HistoryGrows(p, front, p.commits[c].parent.value);
      ImageGrows(m.commits, front, local, n);
    }
  }

  lemma ImageGrows(m: map<Id, Id>, front: seq<Id>, local: seq<Id>, n: nat)
    requires 1 < n <= |local| && IsImage(m, front, local[..n - 1])
    ensures forall c :: c in m && m[c] == local[n - 1] ==> IsImage(m, front + [c], local[..n])
  {
    forall c | c in m && m[c] == local[n - 1] ensures IsImage(m, front + [c], local[..n]) {
      forall k | 0 <= k < n ensures (front + [c])[k] in m && local[..n][k] == m[(front + [c])[k]] {
        assert k < n - 1 ==> local[..n - 1][k] == m[front[k]];
      }
    }
  }

  lemma HistoryGrows(p: Package, front: seq<Id>, c: Id)
    requires IsHistory(p, front) && c in p.commits && p.commits[front[|front| - 1]].parent == Some(c)
    ensures IsHistory(p, front + [c])
  {
    var walk := front + [c];
    forall k, j | 0 <= k < |walk| && j == k + 1 < |walk| ensures p.commits[walk[k]].parent == Some(walk[j]) {
      assert walk[k] == front[k];
      assert j < |front| ==> walk[j] == front[j];
    }
  }

  /** The walks from the new head are the images of the walks from the package's head. */
  lemma SameHistory(p: Package, name: string, workspace: Id, t0: Tables, t: Tables, m: Maps, local: seq<Id>)
    requires IsRenamedCopy(p, name, workspace, t0, t, m)
    ensures IsLocalHistory(t, workspace, local) <==>
              exists walk :: IsHistory(p, walk) && IsImage(m.commits, walk, local)
  {
    if IsLocalHistory(t, workspace, local) {
      var walk := HistoryIsOriginal(p, workspace, t, m, local, |local|);
      assert local[..|local|] == local;
    }
    forall walk | IsHistory(p, walk) && IsImage(m.commits, walk, local) ensures IsLocalHistory(t, workspace, local) {
      HistoryIsCopied(p, workspace, t, m, walk, local);
    }
  }

  /** A walk meets the new floor exactly where the original walk meets its floor. */
  lemma SameFloor(p: Package, name: string, workspace: Id, t0: Tables, t: Tables, m: Maps,
                  walk: seq<Id>, local: seq<Id>, k: nat)
    requires IsRenamedCopy(p, name, workspace, t0, t, m)
    requires IsHistory(p, walk) && IsImage(m.commits, walk, local) && k < |local|
    ensures workspace in t.workspaces && (t.workspaces[workspace].floor == Some(local[k]) <==> walk[k] == p.head.floor)
  {
    assert walk[k] in m.commits && local[k] == m.commits[walk[k]];
  }

  // ----- The tree at a commit -----

  /** The states of a workspace, and where its tree starts. */
  datatype Timeline = Timeline(root: Id, inodes: seq<InodeState>, dentries: seq<DentryState>)

  /** Row `i` is the last state of its inode up to `commit`. */
  ghost predicate IsLastInode(states: seq<InodeState>, commit: Id, i: nat) {
    && i < |states| && states[i].commit.n <= commit.n
    && forall j :: 0 <= j < |states| && states[j].inode == states[i].inode && states[j].commit.n <= commit.n ==>
         states[j].commit.n <= states[i].commit.n
  }

  ghost predicate SameEntry(a: DentryState, b: DentryState) {
    a.parent == b.parent && a.name == b.name
  }

  /** Row `i` is the last state of its entry up to `commit`. */
  ghost predicate IsLastDentry(states: seq<DentryState>, commit: Id, i: nat) {
    && i < |states| && states[i].commit.n <= commit.n
    && forall j :: 0 <= j < |states| && SameEntry(states[j], states[i]) && states[j].commit.n <= commit.n ==>
         states[j].commit.n <= states[i].commit.n
  }

  /** At `commit` the inode exists, in the state of row `i`. */
  ghost predicate InodeIs(h: Timeline, commit: Id, inode: Id, i: nat) {
    IsLastInode(h.inodes, commit, i) && h.inodes[i].inode == inode && h.inodes[i].deletedAt.None?
  }

  ghost predicate DirectoryIs(h: Timeline, commit: Id, inode: Id, i: nat) {
    InodeIs(h, commit, inode, i) && h.inodes[i].kind == "directory"
  }

  /** At `commit`, following `names` from the root ends at `to`. */
  ghost predicate LeadsAt(h: Timeline, commit: Id, names: seq<string>, to: Id)
    decreases |names|
  {
    && (exists i: nat :: InodeIs(h, commit, to, i))
    && if names == [] then to == h.root
       else exists i: nat :: i < |h.dentries| && EntersAt(h, commit, names, to, i)
  }

  ghost predicate EntersAt(h: Timeline, commit: Id, names: seq<string>, to: Id, i: nat)
    requires names != [] && i < |h.dentries|
    decreases |names|, 0
  {
    var e := h.dentries[i];
    && IsLastDentry(h.dentries, commit, i) && e.deleted == 0 && e.name == names[|names| - 1] && e.inode == to
    && (exists k: nat :: DirectoryIs(h, commit, e.parent, k))
    && LeadsAt(h, commit, names[..|names| - 1], e.parent)
  }

  /** Row for row, `local` is `h` under the maps, and the order of the commits is kept. */
  ghost predicate IsTimelineCopy(m: Maps, h: Timeline, local: Timeline) {
    && Injective(m.inodes) && Injective(m.commits) && OrderKept(m.commits)
    && h.root in m.inodes && local.root == m.inodes[h.root]
    && |local.inodes| == |h.inodes| && |local.dentries| == |h.dentries|
    && (forall i :: 0 <= i < |h.inodes| ==> IsInodeStateCopy(m, h.inodes[i], local.inodes[i]))
    && (forall i :: 0 <= i < |h.dentries| ==> IsDentryStateCopy(m, h.dentries[i], local.dentries[i]))
  }

  lemma SameOrder(m: map<Id, Id>, a: Id, b: Id)
    requires Injective(m) && OrderKept(m) && a in m && b in m
    ensures a.n <= b.n <==> m[a].n <= m[b].n
  {
  }

  lemma SameLastInode(m: Maps, h: Timeline, local: Timeline, c: Id, i: nat)
    requires IsTimelineCopy(m, h, local) && c in m.commits
    ensures IsLastInode(h.inodes, c, i) <==> IsLastInode(local.inodes, m.commits[c], i)
  {
    if i < |h.inodes| {
      forall j | 0 <= j < |h.inodes|
        ensures local.inodes[j].inode == local.inodes[i].inode <==> h.inodes[j].inode == h.inodes[i].inode
        ensures local.inodes[j].commit.n <= m.commits[c].n <==> h.inodes[j].commit.n <= c.n
        ensures local.inodes[j].commit.n <= local.inodes[i].commit.n <==> h.inodes[j].commit.n <= h.inodes[i].commit.n
      {
        assert IsInodeStateCopy(m, h.inodes[i], local.inodes[i]) && IsInodeStateCopy(m, h.inodes[j], local.inodes[j]);
        SameOrder(m.commits, h.inodes[j].commit, c);
        SameOrder(m.commits, h.inodes[j].commit, h.inodes[i].commit);
      }
    }
  }

  lemma SameLastDentry(m: Maps, h: Timeline, local: Timeline, c: Id, i: nat)
    requires IsTimelineCopy(m, h, local) && c in m.commits
    ensures IsLastDentry(h.dentries, c, i) <==> IsLastDentry(local.dentries, m.commits[c], i)
  {
    if i < |h.dentries| {
      forall j | 0 <= j < |h.dentries|
        ensures SameEntry(local.dentries[j], local.dentries[i]) <==> SameEntry(h.dentries[j], h.dentries[i])
        ensures local.dentries[j].commit.n <= m.commits[c].n <==> h.dentries[j].commit.n <= c.n
        ensures local.dentries[j].commit.n <= local.dentries[i].commit.n <==>
                h.dentries[j].commit.n <= h.dentries[i].commit.n
      {
        assert IsDentryStateCopy(m, h.dentries[i], local.dentries[i]);
        assert IsDentryStateCopy(m, h.dentries[j], local.dentries[j]);
        SameOrder(m.commits, h.dentries[j].commit, c);
        SameOrder(m.commits, h.dentries[j].commit, h.dentries[i].commit);
      }
    }
  }

  /** An inode exists at a commit, as a directory or not, exactly when its copy does, in the copied state. */
  lemma SameInode(m: Maps, h: Timeline, local: Timeline, c: Id, inode: Id, i: nat)
    requires IsTimelineCopy(m, h, local) && c in m.commits && inode in m.inodes
    ensures InodeIs(h, c, inode, i) <==> InodeIs(local, m.commits[c], m.inodes[inode], i)
    ensures DirectoryIs(h, c, inode, i) <==> DirectoryIs(local, m.commits[c], m.inodes[inode], i)
  {
    SameLastInode(m, h, local, c, i);
    if i < |h.inodes| {
      assert IsInodeStateCopy(m, h.inodes[i], local.inodes[i]);
    }
  }

  lemma {:induction false} PathAtIsCopied(m: Maps, h: Timeline, local: Timeline, c: Id, names: seq<string>, to: Id)
    requires IsTimelineCopy(m, h, local) && c in m.commits && LeadsAt(h, c, names, to)
    ensures to in m.inodes && LeadsAt(local, m.commits[c], names, m.inodes[to])
    decreases |names|
  {
    var k: nat :| InodeIs(h, c, to, k);
    assert IsInodeStateCopy(m, h.inodes[k], local.inodes[k]);
    SameInode(m, h, local, c, to, k);
    if names != [] {
      var i: nat :| i < |h.dentries| && EntersAt(h, c, names, to, i);
      var e := h.dentries[i];
      assert IsDentryStateCopy(m, e, local.dentries[i]);
      PathAtIsCopied(m, h, local, c, names[..|names| - 1], e.parent);
      SameLastDentry(m, h, local, c, i);
      var d: nat :| DirectoryIs(h, c, e.parent, d);
      SameInode(m, h, local, c, e.parent, d);
      assert EntersAt(local, m.commits[c], names, m.inodes[to], i);
    }
  }

  lemma {:induction false} PathAtIsOriginal(m: Maps, h: Timeline, local: Timeline, c: Id, names: seq<string>, at: Id)
    returns (to: Id)
    requires IsTimelineCopy(m, h, local) && c in m.commits && LeadsAt(local, m.commits[c], names, at)
    ensures to in m.inodes && m.inodes[to] == at && LeadsAt(h, c, names, to)
    decreases |names|
  {
    var k: nat :| InodeIs(local, m.commits[c], at, k);
    assert IsInodeStateCopy(m, h.inodes[k], local.inodes[k]);
    to := h.inodes[k].inode;
    SameInode(m, h, local, c, to, k);
    if names != [] {
      var i: nat :| i < |local.dentries| && EntersAt(local, m.commits[c], names, at, i);
      var e := h.dentries[i];
      assert IsDentryStateCopy(m, e, local.dentries[i]);
      var parent := PathAtIsOriginal(m, h, local, c, names[..|names| - 1], local.dentries[i].parent);
      SameLastDentry(m, h, local, c, i);
      var d: nat :| DirectoryIs(local, m.commits[c], m.inodes[e.parent], d);
      SameInode(m, h, local, c, e.parent, d);
      assert EntersAt(h, c, names, to, i);
    }
  }

  // ----- The timelines of a package and of a workspace -----

  /** The rows of one workspace, in table order. */
  ghost function RowsIn<R>(rows: seq<Owned<R>>, workspace: Id): seq<R> {
    if rows == [] then []
    else
      var last := rows[|rows| - 1];
      RowsIn(rows[..|rows| - 1], workspace) + (if last.workspace == workspace then [last.row] else [])
  }

  lemma {:induction false} NoRowsIn<R>(rows: seq<Owned<R>>, workspace: Id)
    requires OthersOnly(rows, workspace)
    ensures RowsIn(rows, workspace) == []
  {
    if rows != [] {
      NoRowsIn(rows[..|rows| - 1], workspace);
    }
  }

  /** The new workspace has the new rows and no others. */
  lemma {:induction false} NewRowsIn<R>(before: seq<Owned<R>>, out: seq<Owned<R>>, workspace: Id, n: nat)
    requires NewRows(before, out, workspace, n) && OthersOnly(before, workspace)
    ensures |RowsIn(out, workspace)| == n
    ensures forall i :: 0 <= i < n ==> RowsIn(out, workspace)[i] == out[|before| + i].row
    decreases n
  {
    if n == 0 {
      assert out == before;
      NoRowsIn(before, workspace);
    } else {
      NewRowsIn(before, out[..|out| - 1], workspace, n - 1);
    }
  }

  /** Every other workspace has the rows it had. */
  lemma {:induction false} OldRowsIn<R>(before: seq<Owned<R>>, out: seq<Owned<R>>, workspace: Id, n: nat, other: Id)
    requires NewRows(before, out, workspace, n) && other != workspace
    ensures RowsIn(out, other) == RowsIn(before, other)
    decreases n
  {
    if n == 0 {
      assert out == before;
    } else {
      OldRowsIn(before, out[..|out| - 1], workspace, n - 1, other);
    }
  }

  ghost function PackageTimeline(p: Package): Timeline {
    Timeline(p.head.root, p.inodeStates, p.dentryStates)
  }

  ghost function LocalTimeline(t: Tables, workspace: Id): Timeline
    requires workspace in t.workspaces && t.workspaces[workspace].root.Some?
  {
    Timeline(t.workspaces[workspace].root.value, RowsIn(t.inodeStates, workspace), RowsIn(t.dentryStates, workspace))
  }

  lemma TimelineIsCopied(p: Package, name: string, workspace: Id, t0: Tables, t: Tables, m: Maps)
    requires Consistent(t0) && IsRenamedCopy(p, name, workspace, t0, t, m)
    ensures workspace in t.workspaces && t.workspaces[workspace].root.Some?
    ensures IsTimelineCopy(m, PackageTimeline(p), LocalTimeline(t, workspace))
  {
    StatesAreCopied(p, workspace, t0, t, m);
  }

  lemma StatesAreCopied(p: Package, workspace: Id, t0: Tables, t: Tables, m: Maps)
    requires AllOwnersKnown(t0) && workspace !in t0.workspaces
    requires InodeStatesAdded(p.inodeStates, m, workspace, t0.inodeStates, t.inodeStates)
    requires DentryStatesAdded(p.dentryStates, m, workspace, t0.dentryStates, t.dentryStates)
    ensures |RowsIn(t.inodeStates, workspace)| == |p.inodeStates|
    ensures |RowsIn(t.dentryStates, workspace)| == |p.dentryStates|
    ensures forall i :: 0 <= i < |p.inodeStates| ==>
              IsInodeStateCopy(m, p.inodeStates[i], RowsIn(t.inodeStates, workspace)[i])
    ensures forall i :: 0 <= i < |p.dentryStates| ==>
              IsDentryStateCopy(m, p.dentryStates[i], RowsIn(t.dentryStates, workspace)[i])
  {
    NoneOfNew(t0.inodeStates, t0.workspaces, workspace);
    NoneOfNew(t0.dentryStates, t0.workspaces, workspace);
    NewRowsIn(t0.inodeStates, t.inodeStates, workspace, |p.inodeStates|);
    NewRowsIn(t0.dentryStates, t.dentryStates, workspace, |p.dentryStates|);
  }

  /** At every commit of the package, a path exists in the new workspace exactly when it exists in the package, and
      it leads to the inode's copy. */
  lemma SameTreeAtCommit(p: Package, name: string, workspace: Id, t0: Tables, t: Tables, m: Maps, c: Id,
                         names: seq<string>, at: Id)
    requires Consistent(t0) && IsRenamedCopy(p, name, workspace, t0, t, m) && c in p.commits
    ensures workspace in t.workspaces && t.workspaces[workspace].root.Some? && c in m.commits
    ensures LeadsAt(LocalTimeline(t, workspace), m.commits[c], names, at) <==>
              exists to :: LeadsAt(PackageTimeline(p), c, names, to) && to in m.inodes && m.inodes[to] == at
  {
    TimelineIsCopied(p, name, workspace, t0, t, m);
    var h, local := PackageTimeline(p), LocalTimeline(t, workspace);
    if LeadsAt(local, m.commits[c], names, at) {
      var to := PathAtIsOriginal(m, h, local, c, names, at);
    }
    forall to | LeadsAt(h, c, names, to) && to in m.inodes && m.inodes[to] == at
      ensures LeadsAt(local, m.commits[c], names, at)
    {
      PathAtIsCopied(m, h, local, c, names, to);
    }
  }

  /** A file as it was at a commit: the copy is in the same state, and its version has the same bytes. */
  lemma SameFileAtCommit(p: Package, sha: Sha, name: string, workspace: Id, t0: Tables, t: Tables, m: Maps, c: Id,
                         inode: Id, i: nat)
    requires Consistent(t0) && Verified(p, sha) && IsRenamedCopy(p, name, workspace, t0, t, m) && c in p.commits
    requires InodeIs(PackageTimeline(p), c, inode, i)
    ensures workspace in t.workspaces && t.workspaces[workspace].root.Some? && c in m.commits && inode in m.inodes
    ensures InodeIs(LocalTimeline(t, workspace), m.commits[c], m.inodes[inode], i)
    ensures LocalTimeline(t, workspace).inodes[i].currentVersion == p.inodeStates[i].currentVersion
    ensures p.inodeStates[i].kind != DIRECTORY && p.inodeStates[i].currentVersion > 0 ==>
              && ReadPackage(p, VersionKey(inode, p.inodeStates[i].currentVersion)).Some?
              && ReadLocal(t, VersionKey(m.inodes[inode], p.inodeStates[i].currentVersion)) ==
                 ReadPackage(p, VersionKey(inode, p.inodeStates[i].currentVersion))
  {
    TimelineIsCopied(p, name, workspace, t0, t, m);
    var h, local := PackageTimeline(p), LocalTimeline(t, workspace);
    assert IsInodeStateCopy(m, h.inodes[i], local.inodes[i]);
    SameInode(m, h, local, c, inode, i);
    if p.inodeStates[i].kind != DIRECTORY && p.inodeStates[i].currentVersion > 0 {
      VersionIsThere(p, i);
      SameBytes(p, sha, name, workspace, t0, t, m, VersionKey(inode, p.inodeStates[i].currentVersion));
    }
  }

  lemma VersionIsThere(p: Package, i: nat)
    requires StatesOk(p) && i < |p.inodeStates|
    requires p.inodeStates[i].kind != DIRECTORY && p.inodeStates[i].currentVersion > 0
    ensures VersionKey(p.inodeStates[i].inode, p.inodeStates[i].currentVersion) in p.versions
  {
  }

  /** The timelines of the older workspaces are untouched, so their trees are the same at every commit. */
  lemma OldTimelinesKept(p: Package, name: string, workspace: Id, t0: Tables, t: Tables, m: Maps, other: Id)
    requires IsRenamedCopy(p, name, workspace, t0, t, m)
    requires other in t0.workspaces && t0.workspaces[other].root.Some?
    ensures other in t.workspaces && t.workspaces[other].root.Some?
    ensures LocalTimeline(t, other) == LocalTimeline(t0, other)
  {
    OldRowsIn(t0.inodeStates, t.inodeStates, workspace, |p.inodeStates|, other);
    OldRowsIn(t0.dentryStates, t.dentryStates, workspace, |p.dentryStates|, other);
  }
}
