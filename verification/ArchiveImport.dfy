/** Importing a verified archive (agent_files/cli/vexfs_archive.cpp).

    Rows are copied table by table into a database that already holds other workspaces; ids are
    reassigned, and references follow through maps or joins. Proved here: for a package the verifier
    accepts the joins lose and duplicate nothing, so the new workspace is the package with its ids
    renamed one-to-one, and every shared chunk slot ends up with the package's bytes.
 */
module ArchiveImport {
  import opened Basics
  import opened ArchivePackage
  import opened ArchiveChunks

  // ----- Fresh row ids and ordered scans -----

  /** sqlite3_last_insert_rowid after an INSERT: one above the largest id of the table, or 1 in an empty table. */
  method FreshId(keys: set<Id>) returns (id: Id)
    ensures id !in keys && forall k :: k in keys ==> k.n < id.n
    ensures if keys == {} then id.n == 1 else Id(id.n - 1) in keys
  {
    if keys == {} {
      return Id(1);
    }
    var largest :| largest in keys;
    var rest := keys - {largest};
    while rest != {}
      invariant rest <= keys && largest in keys && forall k :: k in keys && k !in rest ==> k.n <= largest.n
      decreases |rest|
    {
      var k :| k in rest;
      rest := rest - {k};
      if k.n > largest.n {
        largest := k;
      }
    }
    id := Id(largest.n + 1);
  }

  method Least(s: set<Id>) returns (least: Id)
    requires s != {}
    ensures least in s && forall k :: k in s ==> least.n <= k.n
  {
    least :| least in s;
    var rest := s - {least};
    while rest != {}
      invariant rest <= s && least in s && forall k :: k in s && k !in rest ==> least.n <= k.n
      decreases |rest|
    {
      var k :| k in rest;
      rest := rest - {k};
      if k.n < least.n {
        least := k;
      }
    }
  }

  /** ORDER BY source_id. */
  method Ascending(s: set<Id>) returns (r: seq<Id>)
    ensures IsOrder(s, r)
  {
    r := [];
    var rest := s;
    while rest != {}
      invariant rest <= s && forall x :: x in r <==> x in s - rest
      invariant forall i, j :: 0 <= i < j < |r| ==> r[i].n < r[j].n
      invariant forall x, y :: x in r && y in rest ==> x.n < y.n
      decreases |rest|
    {
      var x := Least(rest);
      assert forall y :: y in rest - {x} ==> x.n < y.n by {
        forall y | y in rest - {x} ensures x.n < y.n {
          assert x.n != y.n;
        }
      }
      r, rest := r + [x], rest - {x};
    }
  }

  ghost predicate IsOrder(keys: set<Id>, order: seq<Id>) {
    (forall a, b :: 0 <= a < b < |order| ==> order[a].n < order[b].n) && (forall x :: x in order <==> x in keys)
  }

  /** The keys of `m` are the first `i` ids. */
  ghost predicate IsPrefixOf(m: map<Id, Id>, order: seq<Id>, i: nat) {
    i <= |order| && forall c :: c in m <==> exists k :: 0 <= k < i && order[k] == c
  }

  lemma PrefixGrows(m: map<Id, Id>, order: seq<Id>, i: nat, id: Id)
    requires IsPrefixOf(m, order, i) && i < |order|
    ensures IsPrefixOf(m[order[i] := id], order, i + 1)
  {
    var m' := m[order[i] := id];
    forall c ensures c in m' <==> exists k :: 0 <= k < i + 1 && order[k] == c {
      if c in m {
        var k :| 0 <= k < i && order[k] == c;
      }
    }
  }

  lemma NextIsNew(keys: set<Id>, m: map<Id, Id>, order: seq<Id>, i: nat)
    requires IsOrder(keys, order) && i < |order| && IsPrefixOf(m, order, i)
    ensures order[i] !in m && order[i] in keys
  {
    assert order[i] in order;
  }

  lemma WholePrefix(keys: set<Id>, m: map<Id, Id>, order: seq<Id>)
    requires IsOrder(keys, order) && IsPrefixOf(m, order, |order|)
    ensures m.Keys == keys
  {
    forall c | c in keys ensures c in m {
      var k :| 0 <= k < |order| && order[k] == c;
    }
    forall c | c in m ensures c in keys {
      var k :| 0 <= k < |order| && order[k] == c;
      assert order[k] in order;
    }
  }

  // ----- Renaming maps -----

  ghost predicate Injective<K(!new), V>(m: map<K, V>) {
    forall a, b :: a in m && b in m && m[a] == m[b] ==> a == b
  }

  function RenameOption(m: map<Id, Id>, o: Option<Id>): Option<Id>
    requires o.Some? ==> o.value in m
  {
    if o.Some? then Some(m[o.value]) else None
  }

  datatype Owned<R> = Owned(workspace: Id, row: R)

  /** Old rows stay; the new rows are exactly the images of `m`, each under a fresh id. */
  ghost predicate Extends<K, R>(table0: map<Id, R>, table: map<Id, R>, m: map<K, Id>) {
    && (forall id :: id in table0 ==> id in table && table[id] == table0[id])
    && (forall k :: k in m ==> m[k] in table && m[k] !in table0)
    && (forall id :: id in table ==> id in table0 || exists k :: k in m && m[k] == id)
  }

  lemma ExtendsGrows<K, R>(table0: map<Id, R>, table: map<Id, R>, m: map<K, Id>, k: K, id: Id, row: R)
    requires Extends(table0, table, m) && k !in m && id !in table
    ensures Extends(table0, table[id := row], m[k := id])
  {
    var table', m' := table[id := row], m[k := id];
    forall x | x in table' ensures x in table0 || exists j :: j in m' && m'[j] == x {
      if x == id {
        assert k in m' && m'[k] == x;
      } else if x !in table0 {
        var j :| j in m && m[j] == x;
        assert j in m' && m'[j] == x;
      }
    }
  }

  // ----- Tables copied row by row -----

  ghost predicate RowsCopied<R>(rows: map<Id, R>, workspace: Id, table0: map<Id, Owned<R>>,
                                table: map<Id, Owned<R>>, m: map<Id, Id>)
  {
    && m.Keys <= rows.Keys && Injective(m) && Extends(table0, table, m)
    && forall k :: k in m ==> table[m[k]] == Owned(workspace, rows[k])
  }

  lemma RowCopied<R>(rows: map<Id, R>, workspace: Id, table0: map<Id, Owned<R>>,
                     table: map<Id, Owned<R>>, m: map<Id, Id>, k: Id, id: Id)
    requires RowsCopied(rows, workspace, table0, table, m) && k in rows && k !in m && id !in table
    ensures RowsCopied(rows, workspace, table0, table[id := Owned(workspace, rows[k])], m[k := id])
  {
    ExtendsGrows(table0, table, m, k, id, Owned(workspace, rows[k]));
  }

  /** The loops over inodes and manifests: one insert and one map entry per row. */
  method CopyRows<R>(rows: map<Id, R>, workspace: Id, table0: map<Id, Owned<R>>)
    returns (table: map<Id, Owned<R>>, m: map<Id, Id>)
    ensures m.Keys == rows.Keys && RowsCopied(rows, workspace, table0, table, m)
  {
    table, m := table0, map[];
    var order := Ascending(rows.Keys);
    for i := 0 to |order|
      invariant IsPrefixOf(m, order, i) && RowsCopied(rows, workspace, table0, table, m)
    {
      NextIsNew(rows.Keys, m, order, i);
      var id := FreshId(table.Keys);
      RowCopied(rows, workspace, table0, table, m, order[i], id);
      PrefixGrows(m, order, i, id);
      table := table[id := Owned(workspace, rows[order[i]])];
      m := m[order[i] := id];
    }
    WholePrefix(rows.Keys, m, order);
  }

  /** Commits are inserted in id order and look their parent up in the map filled so far, so the loop
      gets through exactly when every parent has a smaller id than its child. */
  ghost predicate ParentsFirst(commits: map<Id, Commit>) {
    forall c {:trigger ParentBefore(commits, c)} :: c in commits ==> ParentBefore(commits, c)
  }

  ghost predicate ParentBefore(commits: map<Id, Commit>, c: Id) {
    c in commits && (commits[c].parent.Some? ==> commits[c].parent.value in commits && commits[c].parent.value.n < c.n)
  }

  function RenameCommit(m: map<Id, Id>, c: Commit): Commit
    requires c.parent.Some? ==> c.parent.value in m
  {
    Commit(RenameOption(m, c.parent), c.rest)
  }

  /** A commit in the database stands for one of the package: its parent is the parent's local id. */
  ghost predicate IsCommitCopy(m: map<Id, Id>, c: Commit, local: Commit) {
    && (local.parent.Some? <==> c.parent.Some?)
    && (c.parent.Some? ==> c.parent.value in m && local.parent.value == m[c.parent.value])
    && local.rest == c.rest
  }

  /** Later commits get larger ids, so the order of the history is kept. */
  ghost predicate OrderKept(m: map<Id, Id>) {
    forall a, b :: a in m && b in m && a.n < b.n ==> m[a].n < m[b].n
  }

  ghost predicate CommitsCopied(commits: map<Id, Commit>, workspace: Id, table0: map<Id, Owned<Commit>>,
                                table: map<Id, Owned<Commit>>, m: map<Id, Id>)
  {
    Injective(m) && OrderKept(m) && Extends(table0, table, m) && CommitRowsAre(commits, workspace, table, m)
  }

  ghost predicate CommitRowsAre(commits: map<Id, Commit>, workspace: Id, table: map<Id, Owned<Commit>>,
                                m: map<Id, Id>)
  {
    forall c :: c in m ==>
      && c in commits && m[c] in table
      && table[m[c]].workspace == workspace && IsCommitCopy(m, commits[c], table[m[c]].row)
  }

  lemma CommitRowAdded(commits: map<Id, Commit>, workspace: Id, table: map<Id, Owned<Commit>>, m: map<Id, Id>,
                       c: Id, id: Id, row: Owned<Commit>)
    requires CommitRowsAre(commits, workspace, table, m) && c in commits && c !in m && id !in table
    requires row.workspace == workspace && IsCommitCopy(m, commits[c], row.row)
    ensures CommitRowsAre(commits, workspace, table[id := row], m[c := id])
  {
    var table', m' := table[id := row], m[c := id];
    forall k | k in m'
      ensures k in commits && m'[k] in table' && table'[m'[k]].workspace == workspace
      ensures IsCommitCopy(m', commits[k], table'[m'[k]].row)
    {
      if k != c {
        assert IsCommitCopy(m, commits[k], table[m[k]].row);
      }
    }
  }

  lemma CommitCopied(commits: map<Id, Commit>, workspace: Id, table0: map<Id, Owned<Commit>>,
                     table: map<Id, Owned<Commit>>, m: map<Id, Id>, c: Id, id: Id)
    requires CommitsCopied(commits, workspace, table0, table, m) && c in commits && c !in m && id !in table
    requires (forall k :: k in table ==> k.n < id.n) && forall k :: k in m ==> k.n < c.n
    requires commits[c].parent.Some? ==> commits[c].parent.value in m
    ensures CommitsCopied(commits, workspace, table0,
                          table[id := Owned(workspace, RenameCommit(m, commits[c]))], m[c := id])
  {
    var row := Owned(workspace, RenameCommit(m, commits[c]));
    ExtendsGrows(table0, table, m, c, id, row);
    OrderGrows(m, c, id);
    CommitRowAdded(commits, workspace, table, m, c, id, row);
  }

  /** A new last commit with an id above all others. */
  lemma OrderGrows(m: map<Id, Id>, c: Id, id: Id)
    requires Injective(m) && OrderKept(m) && forall k :: k in m ==> k.n < c.n && m[k].n < id.n
    ensures Injective(m[c := id]) && OrderKept(m[c := id])
  {
  }

  lemma NextIsLater(m: map<Id, Id>, order: seq<Id>, i: nat)
    requires i < |order| && IsPrefixOf(m, order, i)
    requires forall a, b :: 0 <= a < b < |order| ==> order[a].n < order[b].n
    ensures forall k :: k in m ==> k.n < order[i].n
  {
    forall k | k in m ensures k.n < order[i].n {
      var j :| 0 <= j < i && order[j] == k;
    }
  }

  lemma KnownParentIsBefore(commits: map<Id, Commit>, m: map<Id, Id>, order: seq<Id>, i: nat)
    requires IsOrder(commits.Keys, order) && i < |order| && IsPrefixOf(m, order, i) && order[i] in commits
    requires commits[order[i]].parent.Some? ==> commits[order[i]].parent.value in m
    ensures ParentBefore(commits, order[i])
  {
    if commits[order[i]].parent.Some? {
      var k :| 0 <= k < i && order[k] == commits[order[i]].parent.value;
      assert order[k] in order;
    }
  }

  /** The first `i` commits are copied, and their parents came before them. */
  ghost predicate CommitsDone(commits: map<Id, Commit>, workspace: Id, table0: map<Id, Owned<Commit>>,
                              table: map<Id, Owned<Commit>>, m: map<Id, Id>, order: seq<Id>, i: nat)
  {
    && IsPrefixOf(m, order, i)
    && CommitsCopied(commits, workspace, table0, table, m)
    && forall k :: 0 <= k < i ==> ParentBefore(commits, order[k])
  }

  lemma NoCommitDone(commits: map<Id, Commit>, workspace: Id, table0: map<Id, Owned<Commit>>, m: map<Id, Id>,
                     order: seq<Id>)
    requires m == map[]
    ensures CommitsDone(commits, workspace, table0, table0, m, order, 0)
  {
    assert forall c :: c !in m;
  }

  lemma CommitDone(commits: map<Id, Commit>, workspace: Id, table0: map<Id, Owned<Commit>>,
                   table: map<Id, Owned<Commit>>, m: map<Id, Id>, order: seq<Id>, i: nat, id: Id)
    requires IsOrder(commits.Keys, order) && i < |order| && id !in table && forall k :: k in table ==> k.n < id.n
    requires CommitsDone(commits, workspace, table0, table, m, order, i)
    requires order[i] in commits && (commits[order[i]].parent.Some? ==> commits[order[i]].parent.value in m)
    ensures order[i] !in m
    ensures CommitsDone(commits, workspace, table0,
                        table[id := Owned(workspace, RenameCommit(m, commits[order[i]]))], m[order[i] := id],
                        order, i + 1)
  {
    NextIsNew(commits.Keys, m, order, i);
    NextIsLater(m, order, i);
    CommitCopied(commits, workspace, table0, table, m, order[i], id);
    PrefixGrows(m, order, i, id);
    KnownParentIsBefore(commits, m, order, i);
  }

  /** A parent that is not in the map yet does not have a smaller id than its child. */
  lemma LateParent(commits: map<Id, Commit>, m: map<Id, Id>, order: seq<Id>, i: nat, parent: Id)
    requires IsOrder(commits.Keys, order) && i < |order| && IsPrefixOf(m, order, i)
    requires order[i] in commits && commits[order[i]].parent == Some(parent) && parent !in m
    ensures !ParentsFirst(commits)
  {
    if parent in commits {
      var k :| 0 <= k < |order| && order[k] == parent;
      assert k >= i;
    }
    assert !ParentBefore(commits, order[i]);
  }

  method CopyCommits(commits: map<Id, Commit>, workspace: Id, table0: map<Id, Owned<Commit>>)
    returns (ok: bool, table: map<Id, Owned<Commit>>, m: map<Id, Id>)
    ensures ok <==> ParentsFirst(commits)
    ensures ok ==> m.Keys == commits.Keys && CommitsCopied(commits, workspace, table0, table, m)
  {
    var order := Ascending(commits.Keys);
    ok, table, m := CopyCommitsInOrder(commits, workspace, table0, order);
    if ok {
      WholePrefix(commits.Keys, m, order);
      AllParentsFirst(commits, order);
    }
  }

  method CopyCommitsInOrder(commits: map<Id, Commit>, workspace: Id, table0: map<Id, Owned<Commit>>, order: seq<Id>)
    returns (ok: bool, table: map<Id, Owned<Commit>>, m: map<Id, Id>)
    requires IsOrder(commits.Keys, order)
    ensures ok ==> CommitsDone(commits, workspace, table0, table, m, order, |order|)
    ensures !ok ==> !ParentsFirst(commits)
  {
    ok, table, m := true, table0, map[];
    NoCommitDone(commits, workspace, table0, m, order);
    for i := 0 to |order|
      invariant CommitsDone(commits, workspace, table0, table, m, order, i)
    {
      NextIsNew(commits.Keys, m, order, i);
      var c := order[i];
      if commits[c].parent.Some? && commits[c].parent.value !in m {
        LateParent(commits, m, order, i, commits[c].parent.value);
        return false, table, m;
      }
      table, m := InsertCommit(commits, workspace, table0, table, m, order, i);
    }
  }

  method InsertCommit(commits: map<Id, Commit>, workspace: Id, ghost table0: map<Id, Owned<Commit>>,
                      table: map<Id, Owned<Commit>>, m: map<Id, Id>, order: seq<Id>, i: nat)
    returns (table': map<Id, Owned<Commit>>, m': map<Id, Id>)
    requires IsOrder(commits.Keys, order) && i < |order| && order[i] in commits
    requires CommitsDone(commits, workspace, table0, table, m, order, i)
    requires commits[order[i]].parent.Some? ==> commits[order[i]].parent.value in m
    ensures CommitsDone(commits, workspace, table0, table', m', order, i + 1)
  {
    var id := FreshId(table.Keys);
    CommitDone(commits, workspace, table0, table, m, order, i, id);
    table' := table[id := Owned(workspace, RenameCommit(m, commits[order[i]]))];
    m' := m[order[i] := id];
  }

  lemma AllParentsFirst(commits: map<Id, Commit>, order: seq<Id>)
    requires IsOrder(commits.Keys, order) && forall k :: 0 <= k < |order| ==> ParentBefore(commits, order[k])
    ensures ParentsFirst(commits)
  {
    forall c | c in commits ensures ParentBefore(commits, c) {
      var k :| 0 <= k < |order| && order[k] == c;
    }
  }

  // ----- Chunks -----

  datatype LocalChunk = LocalChunk(workspace: Id, inode: Id, chunk: Chunk)

  ghost predicate Owns(versions: map<VersionKey, Version>, k: VersionKey, m: Id) {
    k in versions && versions[k].manifest == Some(m) && versions[k].sourceVersion.None?
  }

  /** `GROUP BY source_manifest` with the least inode. */
  ghost predicate IsOwnerMap(versions: map<VersionKey, Version>, owner: map<Id, Id>) {
    && (forall m :: m in owner ==> exists k :: Owns(versions, k, m) && k.inode == owner[m])
    && (forall k, m :: Owns(versions, k, m) ==> m in owner && owner[m].n <= k.inode.n)
  }

  method OwnerMap(versions: map<VersionKey, Version>) returns (owner: map<Id, Id>)
    ensures IsOwnerMap(versions, owner)
  {
    owner := map[];
    var rest := versions.Keys;
    while rest != {}
      invariant rest <= versions.Keys
      invariant forall m :: m in owner ==> exists k :: Owns(versions, k, m) && k.inode == owner[m]
      invariant forall k, m :: Owns(versions, k, m) && k !in rest ==> m in owner && owner[m].n <= k.inode.n
      decreases |rest|
    {
      var k :| k in rest;
      rest := rest - {k};
      var v := versions[k];
      if v.manifest.Some? && v.sourceVersion.None? {
        var m := v.manifest.value;
        if m !in owner || k.inode.n < owner[m].n {
          assert Owns(versions, k, m);
          owner := owner[m := k.inode];
        }
      }
    }
  }

  datatype ReuseKey = ReuseKey(inode: Id, size: int, checksum: string)

  predicate Joined(owner: map<Id, Id>, inodes: map<Id, Id>, k: ChunkKey) {
    k.manifest in owner && owner[k.manifest] in inodes
  }

  function KeyOf(chunks: map<ChunkKey, Chunk>, owner: map<Id, Id>, inodes: map<Id, Id>, k: ChunkKey): ReuseKey
    requires k in chunks && Joined(owner, inodes, k)
  {
    ReuseKey(inodes[owner[k.manifest]], chunks[k].size, chunks[k].checksum)
  }

  function Zeros(n: int): seq<Byte> {
    seq(if n < 0 then 0 else n, _ => 0)
  }

  function EmptySlot(workspace: Id, r: ReuseKey): LocalChunk {
    LocalChunk(workspace, r.inode, Chunk(Zeros(r.size), r.size, r.checksum))
  }

  /** A slot as it is inserted: `r` and a blob of zeros. */
  ghost predicate IsBlank(slot: LocalChunk, workspace: Id, r: ReuseKey) {
    && slot.workspace == workspace && slot.inode == r.inode
    && slot.chunk.size == r.size && slot.chunk.checksum == r.checksum
    && |slot.chunk.content| == (if r.size < 0 then 0 else r.size)
    && forall o :: 0 <= o < |slot.chunk.content| ==> slot.chunk.content[o] == 0
  }

  /** The chunk's slot is the one for its owner's local inode, its size and its checksum. */
  ghost predicate IsPlaced(chunks: map<ChunkKey, Chunk>, owner: map<Id, Id>, inodes: map<Id, Id>,
                           reuse: map<ReuseKey, Id>, k: ChunkKey, id: Id)
  {
    && k in chunks && k.manifest in owner && owner[k.manifest] in inodes
    && var r := ReuseKey(inodes[owner[k.manifest]], chunks[k].size, chunks[k].checksum);
       r in reuse && reuse[r] == id
  }

  /** Chunks with the same local inode, size and checksum share a slot; other chunks do not. */
  ghost predicate ChunksPlaced(chunks: map<ChunkKey, Chunk>, owner: map<Id, Id>, inodes: map<Id, Id>, workspace: Id,
                               table0: map<Id, LocalChunk>, table: map<Id, LocalChunk>,
                               m: map<ChunkKey, Id>, reuse: map<ReuseKey, Id>)
  {
    && Extends(table0, table, reuse) && AllBlank(table, workspace, reuse)
    && AllPlaced(chunks, owner, inodes, m, reuse) && AllUsed(m, reuse)
  }

  ghost predicate AllBlank(table: map<Id, LocalChunk>, workspace: Id, reuse: map<ReuseKey, Id>) {
    forall r :: r in reuse ==> reuse[r] in table && IsBlank(table[reuse[r]], workspace, r)
  }

  lemma StillBlank(table: map<Id, LocalChunk>, workspace: Id, reuse: map<ReuseKey, Id>, r: ReuseKey, id: Id)
    requires AllBlank(table, workspace, reuse) && id !in table
    ensures AllBlank(table[id := EmptySlot(workspace, r)], workspace, reuse[r := id])
  {
    var table', reuse' := table[id := EmptySlot(workspace, r)], reuse[r := id];
    forall q | q in reuse' ensures reuse'[q] in table' && IsBlank(table'[reuse'[q]], workspace, q) {
      if q != r {
        assert IsBlank(table[reuse[q]], workspace, q);
      }
    }
  }

  ghost predicate AllPlaced(chunks: map<ChunkKey, Chunk>, owner: map<Id, Id>, inodes: map<Id, Id>,
                            m: map<ChunkKey, Id>, reuse: map<ReuseKey, Id>)
  {
    forall k :: k in m ==> IsPlaced(chunks, owner, inodes, reuse, k, m[k])
  }

  /** No slot is inserted for nothing. */
  ghost predicate AllUsed(m: map<ChunkKey, Id>, reuse: map<ReuseKey, Id>) {
    forall r :: r in reuse ==> exists k :: k in m && m[k] == reuse[r]
  }

  lemma StillUsed(m: map<ChunkKey, Id>, reuse: map<ReuseKey, Id>, k: ChunkKey, r: ReuseKey, id: Id)
    requires AllUsed(m, reuse) && k !in m && (r in reuse ==> reuse[r] == id)
    ensures AllUsed(m[k := id], reuse[r := id])
  {
    var m', reuse' := m[k := id], reuse[r := id];
    forall q | q in reuse' ensures exists j :: j in m' && m'[j] == reuse'[q] {
      if q == r {
        assert m'[k] == reuse'[q];
      } else {
        var j :| j in m && m[j] == reuse[q];
        assert m'[j] == reuse'[q];
      }
    }
  }

  lemma StillPlaced(chunks: map<ChunkKey, Chunk>, owner: map<Id, Id>, inodes: map<Id, Id>, m: map<ChunkKey, Id>,
                    reuse: map<ReuseKey, Id>, k: ChunkKey, r: ReuseKey, id: Id)
    requires AllPlaced(chunks, owner, inodes, m, reuse) && k in chunks && k !in m && Joined(owner, inodes, k)
    requires r == KeyOf(chunks, owner, inodes, k) && (r in reuse ==> reuse[r] == id)
    ensures AllPlaced(chunks, owner, inodes, m[k := id], reuse[r := id])
  {
    var m', reuse' := m[k := id], reuse[r := id];
    forall j | j in m' ensures IsPlaced(chunks, owner, inodes, reuse', j, m'[j]) {
      if j != k {
        assert IsPlaced(chunks, owner, inodes, reuse, j, m[j]);
      }
    }
  }

  lemma SlotReused(chunks: map<ChunkKey, Chunk>, owner: map<Id, Id>, inodes: map<Id, Id>, workspace: Id,
                   table0: map<Id, LocalChunk>, table: map<Id, LocalChunk>,
                   m: map<ChunkKey, Id>, reuse: map<ReuseKey, Id>, k: ChunkKey)
    requires ChunksPlaced(chunks, owner, inodes, workspace, table0, table, m, reuse) && k in chunks && k !in m
    requires Joined(owner, inodes, k) && KeyOf(chunks, owner, inodes, k) in reuse
    ensures ChunksPlaced(chunks, owner, inodes, workspace, table0, table,
                         m[k := reuse[KeyOf(chunks, owner, inodes, k)]], reuse)
  {
    var r := KeyOf(chunks, owner, inodes, k);
    StillUsed(m, reuse, k, r, reuse[r]);
    StillPlaced(chunks, owner, inodes, m, reuse, k, r, reuse[r]);
    assert reuse[r := reuse[r]] == reuse;
  }

  lemma SlotAdded(chunks: map<ChunkKey, Chunk>, owner: map<Id, Id>, inodes: map<Id, Id>, workspace: Id,
                  table0: map<Id, LocalChunk>, table: map<Id, LocalChunk>,
                  m: map<ChunkKey, Id>, reuse: map<ReuseKey, Id>, k: ChunkKey, id: Id)
    requires ChunksPlaced(chunks, owner, inodes, workspace, table0, table, m, reuse) && k in chunks && k !in m
    requires Joined(owner, inodes, k) && KeyOf(chunks, owner, inodes, k) !in reuse && id !in table
    ensures var r := KeyOf(chunks, owner, inodes, k);
            ChunksPlaced(chunks, owner, inodes, workspace, table0, table[id := EmptySlot(workspace, r)], m[k := id],
                         reuse[r := id])
  {
    var r := KeyOf(chunks, owner, inodes, k);
    ExtendsGrows(table0, table, reuse, r, id, EmptySlot(workspace, r));
    StillUsed(m, reuse, k, r, id);
    StillPlaced(chunks, owner, inodes, m, reuse, k, r, id);
    StillBlank(table, workspace, reuse, r, id);
  }

  /** The chunk loop of the import, over the joined chunk rows. */
  method PlaceChunks(chunks: map<ChunkKey, Chunk>, owner: map<Id, Id>, inodes: map<Id, Id>, workspace: Id,
                     table0: map<Id, LocalChunk>)
    returns (table: map<Id, LocalChunk>, m: map<ChunkKey, Id>, ghost reuse: map<ReuseKey, Id>)
    ensures ChunksPlaced(chunks, owner, inodes, workspace, table0, table, m, reuse)
    ensures forall k :: k in m <==> k in chunks && k.manifest in owner && owner[k.manifest] in inodes
  {
    table, m := table0, map[];
    var reusable: map<ReuseKey, Id> := map[];
    var rest := set k | k in chunks && Joined(owner, inodes, k);
    while rest != {}
      invariant forall k :: k in rest ==> k in chunks && Joined(owner, inodes, k) && k !in m
      invariant forall k :: k in m || k in rest <==> k in chunks && Joined(owner, inodes, k)
      invariant ChunksPlaced(chunks, owner, inodes, workspace, table0, table, m, reusable)
      decreases |rest|
    {
      var k :| k in rest;
      rest := rest - {k};
      var r := KeyOf(chunks, owner, inodes, k);
      if r in reusable {
        SlotReused(chunks, owner, inodes, workspace, table0, table, m, reusable, k);
      } else {
        var id := FreshId(table.Keys);
        SlotAdded(chunks, owner, inodes, workspace, table0, table, m, reusable, k, id);
        table, reusable := table[id := EmptySlot(workspace, r)], reusable[r := id];
      }
      m := m[k := reusable[r]];
    }
    reuse := reusable;
  }

  /** Two chunks share a slot exactly when they agree on local inode, size and checksum. */
  lemma SharedSlots(chunks: map<ChunkKey, Chunk>, owner: map<Id, Id>, inodes: map<Id, Id>, workspace: Id,
                    table0: map<Id, LocalChunk>, table: map<Id, LocalChunk>,
                    m: map<ChunkKey, Id>, reuse: map<ReuseKey, Id>, k: ChunkKey, k': ChunkKey)
    requires ChunksPlaced(chunks, owner, inodes, workspace, table0, table, m, reuse) && k in m && k' in m
    ensures k in chunks && k.manifest in owner && owner[k.manifest] in inodes
    ensures k' in chunks && k'.manifest in owner && owner[k'.manifest] in inodes
    ensures m[k] == m[k'] <==>
              && inodes[owner[k.manifest]] == inodes[owner[k'.manifest]]
              && chunks[k].size == chunks[k'].size && chunks[k].checksum == chunks[k'].checksum
  {
    assert IsPlaced(chunks, owner, inodes, reuse, k, m[k]) && IsPlaced(chunks, owner, inodes, reuse, k', m[k']);
    var r := ReuseKey(inodes[owner[k.manifest]], chunks[k].size, chunks[k].checksum);
    var r' := ReuseKey(inodes[owner[k'.manifest]], chunks[k'].size, chunks[k'].checksum);
    assert IsBlank(table[reuse[r]], workspace, r) && IsBlank(table[reuse[r']], workspace, r');
  }

  /** No two chunks of the package collide under the hash. */
  ghost predicate CollisionFree(sha: Sha, chunks: map<ChunkKey, Chunk>) {
    forall j, k :: j in chunks && k in chunks && sha(chunks[j].content) == sha(chunks[k].content) ==>
      chunks[j].content == chunks[k].content
  }

  /** Everything about a slot but its bytes. */
  ghost predicate SameSlot(a: LocalChunk, b: LocalChunk) {
    a.workspace == b.workspace && a.inode == b.inode &&
    a.chunk.size == b.chunk.size && a.chunk.checksum == b.chunk.checksum &&
    |a.chunk.content| == |b.chunk.content|
  }

  ghost predicate Filled(chunks: map<ChunkKey, Chunk>, m: map<ChunkKey, Id>,
                         table0: map<Id, LocalChunk>, table: map<Id, LocalChunk>, rest: set<ChunkKey>)
  {
    && table.Keys == table0.Keys
    && (forall id :: id in table ==> SameSlot(table[id], table0[id]))
    && (forall id :: id in table && (forall k :: k in m ==> m[k] != id) ==> table[id] == table0[id])
    && (forall k :: k in m && k !in rest ==>
          k in chunks && m[k] in table && table[m[k]].chunk.content == chunks[k].content)
  }

  /** `m` sends every chunk to a slot of its size and checksum. */
  ghost predicate SlotsFit(chunks: map<ChunkKey, Chunk>, m: map<ChunkKey, Id>, table: map<Id, LocalChunk>) {
    forall k :: k in m ==>
      && k in chunks && m[k] in table
      && table[m[k]].chunk.size == chunks[k].size && table[m[k]].chunk.checksum == chunks[k].checksum
      && |table[m[k]].chunk.content| == chunks[k].size
  }

  /** `CopyImportedChunks`. A slot shared by several chunks is written several times, each time with
      the same bytes because the checksums agree. The size and checksum errors cannot be raised. */
  method CopyImportedChunks(sha: Sha, chunks: map<ChunkKey, Chunk>, m: map<ChunkKey, Id>, table0: map<Id, LocalChunk>)
    returns (table: map<Id, LocalChunk>)
    requires CollisionFree(sha, chunks) && SlotsFit(chunks, m, table0)
    requires forall k :: k in chunks ==>
               |chunks[k].content| == chunks[k].size && sha(chunks[k].content) == chunks[k].checksum
    ensures Filled(chunks, m, table0, table, {})
  {
    table := table0;
    var rest := m.Keys;
    while rest != {}
      invariant rest <= m.Keys && Filled(chunks, m, table0, table, rest)
      decreases |rest|
    {
      var k :| k in rest;
      var slot := table[m[k]];
      assert |chunks[k].content| == chunks[k].size == |slot.chunk.content|;
      SlotFilled(sha, chunks, m, table0, table, rest, k);
      table := table[m[k] := slot.(chunk := slot.chunk.(content := chunks[k].content))];
      rest := rest - {k};
    }
  }

  lemma SlotFilled(sha: Sha, chunks: map<ChunkKey, Chunk>, m: map<ChunkKey, Id>,
                   table0: map<Id, LocalChunk>, table: map<Id, LocalChunk>, rest: set<ChunkKey>, k: ChunkKey)
    requires CollisionFree(sha, chunks) && SlotsFit(chunks, m, table0) && k in m
    requires forall j :: j in chunks ==>
               |chunks[j].content| == chunks[j].size && sha(chunks[j].content) == chunks[j].checksum
    requires Filled(chunks, m, table0, table, rest) && m[k] in table
    ensures var slot := table[m[k]];
            Filled(chunks, m, table0, table[m[k] := slot.(chunk := slot.chunk.(content := chunks[k].content))],
                   rest - {k})
  {
    var slot := table[m[k]];
    var table' := table[m[k] := slot.(chunk := slot.chunk.(content := chunks[k].content))];
    forall j | j in m && j !in rest - {k}
      ensures j in chunks && m[j] in table' && table'[m[j]].chunk.content == chunks[j].content
    {
      if m[j] == m[k] {
        assert sha(chunks[j].content) == sha(chunks[k].content);
      }
    }
  }
}
