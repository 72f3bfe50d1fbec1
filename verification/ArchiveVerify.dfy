/** The archive verifier as a whole (agent_files/cli/vexfs_archive.cpp): reference checks, tree check and
    the content check of every manifest. The container, the format version, the record checksums and the
    package checksum are not part of it. */
module ArchiveVerify {
  import opened Basics
  import opened ArchivePackage
  import opened ArchiveReferences
  import opened ArchiveTree
  import opened ArchiveChunks
  import opened ArchiveImport

  // ----- The chunk rows of a manifest, in order -----

  /** The chunk numbers of a manifest, as ids so that they can be put in order. */
  function NumbersOf(p: Package, m: Id): set<Id> {
    set k | k in p.chunks && k.manifest == m :: Id(k.chunkNo)
  }

  lemma NumberIsChunk(p: Package, m: Id, n: Id)
    ensures n in NumbersOf(p, m) <==> ChunkKey(m, n.n) in p.chunks
  {
    if ChunkKey(m, n.n) in p.chunks {
      assert Id(ChunkKey(m, n.n).chunkNo) == n;
    }
  }

  /** `SELECT ... WHERE source_manifest=?1 ORDER BY chunk_no`. */
  method ChunkRows(p: Package, m: Id) returns (rows: seq<Row>)
    ensures RowsOf(p, m, rows)
  {
    var order := Ascending(NumbersOf(p, m));
    forall i | 0 <= i < |order| ensures ChunkKey(m, order[i].n) in p.chunks {
      assert order[i] in order;
      NumberIsChunk(p, m, order[i]);
    }
    rows := seq(|order|, i requires 0 <= i < |order| => Row(order[i].n, p.chunks[ChunkKey(m, order[i].n)]));
    forall k | k in p.chunks && k.manifest == m ensures exists i :: 0 <= i < |rows| && rows[i].chunkNo == k.chunkNo {
      NumberIsChunk(p, m, Id(k.chunkNo));
      assert Id(k.chunkNo) in order;
      var i: nat :| i < |order| && order[i] == Id(k.chunkNo);
      assert rows[i].chunkNo == k.chunkNo;
    }
  }

  /** An ascending listing of a set is the only one. */
  lemma {:induction false} OrdersAgree(keys: set<Id>, a: seq<Id>, b: seq<Id>, n: nat)
    requires IsOrder(keys, a) && IsOrder(keys, b) && n <= |a| && n <= |b|
    ensures forall i :: 0 <= i < n ==> a[i] == b[i]
  {
    if n > 0 {
      OrdersAgree(keys, a, b, n - 1);
      NotBefore(keys, a, b, n - 1);
      NotBefore(keys, b, a, n - 1);
    }
  }

  /** Past a common front, the next of one listing is no smaller than the next of the other. */
  lemma NotBefore(keys: set<Id>, a: seq<Id>, b: seq<Id>, n: nat)
    requires IsOrder(keys, a) && IsOrder(keys, b) && n < |a| && n < |b|
    requires forall i :: 0 <= i < n ==> a[i] == b[i]
    ensures b[n].n <= a[n].n
  {
    assert a[n] in a;
    assert a[n] in b;
    var j: nat :| j < |b| && b[j] == a[n];
  }

  lemma OrderIsUnique(keys: set<Id>, a: seq<Id>, b: seq<Id>)
    requires IsOrder(keys, a) && IsOrder(keys, b)
    ensures a == b
  {
    NotLonger(keys, a, b);
    NotLonger(keys, b, a);
    OrdersAgree(keys, a, b, |a|);
  }

  lemma NotLonger(keys: set<Id>, a: seq<Id>, b: seq<Id>)
    requires IsOrder(keys, a) && IsOrder(keys, b)
    ensures |a| <= |b|
  {
    if |a| > |b| {
      var x := a[|b|];
      assert x in a;
      assert x in b;
      var j: nat :| j < |b| && b[j] == x;
      OrdersAgree(keys, a, b, |b|);
    }
  }

  lemma RowsAreUnique(p: Package, m: Id, rows: seq<Row>, rows': seq<Row>)
    requires RowsOf(p, m, rows) && RowsOf(p, m, rows')
    ensures rows == rows'
  {
    var a, b := Numbers(rows), Numbers(rows');
    NumbersAreOrdered(p, m, rows);
    NumbersAreOrdered(p, m, rows');
    OrderIsUnique(NumbersOf(p, m), a, b);
    forall i | 0 <= i < |rows| ensures rows[i] == rows'[i] {
      assert a[i] == b[i];
    }
  }

  ghost function Numbers(rows: seq<Row>): (r: seq<Id>)
    ensures |r| == |rows|
  {
    seq(|rows|, i requires 0 <= i < |rows| => Id(rows[i].chunkNo))
  }

  lemma NumbersAreOrdered(p: Package, m: Id, rows: seq<Row>)
    requires RowsOf(p, m, rows)
    ensures IsOrder(NumbersOf(p, m), Numbers(rows))
  {
    var order := Numbers(rows);
    forall n ensures n in order <==> n in NumbersOf(p, m) {
      NumberIsChunk(p, m, n);
      if n in order {
        var i: nat :| i < |order| && order[i] == n;
      }
      if n in NumbersOf(p, m) {
        var i :| 0 <= i < |rows| && rows[i].chunkNo == ChunkKey(m, n.n).chunkNo;
        assert order[i] == n;
      }
    }
  }

  // ----- The verifier -----

  /** The chunk rows of the manifest, in order, are the canonical split of its file. */
  ghost predicate ManifestOk(p: Package, sha: Sha, sum: ManifestSum, m: Id)
    requires m in p.manifests
  {
    exists rows :: RowsOf(p, m, rows) && Canonical(p.manifests[m], sha, sum, rows)
  }

  /** What the verifier promises about the tables: nothing they name is missing, the entries form a tree of
      directories, and the chunks of every manifest are its file. */
  ghost predicate Acceptable(p: Package, sha: Sha, sum: ManifestSum) {
    ReferencesClosed(p) && GenuineTree(p) && forall m :: m in p.manifests ==> ManifestOk(p, sha, sum, m)
  }

  ghost predicate Verified(p: Package, sha: Sha) {
    ReferencesOk(p) && TreeCheck(p) && ContentOk(p, sha)
  }

  lemma CheckedIff(p: Package)
    ensures ReferencesOk(p) && TreeCheck(p) <==> ReferencesClosed(p) && GenuineTree(p)
  {
    ReferencesOkIff(p);
    if ReferencesOk(p) {
      TreeCheckIff(p);
    }
  }

  lemma AcceptableIsVerified(p: Package, sha: Sha, sum: ManifestSum)
    requires Acceptable(p, sha, sum)
    ensures Verified(p, sha)
  {
    CheckedIff(p);
    ContentIsOk(p, sha, sum);
  }

  lemma ContentIsOk(p: Package, sha: Sha, sum: ManifestSum)
    requires ChunksOk(p) && forall m :: m in p.manifests ==> ManifestOk(p, sha, sum, m)
    ensures ContentOk(p, sha)
  {
    forall m | m in p.manifests ensures PiecesInTable(p, sha, m) {
      assert ManifestOk(p, sha, sum, m);
      var rows :| RowsOf(p, m, rows) && Canonical(p.manifests[m], sha, sum, rows);
      CanonicalFillsTable(p, sha, sum, m, rows);
    }
  }

  /** The content check of one manifest, on its rows as the query returns them. */
  method VerifyContent(p: Package, sha: Sha, sum: ManifestSum, m: Id) returns (ok: bool)
    requires m in p.manifests
    ensures ok <==> ManifestOk(p, sha, sum, m)
  {
    var rows := ChunkRows(p, m);
    ok := VerifyManifest(p.manifests[m], sha, sum, rows);
    forall rows' | RowsOf(p, m, rows') && Canonical(p.manifests[m], sha, sum, rows')
      ensures rows' == rows
    {
      RowsAreUnique(p, m, rows, rows');
    }
  }

  /** The reference checks and the tree check. */
  method VerifyTables(p: Package) returns (ok: bool)
    ensures ok <==> ReferencesClosed(p) && GenuineTree(p)
  {
    CheckedIff(p);
    ok := ReferencesOk(p) && TreeCheck(p);
  }

  /** `VerifyAttachedArchive`: it accepts if and only if nothing named is missing, the entries form a tree and every
      manifest's rows are the canonical split of its file; then the chunk table holds exactly the files' pieces. */
  method VerifyArchive(p: Package, sha: Sha, sum: ManifestSum) returns (ok: bool)
    ensures ok <==> Acceptable(p, sha, sum)
    ensures ok ==> Verified(p, sha)
  {
    ok := VerifyTables(p);
    if !ok {
      return false;
    }
    ok := VerifyManifests(p, sha, sum);
    if ok {
      AcceptableIsVerified(p, sha, sum);
    }
  }

  method VerifyManifests(p: Package, sha: Sha, sum: ManifestSum) returns (ok: bool)
    ensures ok <==> forall m :: m in p.manifests ==> ManifestOk(p, sha, sum, m)
  {
    var order := Ascending(p.manifests.Keys);
    for i := 0 to |order|
      invariant forall j :: 0 <= j < i ==> order[j] in p.manifests && ManifestOk(p, sha, sum, order[j])
    {
      assert order[i] in order;
      var good := VerifyContent(p, sha, sum, order[i]);
      if !good {
        return false;
      }
    }
    forall m | m in p.manifests ensures ManifestOk(p, sha, sum, m) {
      assert m in order;
    }
    return true;
  }
}
