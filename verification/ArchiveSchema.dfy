/** What the target tables refuse (vexdb_sqlite/src/agent_files/vexfs_sqlite.cpp): primary keys, CHECK
    constraints and the usage counters kept by a trigger, for the rows an import inserts. */
module ArchiveSchema {
  import opened Basics
  import opened ArchivePackage
  import opened ArchiveChunks
  import opened ArchiveImport

  // ----- Keys and checks, table by table -----

  /** The columns the primary keys of the joined tables are made of, next to the workspace. */
  datatype RowKey = RowKey(inode: Id, commit: Option<Id>, name: string, effect: string)

  predicate IsKind(kind: string) { kind in {"file", DIRECTORY, "symlink"} }

  predicate IsFlag(x: int) { x == 0 || x == 1 }

  function InodeStateKey(s: InodeState): RowKey { RowKey(s.inode, Some(s.commit), "", "") }

  predicate InodeStateCheck(s: InodeState) { IsKind(s.kind) }

  function DentryKey(e: Dentry): RowKey { RowKey(e.parent, None, e.name, "") }

  // The table has no CHECK.
  predicate DentryCheck(e: Dentry) { true }

  function DentryStateKey(s: DentryState): RowKey { RowKey(s.parent, Some(s.commit), s.name, "") }

  predicate DentryStateCheck(s: DentryState) { IsFlag(s.deleted) }

  function XattrKey(x: Xattr): RowKey { RowKey(x.inode, None, x.name, "") }

  // The table has no CHECK.
  predicate XattrCheck(x: Xattr) { true }

  function XattrStateKey(s: XattrState): RowKey { RowKey(s.inode, Some(s.commit), s.name, "") }

  predicate XattrStateCheck(s: XattrState) { IsFlag(s.deleted) }

  function AclEntryKey(e: AclEntry): RowKey { RowKey(e.inode, None, e.principal, e.effect) }

  predicate AclEntryCheck(e: AclEntry) { e.effect in {"allow", "deny"} && e.inheritFlags >= 0 }

  function AclStateKey(s: AclState): RowKey { RowKey(s.inode, Some(s.commit), s.principal, s.effect) }

  predicate AclStateCheck(s: AclState) { IsFlag(s.deleted) }

  predicate NotNegative(o: Option<int>) { o.Some? ==> o.value >= 0 }

  predicate SettingsCheck(s: Settings) {
    && s.keepVersions >= 0 && s.keepDays >= 0 && s.agentKeep >= 0 && s.safetyKeep >= 0 && s.snapshotDays >= 0
    && NotNegative(s.maxBytes) && NotNegative(s.maxFiles) && NotNegative(s.maxFileBytes)
  }

  /** The numbers the settings hold. */
  ghost function Limits(s: Settings): set<int> {
    {s.keepVersions, s.keepDays, s.agentKeep, s.safetyKeep, s.snapshotDays}
    + Given(s.maxBytes) + Given(s.maxFiles) + Given(s.maxFileBytes)
  }

  ghost function Given(o: Option<int>): set<int> {
    if o.Some? then {o.value} else {}
  }

  /** No number among the settings is negative. */
  ghost predicate SettingsFit(s: Settings) {
    forall x :: x in Limits(s) ==> x >= 0
  }

  lemma SettingsFitIff(s: Settings)
    ensures SettingsCheck(s) <==> SettingsFit(s)
  {
    assert {s.keepVersions, s.keepDays, s.agentKeep, s.safetyKeep, s.snapshotDays} <= Limits(s);
    assert Given(s.maxBytes) <= Limits(s) && Given(s.maxFiles) <= Limits(s) && Given(s.maxFileBytes) <= Limits(s);
  }

  ghost predicate ManifestCheck(m: Manifest) {
    m.fileSize >= 0 && m.chunkSize == CHUNK && m.chunkCount >= 0 && |m.checksum| == HEX_LENGTH
  }

  ghost predicate ChunkCheck(c: Chunk) { 0 <= c.size <= CHUNK && |c.checksum| == HEX_LENGTH }

  ghost predicate VersionCheck(v: Version) {
    |v.checksum| == HEX_LENGTH && (v.manifest.Some? <==> v.sourceVersion.None?)
  }

  ghost predicate SnapshotCheck(s: Snapshot) { s.kind in {"manual", "agent", "safety"} }

  // ----- Inserting rows -----

  /** No row is refused: every one passes the check, and no two have the same key. */
  ghost predicate Fits<T(!new), K(!new)>(rows: seq<T>, key: T -> K, check: T -> bool) {
    && (forall i :: 0 <= i < |rows| ==> check(rows[i]))
    && (forall i, j :: 0 <= i < j < |rows| ==> key(rows[i]) != key(rows[j]))
  }

  /** Row by row; the first refused row fails the statement. */
  method InsertRows<T(!new), K(!new, ==)>(before: seq<T>, rows: seq<T>, key: T -> K, check: T -> bool)
    returns (ok: bool, out: seq<T>)
    requires forall i, j :: 0 <= i < |before| && 0 <= j < |rows| ==> key(before[i]) != key(rows[j])
    ensures ok <==> Fits(rows, key, check)
    ensures ok ==> out == before + rows
  {
    ok, out := true, before;
    for n := 0 to |rows|
      invariant |out| == |before| + n && before <= out && forall i :: 0 <= i < n ==> out[|before| + i] == rows[i]
      invariant forall i :: 0 <= i < n ==> check(rows[i])
      invariant forall i, j :: 0 <= i < j < n ==> key(rows[i]) != key(rows[j])
    {
      if !check(rows[n]) {
        return false, before;
      }
      if exists i :: 0 <= i < |out| && key(out[i]) == key(rows[n]) {
        ghost var i :| 0 <= i < |out| && key(out[i]) == key(rows[n]);
        assert i >= |before| && out[i] == rows[i - |before|];
        return false, before;
      }
      forall i | 0 <= i < n ensures key(rows[i]) != key(rows[n]) {
        assert out[|before| + i] == rows[i];
      }
      out := out + [rows[n]];
    }
    assert out == before + rows;
  }

  /** Renaming rows one-to-one changes neither which keys are equal nor what passes the check. */
  lemma FitsRenamed<R(!new), T(!new), K(!new), L(!new)>(rows: seq<R>, key: R -> K, check: R -> bool,
                                                        images: seq<T>, key': T -> L, check': T -> bool)
    requires |images| == |rows|
    requires forall i :: 0 <= i < |rows| ==> check'(images[i]) == check(rows[i])
    requires forall i, j :: 0 <= i < |rows| && 0 <= j < |rows| ==>
               (key'(images[i]) == key'(images[j]) <==> key(rows[i]) == key(rows[j]))
    ensures Fits(images, key', check') <==> Fits(rows, key, check)
  {
  }

  // ----- Which rows fit, column by column -----

  ghost predicate KnownKind(kind: string) {
    kind == "file" || kind == "directory" || kind == "symlink"
  }

  lemma KindIsKnown(kind: string)
    ensures IsKind(kind) <==> KnownKind(kind)
  {
  }

  ghost predicate InodeStatesFit(rows: seq<InodeState>) {
    && (forall i :: 0 <= i < |rows| ==> KnownKind(rows[i].kind))
    && (forall i, j :: 0 <= i < j < |rows| ==> rows[i].inode != rows[j].inode || rows[i].commit != rows[j].commit)
  }

  ghost predicate DentriesFit(rows: seq<Dentry>) {
    forall i, j :: 0 <= i < j < |rows| ==> rows[i].parent != rows[j].parent || rows[i].name != rows[j].name
  }

  ghost predicate DentryStatesFit(rows: seq<DentryState>) {
    && (forall i :: 0 <= i < |rows| ==> 0 <= rows[i].deleted <= 1)
    && (forall i, j :: 0 <= i < j < |rows| ==>
          rows[i].parent != rows[j].parent || rows[i].name != rows[j].name || rows[i].commit != rows[j].commit)
  }

  ghost predicate XattrsFit(rows: seq<Xattr>) {
    forall i, j :: 0 <= i < j < |rows| ==> rows[i].inode != rows[j].inode || rows[i].name != rows[j].name
  }

  ghost predicate XattrStatesFit(rows: seq<XattrState>) {
    && (forall i :: 0 <= i < |rows| ==> 0 <= rows[i].deleted <= 1)
    && (forall i, j :: 0 <= i < j < |rows| ==>
          rows[i].inode != rows[j].inode || rows[i].name != rows[j].name || rows[i].commit != rows[j].commit)
  }

  ghost predicate AclEntriesFit(rows: seq<AclEntry>) {
    && (forall i :: 0 <= i < |rows| ==>
          (rows[i].effect == "allow" || rows[i].effect == "deny") && rows[i].inheritFlags >= 0)
    && (forall i, j :: 0 <= i < j < |rows| ==>
          rows[i].inode != rows[j].inode || rows[i].principal != rows[j].principal || rows[i].effect != rows[j].effect)
  }

  ghost predicate AclStatesFit(rows: seq<AclState>) {
    && (forall i :: 0 <= i < |rows| ==> 0 <= rows[i].deleted <= 1)
    && (forall i, j :: 0 <= i < j < |rows| ==>
          || rows[i].inode != rows[j].inode || rows[i].principal != rows[j].principal
          || rows[i].effect != rows[j].effect || rows[i].commit != rows[j].commit)
  }

  // Keys and checks say the same.

  lemma InodeStatesInColumns(rows: seq<InodeState>)
    ensures Fits(rows, InodeStateKey, InodeStateCheck) <==> InodeStatesFit(rows)
  {
  }

  lemma DentriesInColumns(rows: seq<Dentry>)
    ensures Fits(rows, DentryKey, DentryCheck) <==> DentriesFit(rows)
  {
  }

  lemma DentryStatesInColumns(rows: seq<DentryState>)
    ensures Fits(rows, DentryStateKey, DentryStateCheck) <==> DentryStatesFit(rows)
  {
  }

  lemma XattrsInColumns(rows: seq<Xattr>)
    ensures Fits(rows, XattrKey, XattrCheck) <==> XattrsFit(rows)
  {
  }

  lemma XattrStatesInColumns(rows: seq<XattrState>)
    ensures Fits(rows, XattrStateKey, XattrStateCheck) <==> XattrStatesFit(rows)
  {
  }

  lemma AclEntriesInColumns(rows: seq<AclEntry>)
    ensures Fits(rows, AclEntryKey, AclEntryCheck) <==> AclEntriesFit(rows)
  {
  }

  lemma AclStatesInColumns(rows: seq<AclState>)
    ensures Fits(rows, AclStateKey, AclStateCheck) <==> AclStatesFit(rows)
  {
  }

  // ----- Inodes and the usage counters -----

  predicate CountsAsFile(i: Inode) { i.kind != DIRECTORY && i.deletedAt.None? }

  ghost predicate IsLiveFile(i: Inode) {
    i.kind != "directory" && i.deletedAt == None
  }

  ghost function FileBytes(i: Inode): int { if IsLiveFile(i) then i.size else 0 }

  /** The bytes of the live files among these inodes. */
  ghost function LiveBytes(inodes: map<Id, Inode>, ids: set<Id>): int
    requires ids <= inodes.Keys
  {
    if ids == {} then 0
    else
      var x :| x in ids;
      FileBytes(inodes[x]) + LiveBytes(inodes, ids - {x})
  }

  lemma {:induction false} LiveBytesWithout(inodes: map<Id, Inode>, ids: set<Id>, x: Id)
    requires ids <= inodes.Keys && x in ids
    ensures LiveBytes(inodes, ids) == FileBytes(inodes[x]) + LiveBytes(inodes, ids - {x})
    decreases |ids|
  {
    var y :| y in ids && LiveBytes(inodes, ids) == FileBytes(inodes[y]) + LiveBytes(inodes, ids - {y});
    if y != x {
      LiveBytesWithout(inodes, ids - {y}, x);
      LiveBytesWithout(inodes, ids - {x}, y);
      assert ids - {y} - {x} == ids - {x} - {y};
    }
  }

  ghost function FilesOf(inodes: map<Id, Inode>): set<Id> {
    set x | x in inodes && IsLiveFile(inodes[x])
  }

  ghost function LiveFiles(inodes: map<Id, Inode>, ids: set<Id>): nat {
    |ids * FilesOf(inodes)|
  }

  lemma LiveFilesWith(inodes: map<Id, Inode>, ids: set<Id>, x: Id)
    requires x in inodes && x !in ids
    ensures LiveFiles(inodes, ids + {x}) == LiveFiles(inodes, ids) + (if IsLiveFile(inodes[x]) then 1 else 0)
  {
    var before, after := ids * FilesOf(inodes), (ids + {x}) * FilesOf(inodes);
    assert after == if IsLiveFile(inodes[x]) then before + {x} else before;
  }

  ghost function UpTo(ids: set<Id>, last: Id): (r: set<Id>)
    ensures r <= ids
  {
    set x | x in ids && x.n <= last.n
  }

  /** Every inode has a known kind, and the running count of live bytes, in id order, is never negative. */
  ghost predicate InodesFit(inodes: map<Id, Inode>) {
    forall x :: x in inodes ==> InodeFits(inodes, x)
  }

  ghost predicate InodeFits(inodes: map<Id, Inode>, x: Id)
    requires x in inodes
  {
    KnownKind(inodes[x].kind) && (IsLiveFile(inodes[x]) ==> LiveBytes(inodes, UpTo(inodes.Keys, x)) >= 0)
  }

  lemma {:induction false} PlainSizesFit(inodes: map<Id, Inode>, ids: set<Id>)
    requires ids <= inodes.Keys && forall x :: x in ids ==> FileBytes(inodes[x]) >= 0
    ensures LiveBytes(inodes, ids) >= 0
    decreases |ids|
  {
    if ids != {} {
      var x :| x in ids;
      LiveBytesWithout(inodes, ids, x);
      PlainSizesFit(inodes, ids - {x});
    }
  }

  /** Inodes of known kinds and no negative size always fit. */
  lemma PlainInodesFit(inodes: map<Id, Inode>)
    requires forall x :: x in inodes ==> KnownKind(inodes[x].kind) && FileBytes(inodes[x]) >= 0
    ensures InodesFit(inodes)
  {
    forall x | x in inodes ensures InodeFits(inodes, x) {
      PlainSizesFit(inodes, UpTo(inodes.Keys, x));
    }
  }

  /** The counters of the workspace row after the trigger has run for these inodes. */
  datatype Usage = Usage(files: int, bytes: int)

  ghost predicate IsUsage(inodes: map<Id, Inode>, ids: set<Id>, u: Usage) {
    ids <= inodes.Keys && u.files == LiveFiles(inodes, ids) && u.bytes == LiveBytes(inodes, ids)
  }

  function Counted(u: Usage, i: Inode): Usage {
    if CountsAsFile(i) then Usage(u.files + 1, u.bytes + i.size) else u
  }

  lemma UsageGrows(inodes: map<Id, Inode>, ids: set<Id>, u: Usage, x: Id)
    requires IsUsage(inodes, ids, u) && x in inodes && x !in ids
    ensures IsUsage(inodes, ids + {x}, Counted(u, inodes[x]))
  {
    LiveFilesWith(inodes, ids, x);
    LiveBytesWithout(inodes, ids + {x}, x);
    assert ids + {x} - {x} == ids;
  }

  /** In id order, the inodes done with the next one are those up to it. */
  lemma DoneIsUpTo(keys: set<Id>, m: map<Id, Id>, order: seq<Id>, i: nat)
    requires IsOrder(keys, order) && i < |order| && IsPrefixOf(m, order, i)
    ensures m.Keys + {order[i]} == UpTo(keys, order[i])
  {
    forall x | x in UpTo(keys, order[i]) ensures x in m.Keys + {order[i]} {
      assert x in order;
      var k: nat :| k < |order| && order[k] == x;
    }
    forall x | x in m.Keys + {order[i]} ensures x in UpTo(keys, order[i]) {
      if x in m {
        var k :| 0 <= k < i && order[k] == x;
        assert order[k] in order;
      } else {
        assert order[i] in order;
      }
    }
  }

  /** The first `i` inodes are copied, they fit, and the counters count them. */
  ghost predicate InodesDone(inodes: map<Id, Inode>, workspace: Id, table0: map<Id, Owned<Inode>>,
                             table: map<Id, Owned<Inode>>, m: map<Id, Id>, u: Usage, order: seq<Id>, i: nat)
  {
    && IsPrefixOf(m, order, i)
    && RowsCopied(inodes, workspace, table0, table, m)
    && IsUsage(inodes, m.Keys, u) && u.bytes >= 0
    && forall k :: 0 <= k < i ==> order[k] in inodes && InodeFits(inodes, order[k])
  }

  /** The next inode fits exactly when the table and the trigger take it. */
  lemma NextInode(inodes: map<Id, Inode>, m: map<Id, Id>, u: Usage, order: seq<Id>, i: nat)
    requires IsOrder(inodes.Keys, order) && i < |order| && IsPrefixOf(m, order, i)
    requires IsUsage(inodes, m.Keys, u) && u.bytes >= 0
    ensures order[i] in inodes && order[i] !in m
    ensures IsUsage(inodes, m.Keys + {order[i]}, Counted(u, inodes[order[i]]))
    ensures InodeFits(inodes, order[i]) <==>
              KnownKind(inodes[order[i]].kind) && Counted(u, inodes[order[i]]).bytes >= 0
  {
    NextIsNew(inodes.Keys, m, order, i);
    UsageGrows(inodes, m.Keys, u, order[i]);
    DoneIsUpTo(inodes.Keys, m, order, i);
  }

  lemma InodeDone(inodes: map<Id, Inode>, workspace: Id, table0: map<Id, Owned<Inode>>,
                  table: map<Id, Owned<Inode>>, m: map<Id, Id>, u: Usage, u': Usage, order: seq<Id>, i: nat, id: Id)
    requires InodesDone(inodes, workspace, table0, table, m, u, order, i) && i < |order| && id !in table
    requires order[i] in inodes && order[i] !in m && InodeFits(inodes, order[i])
    requires IsUsage(inodes, m.Keys + {order[i]}, u') && u'.bytes >= 0
    ensures InodesDone(inodes, workspace, table0, table[id := Owned(workspace, inodes[order[i]])],
                       m[order[i] := id], u', order, i + 1)
  {
    RowCopied(inodes, workspace, table0, table, m, order[i], id);
    PrefixGrows(m, order, i, id);
    assert m[order[i] := id].Keys == m.Keys + {order[i]};
  }

  /** The inode loop: one insert and one map entry per row, and the trigger after each. */
  method CopyInodes(inodes: map<Id, Inode>, workspace: Id, table0: map<Id, Owned<Inode>>, u0: Usage)
    returns (ok: bool, table: map<Id, Owned<Inode>>, m: map<Id, Id>, u: Usage)
    requires u0.files == u0.bytes == 0
    ensures ok <==> InodesFit(inodes)
    ensures ok ==> m.Keys == inodes.Keys && RowsCopied(inodes, workspace, table0, table, m)
    ensures ok ==> IsUsage(inodes, inodes.Keys, u)
  {
    var order := Ascending(inodes.Keys);
    ok, table, m, u := CopyInodesInOrder(inodes, workspace, table0, u0, order);
    if ok {
      WholePrefix(inodes.Keys, m, order);
      forall x | x in inodes ensures InodeFits(inodes, x) {
        assert x in order;
      }
    }
  }

  method CopyInodesInOrder(inodes: map<Id, Inode>, workspace: Id, table0: map<Id, Owned<Inode>>, u0: Usage,
                           order: seq<Id>)
    returns (ok: bool, table: map<Id, Owned<Inode>>, m: map<Id, Id>, u: Usage)
    requires IsOrder(inodes.Keys, order) && u0.files == u0.bytes == 0
    ensures ok ==> InodesDone(inodes, workspace, table0, table, m, u, order, |order|)
    ensures !ok ==> !InodesFit(inodes)
  {
    ok, table, m, u := true, table0, map[], u0;
    NoInodeDone(inodes, workspace, table0, m, order);
    for i := 0 to |order|
      invariant InodesDone(inodes, workspace, table0, table, m, u, order, i)
    {
      NextInode(inodes, m, u, order, i);
      KindIsKnown(inodes[order[i]].kind);
      var row := inodes[order[i]];
      var next := Counted(u, row);
      if !IsKind(row.kind) || next.bytes < 0 {
        return false, table, m, u;
      }
      var id := FreshId(table.Keys);
      InodeDone(inodes, workspace, table0, table, m, u, next, order, i, id);
      table, m, u := table[id := Owned(workspace, row)], m[order[i] := id], next;
    }
  }

  lemma NoInodeDone(inodes: map<Id, Inode>, workspace: Id, table0: map<Id, Owned<Inode>>, m: map<Id, Id>,
                    order: seq<Id>)
    requires m == map[]
    ensures InodesDone(inodes, workspace, table0, table0, m, Usage(0, 0), order, 0)
  {
    assert m.Keys == {} && m.Keys * FilesOf(inodes) == {};
  }

  // ----- What a package must satisfy -----

  ghost predicate RowsFit(p: Package) {
    && InodeStatesFit(p.inodeStates) && DentriesFit(p.dentries) && DentryStatesFit(p.dentryStates)
    && XattrsFit(p.xattrs) && XattrStatesFit(p.xattrStates)
    && AclEntriesFit(p.aclEntries) && AclStatesFit(p.aclStates)
  }

  /** The target schema refuses no row of the package. */
  ghost predicate TargetFits(p: Package) {
    SettingsFit(p.head.settings) && InodesFit(p.inodes) && RowsFit(p)
  }

  /** The other tables never refuse a row of a verified package. */
  lemma OtherRowsPass(p: Package, sha: Sha)
    requires VersionsOk(p) && ManifestsOk(p) && SnapshotsOk(p) && ContentOk(p, sha)
    ensures forall m :: m in p.manifests ==> ManifestCheck(p.manifests[m])
    ensures forall k :: k in p.chunks ==> k.chunkNo >= 0 && ChunkCheck(p.chunks[k])
    ensures forall k :: k in p.versions ==> VersionCheck(p.versions[k])
    ensures forall n :: n in p.snapshots ==> SnapshotCheck(p.snapshots[n])
  {
    forall m | m in p.manifests ensures ManifestCheck(p.manifests[m]) {
      assert PiecesInTable(p, sha, m);
    }
    forall k | k in p.chunks ensures k.chunkNo >= 0 && ChunkCheck(p.chunks[k]) {
      ChunkPasses(p, sha, k);
    }
    forall k | k in p.versions ensures VersionCheck(p.versions[k]) {
      VersionPasses(p, sha, k);
    }
  }

  lemma ChunkPasses(p: Package, sha: Sha, k: ChunkKey)
    requires ContentOk(p, sha) && k in p.chunks
    ensures k.chunkNo >= 0 && ChunkCheck(p.chunks[k])
  {
    assert PiecesInTable(p, sha, k.manifest);
    assert ChunkKey(k.manifest, k.chunkNo) == k;
    assert IsPiece(p.manifests[k.manifest].fileSize, sha, k.chunkNo, Row(k.chunkNo, p.chunks[k]));
  }

  lemma VersionPasses(p: Package, sha: Sha, k: VersionKey)
    requires VersionsOk(p) && ContentOk(p, sha) && k in p.versions
    ensures VersionCheck(p.versions[k])
  {
    assert VersionOk(p, k);
    var v := p.versions[k];
    if v.sourceVersion.None? {
      assert PiecesInTable(p, sha, v.manifest.value);
    } else {
      var source := VersionKey(k.inode, v.sourceVersion.value);
      assert VersionOk(p, source);
      assert PiecesInTable(p, sha, p.versions[source].manifest.value);
    }
  }
}
