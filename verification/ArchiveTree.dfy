/** The directory-tree check of the archive verifier (agent_files/cli/vexfs_archive.cpp).

    The verifier compares two counts and looks for stray entries; the result proved here is that,
    next to the reference checks, it accepts exactly the packages whose entries form a tree of
    directories: every live inode has a path from the root and every live directory has one only.
 */
module ArchiveTree {
  import opened Basics
  import opened ArchivePackage

  // ----- The recursive query -----

  function Children(p: Package, s: set<Id>): set<Id> {
    set i | 0 <= i < |p.dentries| && p.dentries[i].parent in s :: p.dentries[i].inode
  }

  ghost function Targets(p: Package): set<Id> {
    set i | 0 <= i < |p.dentries| :: p.dentries[i].inode
  }

  /** WITH RECURSIVE ... UNION: add the entries' inodes of everything reached until nothing is new. */
  function Grow(p: Package, s: set<Id>): (r: set<Id>)
    ensures s <= r && Children(p, r) <= r
    decreases |Targets(p) - s|
  {
    var more := Children(p, s);
    if more <= s then s
    else
      assert more <= Targets(p);
      Shrinks(Targets(p), s, more);
      Grow(p, s + more)
  }

  lemma Shrinks(all: set<Id>, s: set<Id>, more: set<Id>)
    requires more <= all && !(more <= s)
    ensures |all - (s + more)| < |all - s|
  {
    var x :| x in more && x !in s;
    var before, after := all - s, all - (s + more);
    assert after <= before - {x};
    assert before - {x} == after + (before - {x} - after);
  }

  function Reachable(p: Package): set<Id> {
    Grow(p, {p.head.root})
  }

  // ----- The check -----

  function LiveInodes(p: Package): set<Id> {
    set id | id in p.inodes && p.inodes[id].deletedAt.None?
  }

  /** The rows of the dentry table that name `id`. */
  function EntriesOf(p: Package, id: Id): set<nat> {
    set i: nat | i < |p.dentries| && p.dentries[i].inode == id
  }

  predicate TreeCheck(p: Package) {
    && |LiveInodes(p)| == |Reachable(p)|
    && EntriesOf(p, p.head.root) == {}
    && forall d :: d in p.inodes && Live(p, d) && IsDirectory(p, d) && d != p.head.root ==> |EntriesOf(p, d)| == 1
  }

  // ----- Paths -----

  /** The rows lead, entry by entry, from `from` to `to`. */
  ghost predicate IsChain(p: Package, rows: seq<nat>, from: Id, to: Id)
    decreases |rows|
  {
    if rows == [] then to == from
    else
      var last := rows[|rows| - 1];
      && last < |p.dentries| && p.dentries[last].inode == to
      && IsChain(p, rows[..|rows| - 1], from, p.dentries[last].parent)
  }

  ghost predicate IsPath(p: Package, rows: seq<nat>, to: Id) {
    IsChain(p, rows, p.head.root, to)
  }

  ghost predicate HasPath(p: Package, to: Id) {
    exists rows :: IsPath(p, rows, to)
  }

  ghost predicate OnePath(p: Package, to: Id) {
    forall rows, rows' :: IsPath(p, rows, to) && IsPath(p, rows', to) ==> rows == rows'
  }

  lemma ChainSnoc(p: Package, rows: seq<nat>, from: Id, last: nat)
    requires last < |p.dentries| && IsChain(p, rows, from, p.dentries[last].parent)
    ensures IsChain(p, rows + [last], from, p.dentries[last].inode)
  {
    assert (rows + [last])[..|rows|] == rows;
  }

  /** Everything the query reaches has a path. */
  lemma {:induction false} GrowHasPaths(p: Package, s: set<Id>, id: Id)
    requires forall x :: x in s ==> HasPath(p, x)
    requires id in Grow(p, s)
    ensures HasPath(p, id)
    decreases |Targets(p) - s|
  {
    var more := Children(p, s);
    if !(more <= s) {
      assert more <= Targets(p);
      Shrinks(Targets(p), s, more);
      forall x | x in s + more ensures HasPath(p, x) {
        if x !in s {
          var i: nat :| i < |p.dentries| && p.dentries[i].parent in s && p.dentries[i].inode == x;
          var rows: seq<nat> :| IsPath(p, rows, p.dentries[i].parent);
          ChainSnoc(p, rows, p.head.root, i);
          assert IsPath(p, rows + [i], x);
        }
      }
      GrowHasPaths(p, s + more, id);
    }
  }

  /** Everything that has a path is reached by the query. */
  lemma {:induction false} PathsAreReached(p: Package, rows: seq<nat>, to: Id)
    requires IsPath(p, rows, to)
    ensures to in Reachable(p)
    decreases |rows|
  {
    if rows != [] {
      var last := rows[|rows| - 1];
      PathsAreReached(p, rows[..|rows| - 1], p.dentries[last].parent);
      assert to in Children(p, Reachable(p));
    }
  }

  lemma ReachableIffPath(p: Package, id: Id)
    ensures id in Reachable(p) <==> HasPath(p, id)
  {
    if id in Reachable(p) {
      forall x | x in {p.head.root} ensures HasPath(p, x) {
        assert IsPath(p, [], x);
      }
      GrowHasPaths(p, {p.head.root}, id);
    }
    if HasPath(p, id) {
      var rows: seq<nat> :| IsPath(p, rows, id);
      PathsAreReached(p, rows, id);
    }
  }

  // ----- What the check establishes -----

  /** Paths stay inside the live inodes. */
  lemma PathEndsLive(p: Package, rows: seq<nat>, to: Id)
    requires HeadOk(p) && DentriesOk(p) && IsPath(p, rows, to)
    ensures Live(p, to)
  {
    if rows != [] {
      assert DentryOk(p, p.dentries[rows[|rows| - 1]]);
    }
  }

  lemma ReachableIsLive(p: Package)
    requires HeadOk(p) && DentriesOk(p)
    ensures Reachable(p) <= LiveInodes(p)
  {
    forall id | id in Reachable(p) ensures id in LiveInodes(p) {
      ReachableIffPath(p, id);
      var rows: seq<nat> :| IsPath(p, rows, id);
      PathEndsLive(p, rows, id);
    }
  }

  lemma SubsetOfSameSize(a: set<Id>, b: set<Id>)
    requires a <= b
    ensures |a| == |b| <==> a == b
  {
    assert b == a + (b - a);
  }

  /** A directory's only entry ends every path to it, so by induction the path is unique. */
  lemma {:induction false} CheckedPathIsUnique(p: Package, rows: seq<nat>, rows': seq<nat>, to: Id)
    requires ReferencesOk(p) && TreeCheck(p) && IsDirectory(p, to)
    requires IsPath(p, rows, to) && IsPath(p, rows', to)
    ensures rows == rows'
    decreases |rows|
  {
    PathEndsLive(p, rows, to);
    if to == p.head.root {
      StepNeedsEntry(p, rows, to);
      StepNeedsEntry(p, rows', to);
    } else {
      var last, last' := rows[|rows| - 1], rows'[|rows'| - 1];
      SingleEntry(EntriesOf(p, to), last, last');
      assert DentryOk(p, p.dentries[last]);
      CheckedPathIsUnique(p, rows[..|rows| - 1], rows'[..|rows'| - 1], p.dentries[last].parent);
      assert rows == rows[..|rows| - 1] + [last] && rows' == rows'[..|rows'| - 1] + [last];
    }
  }

  lemma StepNeedsEntry(p: Package, rows: seq<nat>, to: Id)
    requires IsPath(p, rows, to)
    ensures rows != [] ==> EntriesOf(p, to) != {}
  {
    if rows != [] {
      assert rows[|rows| - 1] in EntriesOf(p, to);
    }
  }

  lemma SingleEntry(s: set<nat>, x: nat, y: nat)
    requires |s| == 1 && x in s && y in s
    ensures x == y
  {
    assert |s - {x}| == 0;
    assert s == {x} + (s - {x});
  }

  /** A genuine tree: every live inode has a path, every live directory exactly one. */
  ghost predicate GenuineTree(p: Package) {
    && (forall id :: Live(p, id) ==> HasPath(p, id))
    && (forall d :: Live(p, d) && IsDirectory(p, d) ==> OnePath(p, d))
  }

  lemma CheckImpliesTree(p: Package)
    requires ReferencesOk(p) && TreeCheck(p)
    ensures GenuineTree(p)
  {
    ReachableIsLive(p);
    SubsetOfSameSize(Reachable(p), LiveInodes(p));
    forall id | Live(p, id) ensures HasPath(p, id) {
      assert id in LiveInodes(p);
      ReachableIffPath(p, id);
    }
    forall d, rows, rows' | Live(p, d) && IsDirectory(p, d) && IsPath(p, rows, d) && IsPath(p, rows', d)
      ensures rows == rows'
    {
      CheckedPathIsUnique(p, rows, rows', d);
    }
  }

  /** Two entries for a directory would give two paths; none would give no path. */
  lemma TreeHasSingleEntries(p: Package, d: Id)
    requires ReferencesOk(p) && GenuineTree(p) && Live(p, d) && IsDirectory(p, d)
    ensures EntriesOf(p, d) == {} <==> d == p.head.root
    ensures d != p.head.root ==> |EntriesOf(p, d)| == 1
  {
    var rows: seq<nat> :| IsPath(p, rows, d);
    forall i | i in EntriesOf(p, d) ensures rows != [] && i == rows[|rows| - 1] {
      assert DentryOk(p, p.dentries[i]);
      assert HasPath(p, p.dentries[i].parent);
      var prefix: seq<nat> :| IsPath(p, prefix, p.dentries[i].parent);
      ChainSnoc(p, prefix, p.head.root, i);
      assert IsPath(p, prefix + [i], d);
      assert rows == prefix + [i];
    }
    if d == p.head.root {
      assert IsPath(p, [], d);
    } else {
      assert rows[|rows| - 1] in EntriesOf(p, d);
      assert EntriesOf(p, d) == {rows[|rows| - 1]};
    }
  }

  lemma TreeImpliesCheck(p: Package)
    requires ReferencesOk(p) && GenuineTree(p)
    ensures TreeCheck(p)
  {
    ReachableIsLive(p);
    assert LiveInodes(p) == Reachable(p) by {
      forall id | id in LiveInodes(p) ensures id in Reachable(p) {
        assert Live(p, id);
        ReachableIffPath(p, id);
      }
    }
    TreeHasSingleEntries(p, p.head.root);
    forall d | Live(p, d) && IsDirectory(p, d) && d != p.head.root ensures |EntriesOf(p, d)| == 1 {
      TreeHasSingleEntries(p, d);
    }
  }

  /** Given the reference checks, the tree check accepts exactly the genuine trees. */
  lemma TreeCheckIff(p: Package)
    requires ReferencesOk(p)
    ensures TreeCheck(p) <==> GenuineTree(p)
  {
    if TreeCheck(p) {
      CheckImpliesTree(p);
    }
    if GenuineTree(p) {
      TreeImpliesCheck(p);
    }
  }

  lemma {:induction false} ChainAppend(p: Package, rows: seq<nat>, rows': seq<nat>, a: Id, b: Id, c: Id)
    requires IsChain(p, rows, a, b) && IsChain(p, rows', b, c)
    ensures IsChain(p, rows + rows', a, c)
    decreases |rows'|
  {
    if rows' == [] {
      assert rows + rows' == rows;
    } else {
      var front, last := rows'[..|rows'| - 1], rows'[|rows'| - 1];
      ChainAppend(p, rows, front, a, b, p.dentries[last].parent);
      ChainSnoc(p, rows + front, a, last);
      assert rows + rows' == rows + front + [last];
    }
  }

  /** In an accepted package no directory lies on a cycle of entries. */
  lemma NoDirectoryCycle(p: Package, rows: seq<nat>, d: Id)
    requires ReferencesOk(p) && TreeCheck(p)
    requires Live(p, d) && IsDirectory(p, d) && IsChain(p, rows, d, d)
    ensures rows == []
  {
    CheckImpliesTree(p);
    CycleDoublesPath(p, rows, d);
  }

  /** Going round a cycle would turn one path into another. */
  lemma CycleDoublesPath(p: Package, rows: seq<nat>, d: Id)
    requires HasPath(p, d) && OnePath(p, d) && IsChain(p, rows, d, d)
    ensures rows == []
  {
    var path: seq<nat> :| IsPath(p, path, d);
    ChainAppend(p, path, rows, p.head.root, d, d);
    assert IsPath(p, path + rows, d);
    assert path + rows == path;
  }
}
