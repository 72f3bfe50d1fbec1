/** Packages the archive verifier accepts and the import (agent_files/cli/vexfs_archive.cpp) refuses. */
module ArchiveRefused {
  import opened Basics
  import opened ArchivePackage
  import opened ArchiveTree
  import opened ArchiveChunks
  import opened ArchiveImport
  import opened ArchiveVerify
  import opened ArchiveSchema

  function PlainSettings(): Settings { Settings(0, 0, 0, 0, 0, None, None, None) }

  function LateParentPackage(): Package {
    Package(
      Head(Id(1), Id(1), Id(1), PlainSettings(), ""),
      map[Id(1) := Commit(Some(Id(2)), ""), Id(2) := Commit(None, "")],
      map[Id(1) := Inode(DIRECTORY, "owner", 0, 0, None, "")],
      [], map[], map[], map[], [], [], [], [], map[], [], [], {"owner"})
  }

  lemma LateParentChecked(p: Package)
    requires p == LateParentPackage()
    ensures ReferencesOk(p) && TreeCheck(p)
  {
    assert Children(p, {Id(1)}) == {};
    assert Reachable(p) == {Id(1)};
    assert LiveInodes(p) == {Id(1)};
    assert EntriesOf(p, Id(1)) == {};
  }

  /** The first commit has the second as parent. */
  lemma LateParentRefused(sha: Sha, sum: ManifestSum)
    ensures Acceptable(LateParentPackage(), sha, sum) && !ParentsFirst(LateParentPackage().commits)
  {
    var p := LateParentPackage();
    LateParentChecked(p);
    CheckedIff(p);
    assert !ParentBefore(p.commits, Id(1));
  }

  /** A root directory with two files that are both called `a`. */
  function SameNamePackage(): Package {
    Package(
      Head(Id(1), Id(1), Id(1), PlainSettings(), ""),
      map[Id(1) := Commit(None, "")],
      map[Id(1) := Inode(DIRECTORY, "owner", 0, 0, None, ""),
          Id(2) := Inode("file", "owner", 0, 0, None, ""),
          Id(3) := Inode("file", "owner", 0, 0, None, "")],
      [Dentry(Id(1), "a", Id(2)), Dentry(Id(1), "a", Id(3))],
      map[], map[], map[], [], [], [], [], map[], [], [], {"owner"})
  }

  lemma SameNameChildren(p: Package, s: set<Id>)
    requires p == SameNamePackage() && Id(1) in s
    ensures Children(p, s) == {Id(2), Id(3)}
  {
    assert p.dentries[0] == Dentry(Id(1), "a", Id(2)) && p.dentries[1] == Dentry(Id(1), "a", Id(3));
  }

  lemma SameNameReachable(p: Package)
    requires p == SameNamePackage()
    ensures Reachable(p) == {Id(1), Id(2), Id(3)}
  {
    var all := {Id(1)} + {Id(2), Id(3)};
    SameNameChildren(p, {Id(1)});
    SameNameChildren(p, all);
    assert Grow(p, all) == all;
  }

  lemma SameNameTree(p: Package)
    requires p == SameNamePackage()
    ensures TreeCheck(p)
  {
    SameNameReachable(p);
    assert LiveInodes(p) == {Id(1), Id(2), Id(3)};
    assert EntriesOf(p, Id(1)) == {};
  }

  lemma SameNameReferences(p: Package)
    requires p == SameNamePackage()
    ensures ReferencesOk(p)
  {
    assert p.dentries[0] == Dentry(Id(1), "a", Id(2)) && p.dentries[1] == Dentry(Id(1), "a", Id(3));
    assert HeadOk(p) && CommitsOk(p) && DentriesOk(p) && InodesOk(p);
  }

  lemma SameNameAcceptable(p: Package, sha: Sha, sum: ManifestSum)
    requires p == SameNamePackage()
    ensures Acceptable(p, sha, sum)
  {
    SameNameReferences(p);
    SameNameTree(p);
    CheckedIff(p);
  }

  /** Nothing but the primary key of the directory entries stands in its way. */
  lemma SameNameRefused(p: Package, sha: Sha, sum: ManifestSum)
    requires p == SameNamePackage()
    ensures Acceptable(p, sha, sum) && ParentsFirst(p.commits)
    ensures SettingsFit(p.head.settings) && InodesFit(p.inodes)
    ensures !DentriesFit(p.dentries) && !TargetFits(p)
  {
    SameNameAcceptable(p, sha, sum);
    assert p.dentries[0].parent == p.dentries[1].parent && p.dentries[0].name == p.dentries[1].name;
    PlainInodesFit(p.inodes);
  }
}
