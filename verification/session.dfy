/**
 * The Filesystem operations run against the demonstration tree: each method
 * opens the tree at its root and states what the calls answer.
 */
module DemoSession {
  import opened Errors
  import opened Entries
  import opened Collections
  import opened Tree
  import opened DemoTree
  import opened Filesystems
  import opened PathStrings
  import opened Glob

  /** The Filesystem rooted at the demonstration tree. */
  method OpenDemo() returns (fs: Filesystem)
    ensures fresh(fs) && fs.Valid() && fs.root == Root && fs.tree == Demo()
  {
    DemoWellFormed();
    fs := new Filesystem(Root, Demo());
  }

  /** `path()` is the root followed by a separator. */
  method RootPath() returns (path: string)
    ensures path == "/demo/"
  {
    var fs := OpenDemo();
    path := fs.PathOf();
  }

  /** Opening a root directory that does not exist fails with a FilesystemException. */
  method MissingRoot() returns (r: Result<Filesystem>)
    ensures r == Err(FilesystemException)
  {
    r := Open(Root + "/none-present-folder", None, map[]);
  }

  /** `find("f*")` answers a Collection of five entries. */
  method FindFStarCount() returns (found: nat)
    ensures found == 5
  {
    var fs := OpenDemo();
    var c := fs.Find("f*");
    FindFStar();
    FStarKinds();
    found := c.Count();
  }

  /** `files()` and `dirs()` with no argument answer one file and four directories. */
  method RootListingCounts() returns (files: nat, dirs: nat)
    ensures files == 1 && dirs == 4
  {
    var fs := OpenDemo();
    var f := fs.Children(File);
    var d := fs.Children(Dir);
    RootFilesAndDirs();
    files := f.Count();
    dirs := d.Count();
  }

  /** Listing two different nodes of kind `k` answers a Collection of two entries. */
  method ListedPair(fs: Filesystem, k: Kind, x: string, y: string, qx: Path, qy: Path) returns (n: nat)
    requires fs.Valid()
    requires Resolve(fs.root, x) == qx && Resolve(fs.root, y) == qy && qx != qy
    requires fs.IsNodeOf(qx, k) && fs.IsNodeOf(qy, k)
    ensures n == 2
  {
    PairResolves(fs.root, x, y);
    assert fs.AllNodesOf([qx, qy], k);
    var r;
    ghost var items;
    r, items := fs.Listed(k, [x, y]);
    var c := r.value;
    assert c.Has(AbsPath(fs.root, qx)) && c.Has(AbsPath(fs.root, qy)) by {
      assert qx in [qx, qy] && qy in [qx, qy];
    }
    assert Node(fs.tree, qx) && Node(fs.tree, qy);
    AbsPathInjective(fs.root, qx, qy);
    TwoPathsTwoMembers(c.entries, AbsPath(fs.root, qx), AbsPath(fs.root, qy));
    n := c.Count();
  }

  const Picture: string := "folder4" + [Sep] + "folder43" + [Sep] + "picture.jpg"
  const Folder43: string := "folder4" + [Sep] + "folder43"

  /** `files([...])` of a nested file and a top-level file answers a Collection of both. */
  method ListedFilesCount() returns (files: nat)
    ensures files == 2
  {
    var fs := OpenDemo();
    ResolveThree("folder4", "folder43", "picture.jpg");
    ResolveOne("files.txt");
    files := ListedPair(fs, File, Picture, "files.txt", ["folder4", "folder43", "picture.jpg"], ["files.txt"]);
  }

  /** `dirs([...])` of a nested and a top-level directory answers a Collection of both. */
  method ListedDirsCount() returns (dirs: nat)
    ensures dirs == 2
  {
    var fs := OpenDemo();
    ResolveTwo("folder4", "folder43");
    ResolveOne("folder2");
    dirs := ListedPair(fs, Dir, Folder43, "folder2", ["folder4", "folder43"], ["folder2"]);
  }

  /** `file(a)` or `dir(a)` of a top-level node of that kind answers the entry named `a`, creating nothing. */
  method GetPresent(fs: Filesystem, a: string, k: Kind) returns (name: string)
    requires fs.Valid()
    requires a != [] && a[0] != Sep && Sep !in a
    requires fs.IsNodeOf([a], k)
    modifies fs
    ensures fs.Valid() && fs.tree == old(fs.tree)
    ensures name == a
  {
    ResolveSegment(fs.root, a);
    var r := fs.Get(a, k, false);
    name := r.value.Name();
  }

  /** `file(a)` or `dir(a)` without creation, of a top-level name not in the tree, fails. */
  method GetAbsent(fs: Filesystem, a: string, k: Kind) returns (r: Result<Entry>)
    requires fs.Valid()
    requires a != [] && a[0] != Sep && Sep !in a
    requires [a] !in fs.tree
    modifies fs
    ensures fs.Valid() && fs.tree == old(fs.tree)
    ensures r == Err(FilesystemException)
  {
    ResolveSegment(fs.root, a);
    r := fs.Get(a, k, false);
  }

  /** A single segment resolves to itself under any root: it holds no separator, so it never reads as absolute. */
  lemma ResolveSegment(root: string, a: string)
    requires Sep !in a
    ensures Resolve(root, a) == [a]
  {
    if |root| + 1 <= |a| {
      assert (root + [Sep])[|root|] == Sep && a[|root|] in a;
    }
    SplitJoin([a]);
  }

  /** `file("files.txt")` is the file named files.txt; `dir("folder1")` the directory named folder1. */
  method GetExisting() returns (file: string, dir: string)
    ensures file == "files.txt" && dir == "folder1"
  {
    var fs := OpenDemo();
    file := GetPresent(fs, "files.txt", File);
    dir := GetPresent(fs, "folder1", Dir);
  }

  /** `file` and `dir` of missing paths, without creation, fail with a FilesystemException. */
  method GetMissing() returns (file: Result<Entry>, dir: Result<Entry>)
    ensures file == Err(FilesystemException) && dir == Err(FilesystemException)
  {
    var fs := OpenDemo();
    OutsideDemo(["none-present-file.txt"]);
    file := GetAbsent(fs, "none-present-file.txt", File);
    OutsideDemo(["none-present-folder"]);
    dir := GetAbsent(fs, "none-present-folder", Dir);
  }

  /** `file(p, true)` or `dir(p, true)` of a path that can be created makes it and answers the entry named after it. */
  method GetCreated(fs: Filesystem, p: string, k: Kind) returns (name: string)
    requires fs.Valid() && CanCreate(fs.tree, Resolve(fs.root, p))
    modifies fs
    ensures fs.Valid() && fs.tree == Created(old(fs.tree), Resolve(fs.root, p), k)
    ensures var q := Resolve(fs.root, p); name == q[|q| - 1]
  {
    var r := fs.Get(p, k, true);
    name := r.value.Name();
  }

  /** `file` with creation makes tmp/file-to-be-created.txt and answers the file of that name. */
  method CreateMissingFile() returns (file: string)
    ensures file == "file-to-be-created.txt"
  {
    var fs := OpenDemo();
    TmpIsFree(["tmp", "file-to-be-created.txt"]);
    ResolveTwo("tmp", "file-to-be-created.txt");
    file := GetCreated(fs, "tmp" + [Sep] + "file-to-be-created.txt", File);
  }

  /** `dir` with creation makes tmp/folder-to-be-created/sub-folder and answers the directory of that name. */
  method CreateMissingDir() returns (dir: string)
    ensures dir == "sub-folder"
  {
    var fs := OpenDemo();
    TmpIsFree(["tmp", "folder-to-be-created", "sub-folder"]);
    ResolveThree("tmp", "folder-to-be-created", "sub-folder");
    dir := GetCreated(fs, "tmp" + [Sep] + "folder-to-be-created" + [Sep] + "sub-folder", Dir);
  }

  /** The check `isFile` for a file, `isDir` for a directory. */
  function CheckFor(k: Kind): Check
  {
    if k == File then FileCheck else DirCheck
  }

  /**
   * Creating a literal path and removing it again: the check of its kind
   * holds in between and fails afterwards, and the tree is left with the
   * directories the creation added above it.
   */
  method CreateThenRemovePath(fs: Filesystem, p: string, k: Kind) returns (before: bool, removed: Outcome, after: bool)
    requires fs.Valid() && CanCreate(fs.tree, Resolve(fs.root, p)) && !HasWildcard(Resolve(fs.root, p))
    modifies fs
    ensures fs.Valid() && fs.tree == Removed(Created(old(fs.tree), Resolve(fs.root, p), k), Resolve(fs.root, p))
    ensures before && removed == Pass && !after
  {
    var f := fs.Get(p, k, true);
    CreatedIs(old(fs.tree), fs.root, p, k);
    before := Is(fs.tree, fs.root, CheckFor(k), p);
    ghost var made := fs.tree;
    removed := fs.Remove(p);
    RemovedIsNothing(made, fs.root, p);
    IsLiteral(fs.tree, fs.root, p);
    after := Is(fs.tree, fs.root, CheckFor(k), p);
  }

  const TmpFile: string := "tmp" + [Sep] + "file.php"
  const TmpDir: string := "tmp" + [Sep] + "dir"

  /** tmp/file.php and tmp/dir resolve to their segments. */
  lemma TmpResolves()
    ensures Resolve(Root, TmpFile) == ["tmp", "file.php"] && Resolve(Root, TmpDir) == ["tmp", "dir"]
  {
    ResolveTwo("tmp", "file.php");
    ResolveTwo("tmp", "dir");
  }

  /** Two plain segments make a path without wildcards. */
  lemma PlainPair(a: string, b: string)
    requires Plain(a) && Plain(b)
    ensures !HasWildcard([a, b])
  {
    forall i | 0 <= i < 2 ensures Star !in [a, b][i] {
    }
  }

  /** tmp/file.php and tmp/dir resolve to their segments, hold no wildcard, and can both be created. */
  lemma TmpPaths()
    ensures Resolve(Root, TmpFile) == ["tmp", "file.php"] && Resolve(Root, TmpDir) == ["tmp", "dir"]
    ensures !HasWildcard(["tmp", "file.php"]) && !HasWildcard(["tmp", "dir"])
    ensures CanCreate(Demo(), ["tmp", "file.php"]) && CanCreate(Demo(), ["tmp", "dir"])
  {
    PlainPair("tmp", "file.php");
    PlainPair("tmp", "dir");
    TmpIsFree(["tmp", "file.php"]);
    TmpIsFree(["tmp", "dir"]);
    TmpResolves();
  }

  /**
   * Once a file has been created and removed, a sibling that never existed
   * can still be created, and creating it does not bring the file back.
   */
  lemma SiblingAfterRemoval(t: Tree, qf: Path, qd: Path)
    requires WellFormed(t) && CanCreate(t, qf) && CanCreate(t, qd)
    requires |qf| == 2 && |qd| == 2 && qf[0] == qd[0] && qf != qd
    ensures CanCreate(Removed(Created(t, qf, File), qf), qd)
    ensures qf !in Created(Removed(Created(t, qf, File), qf), qd, Dir)
  {
    var c := Created(t, qf, File);
    CreatedSpec(t, qf, File);
    var r := Removed(c, qf);
    RemovedSpec(c, qf);
    assert qd[..1] == qf[..1];
    assert forall a :: a in Ancestors(qf) ==> |a| < 2;
    CreatedSpec(r, qd, Dir);
  }

  /** `removeAll` of two nodes, neither below the other, succeeds and leaves the first one out. */
  lemma RemoveBoth(t: Tree, qx: Path, qy: Path)
    requires WellFormed(t) && qx in t && qy in t && !Below(qx, qy)
    ensures RemovedAll(t, [qx, qy]).Some?
    ensures qx !in RemovedAll(t, [qx, qy]).value
  {
    RemovedSpec(t, qx);
    var u := Removed(t, qx);
    assert [qx, qy][1..] == [qy] && [qy][1..] == [];
    assert RemovedAll(t, [qx, qy]) == RemovedAll(u, [qy]);
    assert RemovedAll(u, [qy]) == RemovedAll(Removed(u, qy), []);
    RemovedAllSpec(t, [qx, qy]);
  }

  /**
   * A file and a sibling directory are created and `removeAll` takes both
   * away: afterwards the file's path is neither a file nor a directory.
   */
  method CreateTwoRemoveAll(fs: Filesystem, x: string, y: string) returns (removed: Outcome, isFile: bool, isDir: bool)
    requires fs.Valid()
    requires var qx, qy := Resolve(fs.root, x), Resolve(fs.root, y);
      && CanCreate(fs.tree, qx) && CanCreate(Created(fs.tree, qx, File), qy) && !HasWildcard(qx)
      && |qx| == 2 && |qy| == 2 && qx != qy
    modifies fs
    ensures removed == Pass && !isFile && !isDir
  {
    var qx, qy := Resolve(fs.root, x), Resolve(fs.root, y);
    var f := fs.Get(x, File, true);
    var d := fs.Get(y, Dir, true);
    BothRemoved(old(fs.tree), qx, qy);
    PairResolves(fs.root, x, y);
    removed := fs.RemoveAll([x, y]);
    IsLiteral(fs.tree, fs.root, x);
    isFile := Is(fs.tree, fs.root, FileCheck, x);
    isDir := Is(fs.tree, fs.root, DirCheck, x);
  }

  /** A list of two paths resolves to the pair of their resolutions. */
  lemma PairResolves(root: string, x: string, y: string)
    ensures ResolveAll(root, [x, y]) == [Resolve(root, x), Resolve(root, y)]
  {
    ResolveAllPointwise(root, [x, y]);
  }

  /** After a file and then a sibling directory are created, removing both in that order succeeds and drops the file. */
  lemma BothRemoved(t: Tree, qx: Path, qy: Path)
    requires WellFormed(t) && CanCreate(t, qx) && CanCreate(Created(t, qx, File), qy)
    requires |qx| == 2 && |qy| == 2 && qx != qy
    ensures var made := Created(Created(t, qx, File), qy, Dir);
      RemovedAll(made, [qx, qy]).Some? && qx !in RemovedAll(made, [qx, qy]).value
  {
    CreatedSpec(t, qx, File);
    CreatedSpec(Created(t, qx, File), qy, Dir);
    assert !Below(qx, qy) by {
      assert qy[..|qx|] == qy;
    }
    RemoveBoth(Created(Created(t, qx, File), qy, Dir), qx, qy);
  }

  /**
   * After tmp/file.php has been created and removed and then tmp/dir, the
   * directory tmp stays behind, and both can be created again, the
   * directory beside the file.
   */
  lemma AgainAfterRemoval(t: Tree, qf: Path, qd: Path)
    requires WellFormed(t) && CanCreate(t, qf) && CanCreate(t, qd)
    requires |qf| == 2 && |qd| == 2 && qf[0] == qd[0] && qf != qd
    ensures var left := Removed(Created(Removed(Created(t, qf, File), qf), qd, Dir), qd);
      CanCreate(left, qf) && CanCreate(Created(left, qf, File), qd)
  {
    var c1 := Created(t, qf, File);
    CreatedSpec(t, qf, File);
    var r1 := Removed(c1, qf);
    RemovedSpec(c1, qf);
    SiblingAfterRemoval(t, qf, qd);
    var c2 := Created(r1, qd, Dir);
    CreatedSpec(r1, qd, Dir);
    var left := Removed(c2, qd);
    RemovedSpec(c2, qd);
    assert qd[..1] == qf[..1];
    assert !Below(qd, qd[..1]);
    assert CanCreate(left, qf) && CanCreate(left, qd);
    BesideFile(left, qf, qd);
  }

  /**
   * The removal test from start to end: tmp/file.php is created and removed,
   * then tmp/dir; each check holds after its creation and fails after its
   * removal, and tmp/file.php is no directory. Both are then created again
   * and `removeAll` takes both away: afterwards tmp/file.php is neither a
   * file nor a directory.
   */
  method RemovesFilesAndDirectories() returns (fileBefore: bool, fileRemoved: Outcome, fileAfter: bool,
                                               dirBefore: bool, dirRemoved: Outcome, dirAfter: bool, fileIsDir: bool,
                                               removed: Outcome, isFile: bool, isDir: bool)
    ensures fileBefore && fileRemoved == Pass && !fileAfter
    ensures dirBefore && dirRemoved == Pass && !dirAfter
    ensures !fileIsDir
    ensures removed == Pass && !isFile && !isDir
  {
    var fs := OpenDemo();
    TmpPaths();
    DemoWellFormed();
    SiblingAfterRemoval(Demo(), ["tmp", "file.php"], ["tmp", "dir"]);
    fileBefore, fileRemoved, fileAfter := CreateThenRemovePath(fs, TmpFile, File);
    dirBefore, dirRemoved, dirAfter := CreateThenRemovePath(fs, TmpDir, Dir);
    IsLiteral(fs.tree, Root, TmpFile);
    fileIsDir := Is(fs.tree, Root, DirCheck, TmpFile);
    AgainAfterRemoval(Demo(), ["tmp", "file.php"], ["tmp", "dir"]);
    removed, isFile, isDir := CreateTwoRemoveAll(fs, TmpFile, TmpDir);
  }

  /** A sibling that never existed can be created beside a newly created file. */
  lemma BesideFile(t: Tree, qf: Path, qd: Path)
    requires WellFormed(t) && CanCreate(t, qf) && CanCreate(t, qd)
    requires |qf| == 2 && |qd| == 2 && qf[0] == qd[0] && qf != qd
    ensures CanCreate(Created(t, qf, File), qd)
  {
    CreatedSpec(t, qf, File);
    assert qd[..1] == qf[..1];
    assert forall a :: a in Ancestors(qf) ==> |a| < 2;
  }
}
