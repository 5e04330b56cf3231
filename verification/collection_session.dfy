/**
 * The Collection operations run against a fixture of six entries in one
 * directory `dir`: two files, two directories, and a directory and a file
 * one level further down, added in that order. Each method builds the
 * fixture afresh and states what the calls answer, whatever `dir` is.
 */
module CollectionSession {
  import opened Errors
  import opened Entries
  import opened Collections
  import opened PathStrings

  /** A path below the directory `dir`: the relative part can be read back from it. */
  function InDir(dir: string, rel: string): (p: string)
    ensures |p| == |dir| + 1 + |rel| && p[|dir| + 1..] == rel
  {
    dir + [Sep] + rel
  }

  /** The fixture's paths relative to its directory, in insertion order. */
  const Rel: seq<string> := ["file1.txt", "file2.txt", "dir1", "dir2", InDir("dir1", "dir11"), InDir("dir1", "file11.txt")]

  /** The fixture's kinds, in insertion order. */
  const Kinds: seq<Kind> := [File, File, Dir, Dir, Dir, File]

  /** The relative paths are pairwise different. */
  lemma RelDistinct()
    ensures forall i, j :: 0 <= i < j < |Rel| ==> Rel[i] != Rel[j]
  {
    assert "file1.txt"[4] != "file2.txt"[4];
    assert "dir1"[3] != "dir2"[3];
  }

  /** Does `items` hold the fixture's six entries below `dir`, in order? */
  predicate IsFixture(dir: string, items: seq<Entry>)
    reads items
  {
    |items| == 6 &&
    forall i :: 0 <= i < 6 ==> items[i].path == InDir(dir, Rel[i]) && items[i].kind == Kinds[i]
  }

  /** The six entries, freshly made, in insertion order. */
  method MakeEntries(dir: string) returns (items: seq<Entry>)
    ensures IsFixture(dir, items)
    ensures forall i :: 0 <= i < |items| ==> fresh(items[i])
  {
    var f1 := new Entry(InDir(dir, Rel[0]), File);
    var f2 := new Entry(InDir(dir, Rel[1]), File);
    var d1 := new Entry(InDir(dir, Rel[2]), Dir);
    var d2 := new Entry(InDir(dir, Rel[3]), Dir);
    var d11 := new Entry(InDir(dir, Rel[4]), Dir);
    var f11 := new Entry(InDir(dir, Rel[5]), File);
    items := [f1, f2, d1, d2, d11, f11];
    forall i | 0 <= i < 6 ensures items[i].path == InDir(dir, Rel[i]) && items[i].kind == Kinds[i] {
      if i < 3 {
        assert i == 0 || i == 1 || i == 2;
      } else {
        assert i == 3 || i == 4 || i == 5;
      }
    }
  }

  /** The fixture's entries never share a path. */
  lemma FixtureDistinct(dir: string, items: seq<Entry>)
    requires IsFixture(dir, items)
    ensures DistinctPaths(items)
  {
    RelDistinct();
    forall i, j | 0 <= i < j < 6 ensures items[i].path != items[j].path {
      assert items[i].path[|dir| + 1..] == Rel[i];
      assert items[j].path[|dir| + 1..] == Rel[j];
    }
  }

  /** `new Collection([...])` of the six entries keeps all of them, in order. */
  method Fixture(dir: string) returns (c: Collection, items: seq<Entry>)
    ensures fresh(c) && c.entries == items && IsFixture(dir, items)
    ensures forall i :: 0 <= i < |items| ==> fresh(items[i])
  {
    items := MakeEntries(dir);
    c := FromEntries(items);
    FixtureDistinct(dir, items);
    DedupOfDistinct(items);
  }

  /** No entry of the fixture is at a relative path other than the fixture's own. */
  lemma NotInFixture(dir: string, items: seq<Entry>, rel: string)
    requires IsFixture(dir, items)
    requires rel !in Rel
    ensures !HasPath(items, InDir(dir, rel))
  {
    forall i | 0 <= i < 6 ensures items[i].path != InDir(dir, rel) {
      assert items[i].path[|dir| + 1..] == Rel[i];
      assert Rel[i] in Rel;
    }
  }

  /** `count()` is 6; adding a new file makes it 7; adding a file already held leaves it at 7. */
  method AddAndCount(dir: string) returns (initial: nat, afterNew: nat, afterDuplicate: nat)
    ensures initial == 6 && afterNew == 7 && afterDuplicate == 7
  {
    var c, items := Fixture(dir);
    initial := c.Count();
    var f3 := new Entry(InDir(dir, "file3.txt"), File);
    NotInFixture(dir, items, "file3.txt");
    c.Add(f3);
    afterNew := c.Count();
    var again := new Entry(InDir(dir, "file1.txt"), File);
    assert c.entries[0].path == again.path;
    c.Add(again);
    afterDuplicate := c.Count();
  }

  /** `contains` is true of file1.txt and false of file.txt. */
  method ContainsChecks(dir: string) returns (present: bool, absent: bool)
    ensures present && !absent
  {
    var c, items := Fixture(dir);
    assert c.entries[0].path == InDir(dir, "file1.txt");
    present := c.Contains(InDir(dir, "file1.txt"));
    NotInFixture(dir, items, "file.txt");
    absent := c.Contains(InDir(dir, "file.txt"));
  }

  /** The name of a path one or two levels below `dir` is its last segment. */
  lemma NameBelow(dir: string, sub: string, name: string)
    requires Sep !in name
    ensures Name(InDir(dir, name)) == name
    ensures Name(InDir(dir, InDir(sub, name))) == name
  {
    NameAfterSep(dir, name);
    assert InDir(dir, InDir(sub, name)) == InDir(dir, sub) + [Sep] + name;
    NameAfterSep(InDir(dir, sub), name);
  }

  /** The names of the fixture's four top-level entries. */
  lemma TopNames(dir: string)
    ensures Name(InDir(dir, "file1.txt")) == "file1.txt" && Name(InDir(dir, "file2.txt")) == "file2.txt"
    ensures Name(InDir(dir, "dir1")) == "dir1" && Name(InDir(dir, "dir2")) == "dir2"
  {
    NameBelow(dir, "", "file1.txt");
    NameBelow(dir, "", "file2.txt");
    NameBelow(dir, "", "dir1");
    NameBelow(dir, "", "dir2");
  }

  /** The names of the fixture's two entries inside dir1. */
  lemma InnerNames(dir: string)
    ensures Name(InDir(dir, InDir("dir1", "dir11"))) == "dir11"
    ensures Name(InDir(dir, InDir("dir1", "file11.txt"))) == "file11.txt"
  {
    NameBelow(dir, "dir1", "dir11");
    NameBelow(dir, "dir1", "file11.txt");
  }

  /** The names of the fixture's first four entries. */
  lemma FixtureTopNames(dir: string, items: seq<Entry>)
    requires IsFixture(dir, items)
    ensures Name(items[0].path) == "file1.txt" && Name(items[1].path) == "file2.txt"
    ensures Name(items[2].path) == "dir1" && Name(items[3].path) == "dir2"
  {
    TopNames(dir);
  }

  /** The names of the fixture's last two entries. */
  lemma FixtureInnerNames(dir: string, items: seq<Entry>)
    requires IsFixture(dir, items)
    ensures Name(items[4].path) == "dir11" && Name(items[5].path) == "file11.txt"
  {
    InnerNames(dir);
  }

  /** `get` of file1.txt answers the entry named file1.txt. */
  method GetByPath(dir: string) returns (r: Result<Entry>, name: string)
    ensures r.Ok? && r.value.kind == File && name == "file1.txt"
  {
    var c, items := Fixture(dir);
    assert c.entries[0].path == InDir(dir, "file1.txt");
    r := c.Get(InDir(dir, "file1.txt"));
    TopNames(dir);
    name := r.value.Name();
  }

  /** Renaming file1.txt below `dir` to other.txt gives other.txt below `dir`. */
  lemma RenameParts(dir: string)
    ensures Sep !in "other.txt" && Name(InDir(dir, "file1.txt")) != "other.txt"
    ensures Dirname(InDir(dir, "file1.txt")) + "other.txt" == InDir(dir, "other.txt")
  {
    NameAfterSep(dir, "file1.txt");
    assert "file1.txt"[0] != "other.txt"[0];
  }

  /**
   * Renaming file1.txt to other.txt through the entry `get` answered: the
   * Collection did not hold other.txt before and holds it afterwards.
   */
  method RenameSeen(dir: string) returns (before: bool, after: bool)
    ensures !before && after
  {
    var c, items := Fixture(dir);
    NotInFixture(dir, items, "other.txt");
    before := c.Contains(InDir(dir, "other.txt"));
    assert c.entries[0].path == InDir(dir, "file1.txt");
    var r := c.Get(InDir(dir, "file1.txt"));
    var e := r.value;
    FixtureDistinct(dir, items);
    RenameParts(dir);
    var hasNew, hasOld := RenameThroughReference(c, e, "other.txt");
    assert e.path == InDir(dir, "other.txt");
    after := c.Contains(InDir(dir, "other.txt"));
  }

  /** `asArray()` holds the six entries. */
  method AsArrayCount(dir: string) returns (n: nat)
    ensures n == 6
  {
    var c, items := Fixture(dir);
    n := |c.AsArray()|;
  }

  /** One step of the filter over a suffix of `es`. */
  lemma FilterFrom(es: seq<Entry>, j: nat, k: Kind)
    requires j < |es|
    ensures Filter(es[j..], k) == (if es[j].kind == k then [es[j]] else []) + Filter(es[j + 1..], k)
  {
    assert es[j..][0] == es[j] && es[j..][1..] == es[j + 1..];
  }

  /** Do the six entries have the fixture's kinds, in order? */
  predicate HasFixtureKinds(items: seq<Entry>)
    reads items
  {
    |items| == 6 && forall i :: 0 <= i < 6 ==> items[i].kind == Kinds[i]
  }

  /** The fixture's files are entries 0, 1 and 5. */
  lemma FixtureFiles(items: seq<Entry>)
    requires HasFixtureKinds(items)
    ensures Filter(items, File) == [items[0], items[1], items[5]]
  {
    assert items[0..] == items && items[6..] == [];
    FilterFrom(items, 0, File); FilterFrom(items, 1, File); FilterFrom(items, 2, File);
    FilterFrom(items, 3, File); FilterFrom(items, 4, File); FilterFrom(items, 5, File);
  }

  /** The fixture's directories are entries 2, 3 and 4. */
  lemma FixtureDirs(items: seq<Entry>)
    requires HasFixtureKinds(items)
    ensures Filter(items, Dir) == [items[2], items[3], items[4]]
  {
    assert items[0..] == items && items[6..] == [];
    FilterFrom(items, 0, Dir); FilterFrom(items, 1, Dir); FilterFrom(items, 2, Dir);
    FilterFrom(items, 3, Dir); FilterFrom(items, 4, Dir); FilterFrom(items, 5, Dir);
  }

  /** `files()` answers three entries and `dirs()` three. */
  method KindCounts(dir: string) returns (files: nat, dirs: nat)
    ensures files == 3 && dirs == 3
  {
    var c, items := Fixture(dir);
    FixtureFiles(items);
    FixtureDirs(items);
    var f := c.OfKind(File);
    var d := c.OfKind(Dir);
    files := f.Count();
    dirs := d.Count();
  }

  /** `first()` is file1.txt and `last()` is dir1/file11.txt. */
  method FirstAndLast(dir: string) returns (first: string, last: string)
    ensures first == InDir(dir, "file1.txt") && last == InDir(dir, InDir("dir1", "file11.txt"))
  {
    var c, items := Fixture(dir);
    var f := c.First();
    var l := c.Last();
    first := f.value.path;
    last := l.value.path;
  }

  /** The names of the fixture's entries, one by one, are the six names in insertion order. */
  lemma FixtureNames(dir: string, items: seq<Entry>, names: seq<string>)
    requires IsFixture(dir, items)
    requires |names| == 6 && forall i :: 0 <= i < 6 ==> names[i] == Name(items[i].path)
    ensures names == ["file1.txt", "file2.txt", "dir1", "dir2", "dir11", "file11.txt"]
  {
    FixtureTopNames(dir, items);
    FixtureInnerNames(dir, items);
    assert names[0] == "file1.txt" && names[1] == "file2.txt" && names[2] == "dir1";
    assert names[3] == "dir2" && names[4] == "dir11" && names[5] == "file11.txt";
  }

  /** `names()` answers the six names in insertion order. */
  method NamesList(dir: string) returns (names: seq<string>)
    ensures names == ["file1.txt", "file2.txt", "dir1", "dir2", "dir11", "file11.txt"]
  {
    var c, items := Fixture(dir);
    names := c.Names();
    FixtureNames(dir, items, names);
  }

  /** `paths()` answers the six paths in insertion order. */
  method PathsList(dir: string) returns (paths: seq<string>)
    ensures paths == [InDir(dir, "file1.txt"), InDir(dir, "file2.txt"), InDir(dir, "dir1"),
                      InDir(dir, "dir2"), InDir(dir, InDir("dir1", "dir11")), InDir(dir, InDir("dir1", "file11.txt"))]
  {
    var c, items := Fixture(dir);
    paths := c.Paths();
  }

  /** `remove` of dir1: it was held, five entries remain, and it is no longer held. */
  method RemoveDir1(dir: string) returns (before: bool, count: nat, after: bool)
    ensures before && count == 5 && !after
  {
    var c, items := Fixture(dir);
    FixtureDistinct(dir, items);
    assert c.entries[2].path == InDir(dir, "dir1");
    before := c.Contains(InDir(dir, "dir1"));
    c.Remove(InDir(dir, "dir1"));
    count := c.Count();
    after := c.Contains(InDir(dir, "dir1"));
  }
}
