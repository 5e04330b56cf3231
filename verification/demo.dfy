/**
 * The demonstration tree the Filesystem behaviour is described against:
 *
 *   folder1/ { folder11/ { some-doc.pdf }, some-doc.txt, track.mp3 }
 *   folder2/ { track1.mp3 }
 *   folder3/
 *   folder4/ { folder41/ { other.pdf }, folder42/ { other.mp3 }, folder43/ { picture.jpg } }
 *   files.txt
 *
 * and what `whatIs`, the existence checks and `find` answer on it.
 */
module DemoTree {
  import opened Entries
  import opened PathStrings
  import opened Glob
  import opened Tree

  const Root: string := "/demo"

  function Demo(): (t: Tree)
  {
    map[
      ["folder1"] := Dir,
      ["folder1", "folder11"] := Dir,
      ["folder1", "folder11", "some-doc.pdf"] := File,
      ["folder1", "some-doc.txt"] := File,
      ["folder1", "track.mp3"] := File,
      ["folder2"] := Dir,
      ["folder2", "track1.mp3"] := File,
      ["folder3"] := Dir,
      ["folder4"] := Dir,
      ["folder4", "folder41"] := Dir,
      ["folder4", "folder41", "other.pdf"] := File,
      ["folder4", "folder42"] := Dir,
      ["folder4", "folder42", "other.mp3"] := File,
      ["folder4", "folder43"] := Dir,
      ["folder4", "folder43", "picture.jpg"] := File,
      ["files.txt"] := File
    ]
  }

  /** A relative path that does not start with the root resolves to its segments. */
  lemma ResolveRelative(p: string, segs: Path)
    requires |segs| >= 1 && forall i :: 0 <= i < |segs| ==> Sep !in segs[i]
    requires Join(segs) == p
    requires p == [] || p[0] != Sep
    ensures Resolve(Root, p) == segs
  {
    if |Root| + 1 <= |p| {
      assert p[..|Root| + 1][0] == p[0];
    }
    SplitJoin(segs);
  }

  /** The nodes directly under the root. */
  lemma DepthOne(p: Path)
    requires p in Demo() && |p| == 1
    ensures p == ["folder1"] || p == ["folder2"] || p == ["folder3"] || p == ["folder4"] || p == ["files.txt"]
  {
  }

  /** The nodes two levels down: the entries of folder1, folder2 and folder4. */
  lemma DepthTwo(p: Path)
    requires p in Demo() && |p| == 2
    ensures p == ["folder1", "folder11"] || p == ["folder1", "some-doc.txt"] || p == ["folder1", "track.mp3"]
         || p == ["folder2", "track1.mp3"]
         || p == ["folder4", "folder41"] || p == ["folder4", "folder42"] || p == ["folder4", "folder43"]
  {
  }

  /** The nodes three levels down: one in each sub-folder of folder1 and folder4. */
  lemma DepthThree(p: Path)
    requires p in Demo() && |p| == 3
    ensures p == ["folder1", "folder11", "some-doc.pdf"]
         || p == ["folder4", "folder41", "other.pdf"] || p == ["folder4", "folder42", "other.mp3"]
         || p == ["folder4", "folder43", "picture.jpg"]
  {
  }

  /** No node is deeper than three levels. */
  lemma DepthAtMostThree(p: Path)
    requires p in Demo()
    ensures 1 <= |p| <= 3
  {
  }

  /** The matches of a pattern are `m` when exactly the nodes of `m` match it. */
  lemma MatchesAre(t: Tree, pat: Path, m: set<Path>)
    requires m <= t.Keys
    requires forall p :: p in t ==> (PathMatches(pat, p) <==> p in m)
    ensures Matches(t, pat) == m
  {
  }

  /** `whatIs` of the literal path folder1/some-doc.txt is "file". */
  lemma WhatIsSomeDoc()
    ensures Label(WhatIs(Demo(), ["folder1", "some-doc.txt"])) == "file"
  {
    KnownFiles();
    assert !HasWildcard(["folder1", "some-doc.txt"]);
  }

  /** `whatIs` of the literal path folder1 is "dir". */
  lemma WhatIsFolder1()
    ensures Label(WhatIs(Demo(), ["folder1"])) == "dir"
  {
    TopDirs();
    assert !HasWildcard(["folder1"]);
  }

  /** `whatIs` of the literal path folder1/missing-doc.txt is "nothing". */
  lemma WhatIsMissingDoc()
    ensures Label(WhatIs(Demo(), ["folder1", "missing-doc.txt"])) == "nothing"
  {
    assert ["folder1", "missing-doc.txt"] !in Demo() by {
      forall p | p in Demo() && |p| == 2 ensures p != ["folder1", "missing-doc.txt"] {
        DepthTwo(p);
        assert "some-doc.txt"[0] != "missing-doc.txt"[0];
      }
    }
    assert !HasWildcard(["folder1", "missing-doc.txt"]);
  }

  /** A single match is reported as its kind. */
  lemma ClassifySingle(t: Tree, p: Path)
    requires p in t
    ensures Classify(t, {p}) == Single(t[p])
  {
    assert |{p}| == 1;
  }

  /** A name matches `*1` when it ends in 1. */
  lemma EndsInOne(name: string)
    ensures SegmentMatches("*1", name) <==> name != [] && name[|name| - 1] == '1'
  {
    assert [Star] + "1" == "*1";
    StarThenLiteral("1", name);
    if name != [] {
      assert name[|name| - 1..] == [name[|name| - 1]];
    }
  }

  /** folder1 is the only top-level node whose name ends in 1. */
  lemma StarOneMatches()
    ensures Matches(Demo(), ["*1"]) == {["folder1"]}
  {
    var t, pat := Demo(), ["*1"];
    forall p | p in t ensures PathMatches(pat, p) <==> p in {["folder1"]} {
      if |p| == 1 {
        EndsInOne(p[0]);
      }
    }
    MatchesAre(t, pat, {["folder1"]});
  }

  /** `whatIs("*1")` is "dir". */
  lemma WhatIsStarOne()
    ensures Label(WhatIs(Demo(), ["*1"])) == "dir"
  {
    var t, pat := Demo(), ["*1"];
    StarOneMatches();
    WhatIsIsClassifiedMatches(t, pat);
    ClassifySingle(t, ["folder1"]);
    assert t[["folder1"]] == Dir;
  }

  /** A name matching `*lit` carries the k-th last character of `lit` at the same place from its end. */
  lemma EndsWithChar(lit: string, name: string, k: nat)
    requires Star !in lit && k < |lit|
    ensures SegmentMatches([Star] + lit, name) ==> k < |name| && name[|name| - 1 - k] == lit[|lit| - 1 - k]
  {
    StarThenLiteral(lit, name);
    if |lit| <= |name| {
      assert name[|name| - |lit|..][|lit| - 1 - k] == name[|name| - 1 - k];
    }
  }

  /** folder1/some-doc.txt matches folder1 followed by `*-doc.txt`. */
  lemma SomeDocMatches()
    ensures PathMatches(["folder1", "*-doc.txt"], ["folder1", "some-doc.txt"])
  {
    assert "*-doc.txt" == [Star] + "-doc.txt";
    assert "some-doc.txt" == "some" + "-doc.txt";
    SuffixMatches("folder1", "some", "-doc.txt");
  }

  /** Inside a literal directory, `*lit` matches every name ending in `lit`. */
  lemma SuffixMatches(dir: string, front: string, lit: string)
    requires Star !in dir && Star !in lit
    ensures PathMatches([dir, [Star] + lit], [dir, front + lit])
  {
    LiteralSegment(dir, dir);
    assert (front + lit)[|front + lit| - |lit|..] == lit;
    StarThenLiteral(lit, front + lit);
  }

  /** No other node of the tree matches folder1 followed by `*-doc.txt`. */
  lemma OnlySomeDoc(p: Path)
    requires p in Demo() && p != ["folder1", "some-doc.txt"]
    ensures !PathMatches(["folder1", "*-doc.txt"], p)
  {
    if |p| == 2 {
      assert [Star] + "-doc.txt" == "*-doc.txt";
      DepthTwo(p);
      LiteralSegment("folder1", p[0]);
      EndsWithChar("-doc.txt", p[1], 0);
    }
  }

  /** In folder1 only some-doc.txt ends in -doc.txt. */
  lemma DocMatches()
    ensures Matches(Demo(), ["folder1", "*-doc.txt"]) == {["folder1", "some-doc.txt"]}
  {
    var t, pat := Demo(), ["folder1", "*-doc.txt"];
    var m := {["folder1", "some-doc.txt"]};
    SomeDocMatches();
    forall p | p in t && p !in m ensures !PathMatches(pat, p) {
      OnlySomeDoc(p);
    }
    MatchesAre(t, pat, m);
  }

  // `whatIs` of folder1 followed by `*-doc.txt` is "file".
  lemma WhatIsDoc()
    ensures Label(WhatIs(Demo(), ["folder1", "*-doc.txt"])) == "file"
  {
    var t, pat := Demo(), ["folder1", "*-doc.txt"];
    DocMatches();
    WhatIsIsClassifiedMatches(t, pat);
    ClassifySingle(t, ["folder1", "some-doc.txt"]);
    assert t[["folder1", "some-doc.txt"]] == File;
  }

  /** No node of the tree matches folder1 followed by `*.jpg`. */
  lemma NoJpg(p: Path)
    requires p in Demo()
    ensures !PathMatches(["folder1", "*.jpg"], p)
  {
    if |p| == 2 {
      assert [Star] + ".jpg" == "*.jpg";
      DepthTwo(p);
      LiteralSegment("folder1", p[0]);
      EndsWithChar(".jpg", p[1], 0);
    }
  }

  /** No node of folder1 ends in .jpg. */
  lemma JpgMatches()
    ensures Matches(Demo(), ["folder1", "*.jpg"]) == {}
  {
    var t, pat := Demo(), ["folder1", "*.jpg"];
    forall p | p in t ensures !PathMatches(pat, p) {
      NoJpg(p);
    }
    MatchesAre(t, pat, {});
  }

  // `whatIs` of folder1 followed by `*.jpg` is "nothing".
  lemma WhatIsJpg()
    ensures Label(WhatIs(Demo(), ["folder1", "*.jpg"])) == "nothing"
  {
    JpgMatches();
    WhatIsIsClassifiedMatches(Demo(), ["folder1", "*.jpg"]);
  }

  /** A directory named folder followed by anything, and a name ending in .mp3, match `folder*` followed by `*.mp3`. */
  lemma TrackMatches(dirTail: string, front: string)
    ensures PathMatches(["folder*", "*.mp3"], ["folder" + dirTail, front + ".mp3"])
  {
    assert "folder*" == "folder" + [Star];
    assert "*.mp3" == [Star] + ".mp3";
    var dir, name := "folder" + dirTail, front + ".mp3";
    assert dir[..6] == "folder";
    LiteralThenStar("folder", dir);
    assert name[|name| - 4..] == ".mp3";
    StarThenLiteral(".mp3", name);
  }

  /** Both tracks match `folder*` followed by `*.mp3`. */
  lemma TracksMatch()
    ensures PathMatches(["folder*", "*.mp3"], ["folder1", "track.mp3"])
    ensures PathMatches(["folder*", "*.mp3"], ["folder2", "track1.mp3"])
  {
    assert "folder1" == "folder" + "1" && "track.mp3" == "track" + ".mp3";
    TrackMatches("1", "track");
    assert "folder2" == "folder" + "2" && "track1.mp3" == "track1" + ".mp3";
    TrackMatches("2", "track1");
  }

  /** No node of the tree other than the two tracks matches `folder*` followed by `*.mp3`. */
  lemma OnlyTracks(p: Path)
    requires p in Demo() && p != ["folder1", "track.mp3"] && p != ["folder2", "track1.mp3"]
    ensures !PathMatches(["folder*", "*.mp3"], p)
  {
    if |p| == 2 {
      assert [Star] + ".mp3" == "*.mp3";
      DepthTwo(p);
      EndsWithChar(".mp3", p[1], 0);
      EndsWithChar(".mp3", p[1], 1);
    }
  }

  /** Two tracks sit directly in a folder* directory. */
  lemma Mp3Matches()
    ensures Matches(Demo(), ["folder*", "*.mp3"]) == {["folder1", "track.mp3"], ["folder2", "track1.mp3"]}
  {
    var t, pat := Demo(), ["folder*", "*.mp3"];
    var m := {["folder1", "track.mp3"], ["folder2", "track1.mp3"]};
    TracksMatch();
    forall p | p in t && p !in m ensures !PathMatches(pat, p) {
      OnlyTracks(p);
    }
    MatchesAre(t, pat, m);
  }

  // `whatIs` of `folder*` followed by `*.mp3` is "collection".
  lemma WhatIsMp3()
    ensures Label(WhatIs(Demo(), ["folder*", "*.mp3"])) == "collection"
  {
    var m := {["folder1", "track.mp3"], ["folder2", "track1.mp3"]};
    Mp3Matches();
    WhatIsIsClassifiedMatches(Demo(), ["folder*", "*.mp3"]);
    assert ["folder1", "track.mp3"] != ["folder2", "track1.mp3"] by {
      assert ["folder1", "track.mp3"][0] != ["folder2", "track1.mp3"][0] by {
        assert "folder1"[6] != "folder2"[6];
      }
    }
    assert |m| == 2;
  }

  /** The top-level names: every one starts with f. */
  const TopLevel: set<Path> := {["folder1"], ["folder2"], ["folder3"], ["folder4"], ["files.txt"]}

  /** A name starting with f matches `f*`. */
  lemma StartsWithF(name: string)
    requires name != [] && name[0] == 'f'
    ensures SegmentMatches("f*", name)
  {
    assert "f" + [Star] == "f*";
    LiteralThenStar("f", name);
    assert name[..1] == [name[0]];
  }

  /** `f*` matches exactly the five top-level nodes. */
  lemma FStarMatches()
    ensures Matches(Demo(), ["f*"]) == TopLevel
  {
    var t, pat := Demo(), ["f*"];
    forall p | p in TopLevel ensures PathMatches(pat, p) {
      StartsWithF(p[0]);
    }
    forall p | p in t && p !in TopLevel ensures !PathMatches(pat, p) {
      if |p| == 1 {
        DepthOne(p);
      }
    }
    MatchesAre(t, pat, TopLevel);
  }

  /** `find("f*")` from the root resolves the pattern and finds the five top-level nodes. */
  lemma FindFStar()
    ensures FindMatches(Demo(), Root, "f*") == TopLevel
  {
    assert Join(["f*"]) == "f*";
    ResolveRelative("f*", ["f*"]);
    FStarMatches();
  }

  /** Of the five, files.txt is the one file and the four folders are directories. */
  lemma FStarKinds()
    ensures |TopLevel| == 5
    ensures OfKind(Demo(), TopLevel, File) == {["files.txt"]}
    ensures |OfKind(Demo(), TopLevel, Dir)| == 4
  {
    var t := Demo();
    assert "folder1"[6] != "folder2"[6];
    assert OfKind(t, TopLevel, Dir) == {["folder1"], ["folder2"], ["folder3"], ["folder4"]};
  }

  // ---------------------------------------------------------------- existence checks

  /** A one-segment relative path resolves to that segment. */
  lemma ResolveOne(a: string)
    requires a != [] && a[0] != Sep && Sep !in a
    ensures Resolve(Root, a) == [a]
  {
    ResolveRelative(a, [a]);
  }

  /** A two-segment relative path resolves to its two segments. */
  lemma ResolveTwo(a: string, b: string)
    requires a != [] && a[0] != Sep && Sep !in a && Sep !in b
    ensures Resolve(Root, a + [Sep] + b) == [a, b]
  {
    assert [a, b][..1] == [a];
    ResolveRelative(a + [Sep] + b, [a, b]);
  }

  /** A three-segment relative path resolves to its three segments. */
  lemma ResolveThree(a: string, b: string, c: string)
    requires a != [] && a[0] != Sep && Sep !in a && Sep !in b && Sep !in c
    ensures Resolve(Root, a + [Sep] + b + [Sep] + c) == [a, b, c]
  {
    assert [a, b, c][..2] == [a, b] && [a, b][..1] == [a];
    assert Join([a, b]) == a + [Sep] + b;
    ResolveRelative(a + [Sep] + b + [Sep] + c, [a, b, c]);
  }

  /** A segment is literal: no separator and no wildcard. */
  predicate Plain(a: string)
  {
    Sep !in a && Star !in a
  }

  /** The checks of a relative path with one literal segment are lookups of that segment. */
  lemma IsOne(t: Tree, a: string)
    requires a != [] && a[0] != Sep && Plain(a)
    ensures Is(t, Root, FileCheck, a) <==> [a] in t && t[[a]] == File
    ensures Is(t, Root, DirCheck, a) <==> [a] in t && t[[a]] == Dir
    ensures Is(t, Root, AnyCheck, a) <==> [a] in t
  {
    ResolveOne(a);
    assert !HasWildcard([a]);
    IsLiteral(t, Root, a);
  }

  /** The checks of a relative path with two literal segments are lookups of those segments. */
  lemma IsTwo(t: Tree, a: string, b: string)
    requires a != [] && a[0] != Sep && Plain(a) && Plain(b)
    ensures Is(t, Root, FileCheck, a + [Sep] + b) <==> [a, b] in t && t[[a, b]] == File
    ensures Is(t, Root, DirCheck, a + [Sep] + b) <==> [a, b] in t && t[[a, b]] == Dir
    ensures Is(t, Root, AnyCheck, a + [Sep] + b) <==> [a, b] in t
  {
    ResolveTwo(a, b);
    assert !HasWildcard([a, b]) by {
      forall i | 0 <= i < 2 ensures Star !in [a, b][i] {
      }
    }
    IsLiteral(t, Root, a + [Sep] + b);
  }

  /** The checks of a relative path with three literal segments are lookups of those segments. */
  lemma IsThree(t: Tree, a: string, b: string, c: string)
    requires a != [] && a[0] != Sep && Plain(a) && Plain(b) && Plain(c)
    ensures Is(t, Root, FileCheck, a + [Sep] + b + [Sep] + c) <==> [a, b, c] in t && t[[a, b, c]] == File
  {
    ResolveThree(a, b, c);
    assert !HasWildcard([a, b, c]) by {
      forall i | 0 <= i < 3 ensures Star !in [a, b, c][i] {
      }
    }
    IsLiteral(t, Root, a + [Sep] + b + [Sep] + c);
  }

  const Track: string := "folder1" + "/" + "track.mp3"
  /** The track's path written in full, the root first. */
  const AbsoluteTrack: string := Root + "/" + Track
  const Folder41Path: string := "folder4" + "/" + "folder41"
  const Folder42Path: string := "folder4" + "/" + "folder42"
  const OtherPdfPath: string := "folder4" + "/" + "folder41" + "/" + "other.pdf"

  /** `isFile` and `isAny`: the track is a file. */
  lemma IsFileTrack()
    ensures Is(Demo(), Root, FileCheck, Track) && Is(Demo(), Root, AnyCheck, Track)
  {
    KnownFiles();
    IsTwo(Demo(), "folder1", "track.mp3");
  }

  /** `isFile` of the track written with the root in front. */
  lemma IsFileAbsoluteTrack()
    ensures Is(Demo(), Root, FileCheck, AbsoluteTrack)
  {
    IsFileTrack();
    AbsoluteAgreesWithRelative(Root, Track);
  }

  /** `isFile` and `isAny` of a missing file are false. */
  lemma MissingTrack()
    ensures !Is(Demo(), Root, FileCheck, "folder1" + "/" + "track.txt")
    ensures !Is(Demo(), Root, AnyCheck, "folder1" + "/" + "track.txt")
  {
    assert ["folder1", "track.txt"] !in Demo() by {
      forall p | p in Demo() && |p| == 2 ensures p != ["folder1", "track.txt"] {
        DepthTwo(p);
        assert "track.mp3"[6] != "track.txt"[6];
      }
    }
    IsTwo(Demo(), "folder1", "track.txt");
  }

  /** `isDir` and `isAny` of folder4/folder42 are true. */
  lemma IsDirFolder42()
    ensures Is(Demo(), Root, DirCheck, Folder42Path) && Is(Demo(), Root, AnyCheck, Folder42Path)
  {
    InnerDirs();
    IsTwo(Demo(), "folder4", "folder42");
  }

  /** `isDir` and `isAny` of the missing folder5 are false. */
  lemma MissingFolder5()
    ensures !Is(Demo(), Root, DirCheck, "folder5")
    ensures !Is(Demo(), Root, AnyCheck, "folder5")
  {
    assert ["folder5"] !in Demo() by {
      forall p | p in Demo() && |p| == 1 ensures p != ["folder5"] {
        DepthOne(p);
      }
    }
    IsOne(Demo(), "folder5");
  }

  /** files.txt is a file. */
  lemma FilesTxt()
    ensures Is(Demo(), Root, FileCheck, "files.txt") && !Is(Demo(), Root, DirCheck, "files.txt")
    ensures Is(Demo(), Root, AnyCheck, "files.txt")
  {
    KnownFiles();
    IsOne(Demo(), "files.txt");
  }

  /** folder4/folder41/other.pdf is a file. */
  lemma OtherPdf()
    ensures Is(Demo(), Root, FileCheck, OtherPdfPath)
  {
    KnownFiles();
    IsThree(Demo(), "folder4", "folder41", "other.pdf");
  }

  /** folder1 is a directory. */
  lemma Folder1IsDir()
    ensures Is(Demo(), Root, DirCheck, "folder1") && Is(Demo(), Root, AnyCheck, "folder1")
  {
    TopDirs();
    IsOne(Demo(), "folder1");
  }

  /** folder1 is not a file. */
  lemma Folder1IsNotFile()
    ensures !Is(Demo(), Root, FileCheck, "folder1")
  {
    TopDirs();
    IsOne(Demo(), "folder1");
  }

  /** folder4/folder41 is a directory. */
  lemma Folder41()
    ensures Is(Demo(), Root, DirCheck, Folder41Path) && Is(Demo(), Root, AnyCheck, Folder41Path)
  {
    InnerDirs();
    IsTwo(Demo(), "folder4", "folder41");
  }

  /** A file that is not in the tree is not a file. */
  lemma MissingFile()
    ensures !Is(Demo(), Root, FileCheck, "some-missing-file.txt")
  {
    OutsideDemo(["some-missing-file.txt"]);
    IsOne(Demo(), "some-missing-file.txt");
  }

  /** A check of two paths holds when it holds of each. */
  lemma AreAllTwo(t: Tree, c: Check, x: string, y: string)
    ensures AreAll(t, Root, c, [x, y]) <==> Is(t, Root, c, x) && Is(t, Root, c, y)
  {
    assert [x, y][1..] == [y];
  }

  /** A check of three paths holds when it holds of each. */
  lemma AreAllThree(t: Tree, c: Check, x: string, y: string, z: string)
    ensures AreAll(t, Root, c, [x, y, z]) <==> Is(t, Root, c, x) && Is(t, Root, c, y) && Is(t, Root, c, z)
  {
    assert [x, y, z][1..] == [y, z];
    AreAllTwo(t, c, y, z);
  }

  /** `areFiles`: true of three files; false once a directory or a missing path is listed. */
  lemma AreFilesChecks()
    ensures AreAll(Demo(), Root, FileCheck, [Track, "files.txt", OtherPdfPath])
    ensures !AreAll(Demo(), Root, FileCheck, ["folder1", "files.txt"])
    ensures !AreAll(Demo(), Root, FileCheck, ["some-missing-file.txt", "files.txt"])
  {
    IsFileTrack();
    FilesTxt();
    OtherPdf();
    Folder1IsNotFile();
    MissingFile();
    AreAllThree(Demo(), FileCheck, Track, "files.txt", OtherPdfPath);
    AreAllTwo(Demo(), FileCheck, "folder1", "files.txt");
    AreAllTwo(Demo(), FileCheck, "some-missing-file.txt", "files.txt");
  }

  /** `areDirs`: true of two directories; false once a file or a missing path is listed. */
  lemma AreDirsChecks()
    ensures AreAll(Demo(), Root, DirCheck, ["folder1", Folder41Path])
    ensures !AreAll(Demo(), Root, DirCheck, ["folder1", "files.txt"])
    ensures !AreAll(Demo(), Root, DirCheck, ["folder1", "folder5"])
  {
    Folder1IsDir();
    Folder41();
    FilesTxt();
    MissingFolder5();
    AreAllTwo(Demo(), DirCheck, "folder1", Folder41Path);
    AreAllTwo(Demo(), DirCheck, "folder1", "files.txt");
    AreAllTwo(Demo(), DirCheck, "folder1", "folder5");
  }

  /** `areAny`: true of directories and files alike; false once a missing path is listed. */
  lemma AreAnyChecks()
    ensures AreAll(Demo(), Root, AnyCheck, ["folder1", Folder41Path])
    ensures AreAll(Demo(), Root, AnyCheck, ["folder1", "files.txt"])
    ensures !AreAll(Demo(), Root, AnyCheck, ["folder1", "folder5"])
  {
    Folder1IsDir();
    Folder41();
    FilesTxt();
    MissingFolder5();
    AreAllTwo(Demo(), AnyCheck, "folder1", Folder41Path);
    AreAllTwo(Demo(), AnyCheck, "folder1", "files.txt");
    AreAllTwo(Demo(), AnyCheck, "folder1", "folder5");
  }

  // ---------------------------------------------------------------- files, dirs, create

  /** The root's children of a kind are the top-level nodes of that kind. */
  lemma RootChildrenAreTopLevel(k: Kind)
    ensures RootChildren(Demo(), k) == OfKind(Demo(), TopLevel, k)
  {
    var t := Demo();
    TopLevelNodes();
    forall p | p in t && |p| == 1 ensures p in TopLevel {
      DepthOne(p);
    }
    ChildrenOfKind(t, TopLevel, k);
  }

  /** The five top-level names are one-segment nodes of the tree. */
  lemma TopLevelNodes()
    ensures TopLevel <= Demo().Keys
    ensures forall p :: p in TopLevel ==> |p| == 1
  {
  }

  /** When `top` is exactly the one-segment nodes, the root's children of a kind are the members of `top` of that kind. */
  lemma ChildrenOfKind(t: Tree, top: set<Path>, k: Kind)
    requires top <= t.Keys && forall p :: p in top ==> |p| == 1
    requires forall p :: p in t && |p| == 1 ==> p in top
    ensures RootChildren(t, k) == OfKind(t, top, k)
  {
  }

  /** `files()` and `dirs()` of the root: files.txt, and the four folders. */
  lemma RootFilesAndDirs()
    ensures RootChildren(Demo(), File) == {["files.txt"]}
    ensures |RootChildren(Demo(), Dir)| == 4
  {
    RootChildrenAreTopLevel(File);
    RootChildrenAreTopLevel(Dir);
    FStarKinds();
  }

  /** Every node's first segment starts with f. */
  lemma FirstSegmentsStartWithF(p: Path)
    requires p in Demo()
    ensures |p| >= 1 && p[0] != [] && p[0][0] == 'f'
  {
  }

  /** A path whose first segment does not start with f is no node. */
  lemma OutsideDemo(q: Path)
    requires |q| >= 1 && q[0] != [] && q[0][0] != 'f'
    ensures q !in Demo()
  {
    forall p | p in Demo() ensures p != q {
      FirstSegmentsStartWithF(p);
    }
  }

  /** No node lies under tmp, so every path there can be created. */
  lemma TmpIsFree(q: Path)
    requires ValidPath(q) && q[0] == "tmp"
    ensures CanCreate(Demo(), q)
  {
    forall i | 1 <= i <= |q| ensures q[..i] !in Demo() {
      assert q[..i][0] == "tmp";
      OutsideDemo(q[..i]);
    }
    assert q[..|q|] == q;
  }

  // ---------------------------------------------------------------- well formed

  /** The names used at the top level are valid. */
  lemma TopNamesValid()
    ensures ValidName("folder1") && ValidName("folder2") && ValidName("folder3") && ValidName("folder4")
    ensures ValidName("files.txt")
  {
  }

  /** The names used inside folder1 and folder2 are valid. */
  lemma InnerNamesValid()
    ensures ValidName("folder11") && ValidName("some-doc.txt") && ValidName("track.mp3") && ValidName("track1.mp3")
    ensures ValidName("folder41") && ValidName("folder42") && ValidName("folder43")
  {
  }

  /** The names of the files three levels down are valid. */
  lemma LeafNamesValid()
    ensures ValidName("some-doc.pdf") && ValidName("other.pdf") && ValidName("other.mp3") && ValidName("picture.jpg")
  {
  }

  /** folder1, folder2 and folder4 are directories. */
  lemma TopDirs()
    ensures ["folder1"] in Demo() && Demo()[["folder1"]] == Dir
    ensures ["folder2"] in Demo() && Demo()[["folder2"]] == Dir
    ensures ["folder4"] in Demo() && Demo()[["folder4"]] == Dir
  {
  }

  /** files.txt, folder1/track.mp3 and folder4/folder41/other.pdf are files. */
  lemma KnownFiles()
    ensures ["files.txt"] in Demo() && Demo()[["files.txt"]] == File
    ensures ["folder1", "track.mp3"] in Demo() && Demo()[["folder1", "track.mp3"]] == File
    ensures ["folder4", "folder41", "other.pdf"] in Demo() && Demo()[["folder4", "folder41", "other.pdf"]] == File
    ensures ["folder1", "some-doc.txt"] in Demo() && Demo()[["folder1", "some-doc.txt"]] == File
  {
  }

  /** folder1/folder11 and the three sub-folders of folder4 are directories. */
  lemma InnerDirs()
    ensures ["folder1", "folder11"] in Demo() && Demo()[["folder1", "folder11"]] == Dir
    ensures ["folder4", "folder41"] in Demo() && Demo()[["folder4", "folder41"]] == Dir
    ensures ["folder4", "folder42"] in Demo() && Demo()[["folder4", "folder42"]] == Dir
    ensures ["folder4", "folder43"] in Demo() && Demo()[["folder4", "folder43"]] == Dir
  {
  }

  /** Each top-level node has a valid name. */
  lemma WellFormedAtOne(p: Path)
    requires p in Demo() && |p| == 1
    ensures ValidPath(p)
  {
    DepthOne(p);
    TopNamesValid();
  }

  /** Each node two levels down has a valid name and a directory above it. */
  lemma WellFormedAtTwo(p: Path)
    requires p in Demo() && |p| == 2
    ensures ValidPath(p) && p[..1] in Demo() && Demo()[p[..1]] == Dir
  {
    DepthTwo(p);
    TopNamesValid();
    InnerNamesValid();
    TopDirs();
    assert p[..1] == [p[0]];
  }

  /** Each node three levels down has a valid name and a directory above it. */
  lemma WellFormedAtThree(p: Path)
    requires p in Demo() && |p| == 3
    ensures ValidPath(p) && p[..2] in Demo() && Demo()[p[..2]] == Dir
  {
    DepthThree(p);
    TopNamesValid();
    InnerNamesValid();
    LeafNamesValid();
    InnerDirs();
    assert p[..2] == [p[0], p[1]];
  }

  /** The demonstration tree is a well-formed tree: every node's parent is a directory in it. */
  lemma DemoWellFormed()
    ensures WellFormed(Demo())
  {
    var t := Demo();
    forall p | Node(t, p) ensures ValidPath(p) && (|p| > 1 ==> p[..|p| - 1] in t && t[p[..|p| - 1]] == Dir) {
      DepthAtMostThree(p);
      if |p| == 1 {
        WellFormedAtOne(p);
      } else if |p| == 2 {
        WellFormedAtTwo(p);
      } else {
        WellFormedAtThree(p);
      }
    }
  }
}
