/**
 * The directory tree under a Filesystem's root, as a map from relative paths
 * (lists of segments) to the kind of node found there, and the pure queries
 * of the Filesystem facade: `whatIs`, `isFile`/`isDir`/`isAny`, their plural
 * forms and `find`, plus the trees that `file`/`dir` creation and `remove`
 * leave behind.
 */
module Tree {
  import opened Errors
  import opened Entries
  import opened PathStrings
  import opened Glob

  type Path = seq<string>
  type Tree = map<Path, Kind>

  /** A segment a node can have: non-empty and free of separators. */
  predicate ValidName(n: string)
  {
    n != [] && Sep !in n
  }

  predicate ValidPath(p: Path)
  {
    |p| >= 1 && forall i :: 0 <= i < |p| ==> ValidName(p[i])
  }

  /** Is `q` a prefix of `p` (an ancestor of it, or `p` itself)? */
  predicate Below(q: Path, p: Path)
  {
    |q| <= |p| && p[..|q|] == q
  }

  /**
   * `p` is a node of `t`. Stating WellFormed over this predicate rather than
   * over `p in t` keeps the parent it mentions from setting off the
   * quantifier again for the grandparent, and so on up to the root.
   */
  predicate Node(t: Tree, p: Path)
  {
    p in t
  }

  /** Every node has a valid path, and the parent of every nested node is a directory. */
  ghost predicate WellFormed(t: Tree)
  {
    forall p {:trigger Node(t, p)} :: Node(t, p) ==> ValidPath(p) && (|p| > 1 ==> p[..|p| - 1] in t && t[p[..|p| - 1]] == Dir)
  }

  /** Every ancestor of a node of a well-formed tree is a directory of it. */
  lemma {:induction false} AncestorsAreDirs(t: Tree, p: Path, i: nat)
    requires WellFormed(t) && p in t
    requires 1 <= i < |p|
    ensures p[..i] in t && t[p[..i]] == Dir
    decreases |p| - i
  {
    assert Node(t, p);
    var up := p[..|p| - 1];
    if i < |up| {
      AncestorsAreDirs(t, up, i);
      assert up[..i] == p[..i];
    }
  }

  // ---------------------------------------------------------------- resolving

  /**
   * A path as the caller writes it, relative to the root: a path that starts
   * with the root and a separator is taken as absolute and the root is cut.
   */
  function Relative(root: string, p: string): (r: string)
    ensures r == p || p == root + [Sep] + r
  {
    if |root| + 1 <= |p| && p[..|root| + 1] == root + [Sep] then p[|root| + 1..] else p
  }

  function Resolve(root: string, p: string): Path
  {
    Split(Relative(root, p))
  }

  /** Every path of a list, resolved. */
  function ResolveAll(root: string, ps: seq<string>): (qs: seq<Path>)
    ensures |qs| == |ps|
  {
    if ps == [] then [] else ResolveAll(root, ps[..|ps| - 1]) + [Resolve(root, ps[|ps| - 1])]
  }

  /** Resolving a list resolves each of its paths in place. */
  lemma {:induction false} ResolveAllPointwise(root: string, ps: seq<string>)
    ensures forall i :: 0 <= i < |ps| ==> ResolveAll(root, ps)[i] == Resolve(root, ps[i])
  {
    if ps != [] {
      var init, last := ps[..|ps| - 1], ps[|ps| - 1];
      var front := ResolveAll(root, init);
      var r := ResolveAll(root, ps);
      assert r == front + [Resolve(root, last)];
      ResolveAllPointwise(root, init);
      forall i | 0 <= i < |ps| ensures r[i] == Resolve(root, ps[i]) {
        if i < |init| {
          assert r[i] == front[i] && init[i] == ps[i];
        } else {
          assert r[i] == Resolve(root, last) && ps[i] == last;
        }
      }
    }
  }

  /** Resolving a prefix of a list gives the prefix of its resolution. */
  lemma {:induction false} ResolveAllPrefix(root: string, ps: seq<string>, n: nat)
    requires n <= |ps|
    ensures ResolveAll(root, ps[..n]) == ResolveAll(root, ps)[..n]
    decreases |ps|
  {
    if n < |ps| {
      var init := ps[..|ps| - 1];
      ResolveAllPrefix(root, init, n);
      assert init[..n] == ps[..n];
    } else {
      assert ps[..n] == ps;
    }
  }

  /** Resolving one more path appends its resolution. */
  lemma ResolveAllSnoc(root: string, ps: seq<string>, i: nat)
    requires i < |ps|
    ensures ResolveAll(root, ps[..i + 1]) == ResolveAll(root, ps[..i]) + [Resolve(root, ps[i])]
  {
    assert ps[..i + 1][..i] == ps[..i];
  }

  /** The absolute path string of a node: the root, a separator, then the segments. */
  function AbsPath(root: string, p: Path): string
  {
    root + [Sep] + Join(p)
  }

  /** A root-prefixed absolute path and the relative path it extends resolve to the same node. */
  lemma AbsoluteAgreesWithRelative(root: string, q: string)
    requires root != [] && root[0] == Sep
    requires q == [] || q[0] != Sep
    ensures Resolve(root, root + [Sep] + q) == Resolve(root, q)
  {
    var abs := root + [Sep] + q;
    assert abs[..|root| + 1] == root + [Sep];
    assert abs[|root| + 1..] == q;
    if |root| + 1 <= |q| {
      assert q[..|root| + 1][0] == q[0];
      assert (root + [Sep])[0] == root[0];
    }
  }

  /** Distinct node paths give distinct absolute path strings. */
  lemma AbsPathInjective(root: string, p: Path, q: Path)
    requires ValidPath(p) && ValidPath(q) && p != q
    ensures AbsPath(root, p) != AbsPath(root, q)
  {
    var n := |root| + 1;
    assert Join(p) == AbsPath(root, p)[n..];
    assert Join(q) == AbsPath(root, q)[n..];
    SplitJoin(p);
    SplitJoin(q);
  }

  /** The entry of a node is named by the node's last segment. */
  lemma AbsPathName(root: string, p: Path)
    requires ValidPath(p)
    ensures Name(AbsPath(root, p)) == p[|p| - 1]
  {
    var last := p[|p| - 1];
    if |p| == 1 {
      NameAfterSep(root, last);
    } else {
      var init := p[..|p| - 1];
      assert AbsPath(root, p) == (root + [Sep] + Join(init)) + [Sep] + last;
      NameAfterSep(root + [Sep] + Join(init), last);
    }
  }

  // ---------------------------------------------------------------- whatIs

  /** The nodes a pattern matches. */
  function Matches(t: Tree, pat: Path): (m: set<Path>)
    ensures m <= t.Keys
  {
    set p | p in t && PathMatches(pat, p)
  }

  /** `whatIs`: what a path or pattern stands for. */
  datatype Resolution = Nothing | Single(kind: Kind) | Many

  /** The word `whatIs` answers with. */
  function Label(r: Resolution): string
  {
    match r
    case Nothing => "nothing"
    case Single(File) => "file"
    case Single(Dir) => "dir"
    case Many => "collection"
  }

  /** How a set of matched nodes is reported: none, the kind of the only one, or a collection. */
  function Classify(t: Tree, m: set<Path>): Resolution
    requires m <= t.Keys
  {
    if |m| == 0 then Nothing
    else if |m| == 1 then Single(if forall p :: p in m ==> t[p] == File then File else Dir)
    else Many
  }

  /** A literal path is looked up; a pattern is expanded and its matches counted. */
  function WhatIs(t: Tree, pat: Path): Resolution
  {
    if !HasWildcard(pat) then (if pat in t then Single(t[pat]) else Nothing)
    else Classify(t, Matches(t, pat))
  }

  /** Looking a literal path up agrees with expanding it as a pattern. */
  lemma WhatIsIsClassifiedMatches(t: Tree, pat: Path)
    ensures WhatIs(t, pat) == Classify(t, Matches(t, pat))
  {
    if !HasWildcard(pat) {
      forall p | p in t ensures PathMatches(pat, p) <==> p == pat {
        LiteralPath(pat, p);
      }
      if pat in t {
        assert Matches(t, pat) == {pat};
      } else {
        assert Matches(t, pat) == {};
      }
    }
  }

  /** `whatIs` in terms of the matches: nothing, one node of a kind, or more than one. */
  lemma WhatIsByCount(t: Tree, pat: Path)
    ensures WhatIs(t, pat) == Nothing <==> Matches(t, pat) == {}
    ensures WhatIs(t, pat).Single? <==> |Matches(t, pat)| == 1
    ensures WhatIs(t, pat) == Many <==> |Matches(t, pat)| > 1
    ensures forall p :: p in Matches(t, pat) && |Matches(t, pat)| == 1 ==> WhatIs(t, pat) == Single(t[p])
  {
    WhatIsIsClassifiedMatches(t, pat);
    var m := Matches(t, pat);
    if |m| == 1 {
      var p :| p in m;
      var rest := m - {p};
      assert |rest| == 0;
      assert m == {p};
    }
  }

  // ---------------------------------------------------------------- existence checks

  /** Which existence check: `isFile`, `isDir` or `isAny`. */
  datatype Check = FileCheck | DirCheck | AnyCheck

  function Accepts(c: Check, r: Resolution): bool
  {
    match r
    case Single(File) => c != DirCheck
    case Single(Dir) => c != FileCheck
    case _ => false
  }

  /** `isFile(p)`, `isDir(p)`, `isAny(p)`. */
  function Is(t: Tree, root: string, c: Check, p: string): bool
  {
    Accepts(c, WhatIs(t, Resolve(root, p)))
  }

  /** For a literal path, the checks are plain lookups. */
  lemma IsLiteral(t: Tree, root: string, p: string)
    requires !HasWildcard(Resolve(root, p))
    ensures Is(t, root, FileCheck, p) <==> Resolve(root, p) in t && t[Resolve(root, p)] == File
    ensures Is(t, root, DirCheck, p) <==> Resolve(root, p) in t && t[Resolve(root, p)] == Dir
    ensures Is(t, root, AnyCheck, p) <==> Resolve(root, p) in t
  {
  }

  /** `isAny` is `isFile` or `isDir`. */
  lemma AnyIsFileOrDir(t: Tree, root: string, p: string)
    ensures Is(t, root, AnyCheck, p) <==> Is(t, root, FileCheck, p) || Is(t, root, DirCheck, p)
  {
  }

  /** `areFiles(ps)`, `areDirs(ps)`, `areAny(ps)`: the check holds of every listed path. */
  function AreAll(t: Tree, root: string, c: Check, ps: seq<string>): (r: bool)
    ensures r <==> forall i :: 0 <= i < |ps| ==> Is(t, root, c, ps[i])
  {
    if ps == [] then true
    else Is(t, root, c, ps[0]) && AreAll(t, root, c, ps[1..])
  }

  // ---------------------------------------------------------------- find, files, dirs

  /** `find(pattern)`: every match, even when there is only one. */
  function FindMatches(t: Tree, root: string, pattern: string): (m: set<Path>)
    ensures m <= t.Keys
  {
    Matches(t, Resolve(root, pattern))
  }

  /** `whatIs(p)` is what `find(p)` gives, classified: nothing, one node's kind, or a collection. */
  lemma FindIsWhatIs(t: Tree, root: string, p: string)
    ensures WhatIs(t, Resolve(root, p)) == Classify(t, FindMatches(t, root, p))
  {
    WhatIsIsClassifiedMatches(t, Resolve(root, p));
  }

  /** `find` of a path without wildcards gives that node, or nothing when it is absent. */
  lemma FindLiteral(t: Tree, root: string, p: string)
    requires !HasWildcard(Resolve(root, p))
    ensures FindMatches(t, root, p) == if Resolve(root, p) in t then {Resolve(root, p)} else {}
  {
    var q := Resolve(root, p);
    forall n | n in t ensures PathMatches(q, n) <==> n == q {
      LiteralPath(q, n);
    }
  }

  /** The nodes of a kind directly under the root: `files()` and `dirs()` with no argument. */
  function RootChildren(t: Tree, k: Kind): set<Path>
  {
    set p | p in t && |p| == 1 && t[p] == k
  }

  /** The nodes of a kind among a set. */
  function OfKind(t: Tree, m: set<Path>, k: Kind): set<Path>
    requires m <= t.Keys
  {
    set p | p in m && t[p] == k
  }

  /** `*` resolves to the one-segment pattern `*`, whatever the root. */
  lemma ResolveStar(root: string)
    ensures Resolve(root, [Star]) == [[Star]]
  {
    assert Relative(root, [Star]) == [Star] by {
      if |root| + 1 <= 1 {
        assert [Star][..|root| + 1][0] != (root + [Sep])[|root|];
      }
    }
    assert Join([[Star]]) == [Star];
    SplitJoin([[Star]]);
  }

  /** `files()` and `dirs()` with no argument are `find("*")` narrowed to one kind. */
  lemma RootChildrenAreStar(t: Tree, root: string, k: Kind)
    ensures RootChildren(t, k) == OfKind(t, FindMatches(t, root, [Star]), k)
  {
    ResolveStar(root);
    forall p | p in t ensures PathMatches([[Star]], p) <==> |p| == 1 {
      if |p| == 1 {
        StarMatchesAll(p[0]);
      }
    }
  }

  /** Every match is a file or a directory: the two kinds split `find`'s result. */
  lemma KindsSplitMatches(t: Tree, m: set<Path>)
    requires m <= t.Keys
    ensures |OfKind(t, m, File)| + |OfKind(t, m, Dir)| == |m|
  {
    assert OfKind(t, m, File) + OfKind(t, m, Dir) == m;
    assert OfKind(t, m, File) !! OfKind(t, m, Dir);
  }

  // ---------------------------------------------------------------- create and remove

  /** The ancestors of a path, which `file`/`dir` creation makes when missing. */
  function Ancestors(q: Path): set<Path>
  {
    set i | 1 <= i < |q| :: q[..i]
  }

  /** Creation is possible when the path is a valid new one and no ancestor is a file. */
  predicate CanCreate(t: Tree, q: Path)
  {
    ValidPath(q) && q !in t && forall i :: 1 <= i < |q| && q[..i] in t ==> t[q[..i]] == Dir
  }

  /** The tree after creating node `q` of kind `k` and every missing ancestor as a directory. */
  function Created(t: Tree, q: Path, k: Kind): Tree
  {
    (t + map p | p in Ancestors(q) && p !in t :: Dir)[q := k]
  }

  /** Creation adds `q` and its ancestors, keeps every existing node, and keeps the tree well formed. */
  lemma CreatedSpec(t: Tree, q: Path, k: Kind)
    requires WellFormed(t) && CanCreate(t, q)
    ensures WellFormed(Created(t, q, k))
    ensures q in Created(t, q, k) && Created(t, q, k)[q] == k
    ensures forall p :: p in t ==> p in Created(t, q, k) && Created(t, q, k)[p] == t[p]
    ensures forall p :: p in Created(t, q, k) && p !in t ==> p == q || (p in Ancestors(q) && Created(t, q, k)[p] == Dir)
    ensures forall i :: 1 <= i < |q| ==> q[..i] in Created(t, q, k) && Created(t, q, k)[q[..i]] == Dir
  {
    var c := Created(t, q, k);
    forall i | 1 <= i < |q| ensures q[..i] in c && c[q[..i]] == Dir {
      assert q[..i] in Ancestors(q);
      assert q[..i] != q;
    }
    forall p | Node(c, p) ensures ValidPath(p) && (|p| > 1 ==> p[..|p| - 1] in c && c[p[..|p| - 1]] == Dir) {
      if p in t {
        assert Node(t, p);
        assert p != q;
      } else if p != q {
        var i :| 1 <= i < |q| && p == q[..i];
        assert forall j :: 0 <= j < |p| ==> p[j] == q[j];
        if |p| > 1 {
          assert p[..|p| - 1] == q[..i - 1];
        }
      } else if |p| > 1 {
        assert p[..|p| - 1] == q[..|q| - 1];
      }
    }
  }

  /** Once created, a literal path passes the check of its kind. */
  lemma CreatedIs(t: Tree, root: string, p: string, k: Kind)
    requires !HasWildcard(Resolve(root, p))
    ensures Is(Created(t, Resolve(root, p), k), root, if k == File then FileCheck else DirCheck, p)
    ensures Is(Created(t, Resolve(root, p), k), root, AnyCheck, p)
  {
    IsLiteral(Created(t, Resolve(root, p), k), root, p);
  }

  /** The tree after removing `q` and everything below it. */
  function Removed(t: Tree, q: Path): Tree
  {
    map p | p in t && !Below(q, p) :: t[p]
  }

  /** Removal drops exactly `q` and its descendants and keeps the tree well formed. */
  lemma RemovedSpec(t: Tree, q: Path)
    requires WellFormed(t)
    ensures WellFormed(Removed(t, q))
    ensures q !in Removed(t, q)
    ensures forall p :: p in Removed(t, q) <==> p in t && !Below(q, p)
    ensures forall p :: p in Removed(t, q) ==> Removed(t, q)[p] == t[p]
  {
    var r := Removed(t, q);
    assert Below(q, q);
    forall p | Node(r, p) ensures ValidPath(p) && (|p| > 1 ==> p[..|p| - 1] in r && r[p[..|p| - 1]] == Dir) {
      assert Node(t, p);
      var up := p[..|p| - 1];
      if |q| <= |up| {
        assert p[..|q|] == up[..|q|];
      }
    }
  }

  /**
   * Removing paths one after another, as `removeAll` does: the final tree, or
   * None when a path is missing by the time its turn comes.
   */
  function RemovedAll(t: Tree, qs: seq<Path>): Option<Tree>
    decreases |qs|
  {
    if qs == [] then Some(t)
    else if qs[0] !in t then None
    else RemovedAll(Removed(t, qs[0]), qs[1..])
  }

  /** Removing one more path continues from where the earlier removals left the tree. */
  lemma {:induction false} RemovedAllSnoc(t: Tree, qs: seq<Path>, q: Path)
    ensures RemovedAll(t, qs + [q]) ==
      if RemovedAll(t, qs).None? || q !in RemovedAll(t, qs).value then None
      else Some(Removed(RemovedAll(t, qs).value, q))
    decreases |qs|
  {
    if qs == [] {
      assert qs + [q] == [q] && [q][1..] == [];
    } else {
      assert (qs + [q])[0] == qs[0] && (qs + [q])[1..] == qs[1..] + [q];
      if qs[0] in t {
        RemovedAllSnoc(Removed(t, qs[0]), qs[1..], q);
      }
    }
  }

  /** One step of removing a list in turn: the path at `i` is there and is removed next. */
  lemma RemovedAllStep(t0: Tree, qs: seq<Path>, i: nat, t: Tree)
    requires i < |qs| && qs[i] in t
    requires RemovedAll(t0, qs) == RemovedAll(t, qs[i..]) && RemovedAll(t0, qs[..i]) == Some(t)
    ensures RemovedAll(t0, qs) == RemovedAll(Removed(t, qs[i]), qs[i + 1..])
    ensures RemovedAll(t0, qs[..i + 1]) == Some(Removed(t, qs[i]))
  {
    RemovedAllSnoc(t0, qs[..i], qs[i]);
    assert qs[..i] + [qs[i]] == qs[..i + 1];
    assert qs[i..][1..] == qs[i + 1..];
  }

  /** A sequence of removals keeps the tree well formed, only drops nodes, and leaves none of the paths. */
  lemma {:induction false} RemovedAllSpec(t: Tree, qs: seq<Path>)
    requires WellFormed(t) && RemovedAll(t, qs).Some?
    ensures WellFormed(RemovedAll(t, qs).value)
    ensures forall p :: p in RemovedAll(t, qs).value ==> p in t && RemovedAll(t, qs).value[p] == t[p]
    ensures forall i :: 0 <= i < |qs| ==> qs[i] !in RemovedAll(t, qs).value
    decreases |qs|
  {
    if qs != [] {
      RemovedSpec(t, qs[0]);
      RemovedAllSpec(Removed(t, qs[0]), qs[1..]);
      forall i | 0 <= i < |qs| ensures qs[i] !in RemovedAll(t, qs).value {
        if i > 0 {
          assert qs[i] == qs[1..][i - 1];
        }
      }
    }
  }

  /** Once removed, a literal path is neither a file nor a directory. */
  lemma RemovedIsNothing(t: Tree, root: string, p: string)
    requires WellFormed(t)
    requires !HasWildcard(Resolve(root, p))
    ensures !Is(Removed(t, Resolve(root, p)), root, AnyCheck, p)
  {
    RemovedSpec(t, Resolve(root, p));
  }
}
