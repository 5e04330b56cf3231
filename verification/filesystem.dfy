/**
 * The Filesystem facade: a root directory and the tree under it. Queries are
 * the pure functions of module Tree; this class holds the operations that
 * change the tree (`file`/`dir` with creation, `remove`, `removeAll`) and
 * those that hand back Entry and Collection objects.
 */
module Filesystems {
  import opened Errors
  import opened Entries
  import opened Collections
  import opened Tree
  import PathStrings
  import Glob

  class Filesystem {
    const root: string
    var tree: Tree

    ghost predicate Valid()
      reads this
    {
      WellFormed(tree)
    }

    constructor (root: string, tree: Tree)
      requires WellFormed(tree)
      ensures Valid() && this.root == root && this.tree == tree
    {
      this.root := root;
      this.tree := tree;
    }

    /** `path()`: the root, with a trailing separator. */
    function PathOf(): (r: string)
      reads this
      ensures |r| == |root| + 1 && r[..|root|] == root && r[|root|] == PathStrings.Sep
    {
      root + [PathStrings.Sep]
    }

    /** The entry of the node at `q`, which must be there and of kind `k`. */
    method LookupNode(q: Path, k: Kind) returns (r: Result<Entry>)
      requires Valid()
      ensures r.Ok? <==> IsNodeOf(q, k)
      ensures r.Err? ==> r.error == FilesystemException
      ensures r.Ok? ==> fresh(r.value) && r.value.path == AbsPath(root, q) && r.value.kind == k
      ensures r.Ok? ==> ValidPath(q)
    {
      if q in tree && tree[q] == k {
        assert Node(tree, q);
        var e := new Entry(AbsPath(root, q), k);
        return Ok(e);
      }
      return Err(FilesystemException);
    }

    /**
     * `file(p)` when `k` is File, `dir(p)` when `k` is Dir: the entry of the
     * node at `p`, which must be there and of that kind.
     */
    method Lookup(p: string, k: Kind) returns (r: Result<Entry>)
      requires Valid()
      ensures var q := Resolve(root, p);
        && (r.Ok? <==> IsNodeOf(q, k))
        && (r.Err? ==> r.error == FilesystemException)
        && (r.Ok? ==> fresh(r.value) && r.value.path == AbsPath(root, q) && r.value.kind == k)
        && (r.Ok? ==> r.value.Name() == q[|q| - 1])
    {
      var q := Resolve(root, p);
      r := LookupNode(q, k);
      if r.Ok? {
        AbsPathName(root, q);
      }
    }

    /**
     * `file(p, true)` / `dir(p, true)`: as Lookup, except that a missing node
     * is created together with its missing ancestors, unless a file is in the
     * way.
     */
    method Get(p: string, k: Kind, createMissing: bool) returns (r: Result<Entry>)
      requires Valid()
      modifies this
      ensures Valid()
      ensures var q := Resolve(root, p);
        && (r.Ok? <==> (q in old(tree) && old(tree)[q] == k) || (createMissing && CanCreate(old(tree), q)))
        && (r.Err? ==> r.error == FilesystemException && tree == old(tree))
        && (r.Ok? ==> fresh(r.value) && r.value.path == AbsPath(root, q) && r.value.kind == k)
        && (r.Ok? ==> r.value.Name() == q[|q| - 1])
        && (q in old(tree) ==> tree == old(tree))
        && (r.Ok? && q !in old(tree) ==> tree == Created(old(tree), q, k))
    {
      var q := Resolve(root, p);
      if createMissing && CanCreate(tree, q) {
        CreatedSpec(tree, q, k);
        tree := Created(tree, q, k);
      }
      r := Lookup(p, k);
    }

    /** Deletes node `q` with everything below it, or fails when `q` is no node. */
    method RemoveNode(q: Path) returns (r: Outcome)
      requires Valid()
      modifies this
      ensures Valid()
      ensures r.Pass? <==> q in old(tree)
      ensures r.Fail? ==> r.error == FilesystemException && tree == old(tree)
      ensures r.Pass? ==> tree == Removed(old(tree), q)
    {
      if q !in tree {
        return Fail(FilesystemException);
      }
      RemovedSpec(tree, q);
      tree := Removed(tree, q);
      return Pass;
    }

    /** `remove(p)`: deletes the node at `p` with everything below it. */
    method Remove(p: string) returns (r: Outcome)
      requires Valid()
      modifies this
      ensures Valid()
      ensures var q := Resolve(root, p);
        && (r.Pass? <==> q in old(tree))
        && (r.Fail? ==> r.error == FilesystemException && tree == old(tree))
        && (r.Pass? ==> tree == Removed(old(tree), q) && q !in tree)
    {
      var q := Resolve(root, p);
      r := RemoveNode(q);
      if r.Pass? {
        RemovedSpec(old(tree), q);
      }
    }

    /**
     * `removeAll(ps)`: removes the paths in order and stops at the first one
     * that is not there; the removals before it stay done.
     */
    method RemoveAll(ps: seq<string>) returns (r: Outcome)
      requires Valid()
      modifies this
      ensures Valid()
      ensures r.Pass? <==> RemovedAll(old(tree), ResolveAll(root, ps)).Some?
      ensures r.Pass? ==> tree == RemovedAll(old(tree), ResolveAll(root, ps)).value
      ensures r.Fail? ==> r.error == FilesystemException
      ensures r.Fail? ==> exists i :: 0 <= i < |ps| && RemovedAll(old(tree), ResolveAll(root, ps)[..i]) == Some(tree) &&
                                      ResolveAll(root, ps)[i] !in tree
      ensures forall p :: p in tree ==> p in old(tree) && tree[p] == old(tree)[p]
    {
      var qs := ResolveAll(root, ps);
      var i := 0;
      while i < |qs|
        invariant 0 <= i <= |qs|
        invariant Valid()
        invariant RemovedAll(old(tree), qs) == RemovedAll(tree, qs[i..])
        invariant RemovedAll(old(tree), qs[..i]) == Some(tree)
        invariant forall p :: p in tree ==> p in old(tree) && tree[p] == old(tree)[p]
      {
        ghost var before := tree;
        var one := RemoveNode(qs[i]);
        if one.Fail? {
          return one;
        }
        RemovedSpec(before, qs[i]);
        RemovedAllStep(old(tree), qs, i, before);
        i := i + 1;
      }
      return Pass;
    }

    /** A fresh entry for each of a set of nodes, in some order; `order` lists the nodes alongside. */
    method EntriesOf(nodes: set<Path>) returns (items: seq<Entry>, ghost order: seq<Path>)
      requires Valid() && nodes <= tree.Keys
      ensures |items| == |order| == |nodes|
      ensures forall i :: 0 <= i < |order| ==> order[i] in nodes
      ensures forall i :: 0 <= i < |items| ==> items[i].path == AbsPath(root, order[i]) && items[i].kind == tree[order[i]]
      ensures DistinctPaths(items)
    {
      items := [];
      order := [];
      var rest := nodes;
      while rest != {}
        invariant rest <= nodes
        invariant |items| == |order| == |nodes| - |rest|
        invariant forall i :: 0 <= i < |order| ==> order[i] in nodes && order[i] !in rest
        invariant forall i, j :: 0 <= i < j < |order| ==> order[i] != order[j]
        invariant forall i :: 0 <= i < |items| ==> items[i].path == AbsPath(root, order[i]) && items[i].kind == tree[order[i]]
        decreases |rest|
      {
        var p :| p in rest;
        var e := new Entry(AbsPath(root, p), tree[p]);
        items := items + [e];
        order := order + [p];
        rest := rest - {p};
      }
      DistinctNodesDistinctEntries(tree, root, order, items);
    }

    /** Fresh entries for a set of nodes, gathered into a new Collection. */
    method Gather(nodes: set<Path>) returns (c: Collection)
      requires Valid() && nodes <= tree.Keys
      ensures fresh(c)
      ensures |c.entries| == |nodes|
      ensures c.Distinct()
      ensures forall i :: 0 <= i < |c.entries| ==>
                exists p :: p in nodes && c.entries[i].path == AbsPath(root, p) && c.entries[i].kind == tree[p]
    {
      var items, order := EntriesOf(nodes);
      DedupOfDistinct(items);
      c := FromEntries(items);
      forall i | 0 <= i < |c.entries|
        ensures exists p :: p in nodes && c.entries[i].path == AbsPath(root, p) && c.entries[i].kind == tree[p]
      {
        var p := order[i];
        assert c.entries[i] == items[i];
      }
    }

    /** `find(pattern)`: always a Collection, even for one match or none. */
    method Find(pattern: string) returns (c: Collection)
      requires Valid()
      ensures fresh(c)
      ensures |c.entries| == |FindMatches(tree, root, pattern)|
      ensures c.Distinct()
      ensures forall i :: 0 <= i < |c.entries| ==>
                exists p :: p in FindMatches(tree, root, pattern) && c.entries[i].path == AbsPath(root, p) && c.entries[i].kind == tree[p]
    {
      c := Gather(FindMatches(tree, root, pattern));
    }

    /** `files()` / `dirs()` with no argument: the nodes of a kind directly under the root. */
    method Children(k: Kind) returns (c: Collection)
      requires Valid()
      ensures fresh(c)
      ensures |c.entries| == |RootChildren(tree, k)|
      ensures c.Distinct()
      ensures forall i :: 0 <= i < |c.entries| ==>
                (exists p :: p in RootChildren(tree, k) && c.entries[i].path == AbsPath(root, p) && c.entries[i].kind == k)
    {
      c := Gather(RootChildren(tree, k));
    }

    /** The entry of every node of `qs` in order, failing at the first that is not a node of kind `k`. */
    method LookupAll(k: Kind, qs: seq<Path>) returns (r: Result<seq<Entry>>)
      requires Valid()
      ensures r.Ok? <==> AllNodesOf(qs, k)
      ensures r.Err? ==> r.error == FilesystemException
      ensures r.Ok? ==> |r.value| == |qs|
      ensures r.Ok? ==> forall j :: 0 <= j < |qs| ==> r.value[j].path == AbsPath(root, qs[j]) && r.value[j].kind == k
    {
      var items: seq<Entry> := [];
      var i := 0;
      while i < |qs|
        invariant 0 <= i <= |qs|
        invariant |items| == i
        invariant forall j :: 0 <= j < i ==> IsNodeOf(qs[j], k)
        invariant forall j :: 0 <= j < i ==> items[j].path == AbsPath(root, qs[j]) && items[j].kind == k
      {
        var one := LookupNode(qs[i], k);
        if one.Err? {
          return Err(one.error);
        }
        items := items + [one.value];
        i := i + 1;
      }
      return Ok(items);
    }

    /**
     * `files(ps)` / `dirs(ps)`: the entries of the listed paths, which must
     * all be nodes of that kind; the result holds each of them once.
     */
    method Listed(k: Kind, ps: seq<string>) returns (r: Result<Collection>, ghost items: seq<Entry>)
      requires Valid()
      ensures r.Ok? <==> AllNodesOf(ResolveAll(root, ps), k)
      ensures r.Err? ==> r.error == FilesystemException
      ensures r.Ok? ==> |items| == |ps| && fresh(r.value) && r.value.entries == Dedup(items)
      ensures r.Ok? ==> forall j :: 0 <= j < |ps| ==> items[j].path == AbsPath(root, ResolveAll(root, ps)[j]) && items[j].kind == k
      ensures r.Ok? ==> r.value.Distinct() && |r.value.entries| <= |ps|
      ensures r.Ok? ==> forall q :: q in ResolveAll(root, ps) ==> r.value.Has(AbsPath(root, q))
      ensures r.Ok? ==> forall e :: e in r.value.entries ==>
                          e.kind == k && exists q :: q in ResolveAll(root, ps) && e.path == AbsPath(root, q)
    {
      var qs := ResolveAll(root, ps);
      items := [];
      var found := LookupAll(k, qs);
      if found.Err? {
        return Err(found.error), items;
      }
      items := found.value;
      var c := FromEntries(found.value);
      DedupDistinct(items);
      DedupMembers(items);
      forall e | e in c.entries ensures e.kind == k && exists q :: q in qs && e.path == AbsPath(root, q) {
        var j :| 0 <= j < |items| && items[j] == e;
        assert qs[j] in qs;
      }
      forall q | q in qs ensures c.Has(AbsPath(root, q)) {
        var j :| 0 <= j < |qs| && qs[j] == q;
        assert HasPath(items, items[j].path);
        DedupHasPath(items, items[j].path);
      }
      return Ok(c), items;
    }

    /** Is there a node of kind `k` at `q`? */
    predicate IsNodeOf(q: Path, k: Kind)
      reads this
    {
      q in tree && tree[q] == k
    }

    /** Is there a node of kind `k` at each of `qs`? */
    predicate AllNodesOf(qs: seq<Path>, k: Kind)
      reads this
    {
      forall j :: 0 <= j < |qs| ==> IsNodeOf(qs[j], k)
    }
  }

  /** Entries made for distinct nodes have distinct paths. */
  lemma DistinctNodesDistinctEntries(t: Tree, root: string, order: seq<Path>, items: seq<Entry>)
    requires WellFormed(t)
    requires |items| == |order|
    requires forall i :: 0 <= i < |order| ==> order[i] in t
    requires forall i, j :: 0 <= i < j < |order| ==> order[i] != order[j]
    requires forall i :: 0 <= i < |items| ==> items[i].path == AbsPath(root, order[i])
    ensures DistinctPaths(items)
  {
    forall i, j | 0 <= i < j < |items| ensures items[i].path != items[j].path {
      assert Node(t, order[i]) && Node(t, order[j]);
      AbsPathInjective(root, order[i], order[j]);
    }
  }

  /** `new Filesystem(root)`: fails unless the storage reports a directory at the root. */
  method Open(root: string, rootKind: Option<Kind>, tree: Tree) returns (r: Result<Filesystem>)
    requires WellFormed(tree)
    ensures r.Err? <==> rootKind != Some(Dir)
    ensures r.Err? ==> r.error == FilesystemException
    ensures r.Ok? ==> fresh(r.value) && r.value.Valid() && r.value.root == root && r.value.tree == tree
  {
    if rootKind != Some(Dir) {
      return Err(FilesystemException);
    }
    var fs := new Filesystem(root, tree);
    return Ok(fs);
  }
}
