/**
 * Files and directories as objects, and the Collection that holds them.
 *
 * An Entry's path can change after it has been put into a Collection (it is
 * renamed through a reference held elsewhere). A Collection therefore keeps
 * no index of paths: every lookup reads the members' current paths.
 */
module Entries {
  import PathStrings

  datatype Kind = File | Dir

  class Entry {
    var path: string
    const kind: Kind

    constructor (path: string, kind: Kind)
      ensures this.path == path && this.kind == kind
    {
      this.path := path;
      this.kind := kind;
    }

    /** `name()`: the last segment of the current path. */
    function Name(): (r: string)
      reads this
      ensures PathStrings.Sep !in r
      ensures PathStrings.Dirname(path) + r == path
    {
      PathStrings.Name(path)
    }

    /** `name(newName, true)`: the entry moves to `newName` in the same directory. */
    method Rename(newName: string)
      requires PathStrings.Sep !in newName
      modifies this
      ensures path == PathStrings.Dirname(old(path)) + newName
      ensures Name() == newName
      ensures PathStrings.Dirname(path) == PathStrings.Dirname(old(path))
    {
      PathStrings.RenameSetsName(path, newName);
      path := PathStrings.Dirname(path) + newName;
    }
  }
}

module Collections {
  import PathStrings
  import opened Errors
  import opened Entries

  /** The current paths of `es`, in order. */
  function PathsOf(es: seq<Entry>): (r: seq<string>)
    reads es
    ensures |r| == |es|
    ensures forall i :: 0 <= i < |es| ==> r[i] == es[i].path
  {
    if es == [] then [] else [es[0].path] + PathsOf(es[1..])
  }

  /** Does some member of `es` currently have path `p`? */
  predicate HasPath(es: seq<Entry>, p: string)
    reads es
  {
    exists k :: 0 <= k < |es| && es[k].path == p
  }

  /** No two members share a path. */
  predicate DistinctPaths(es: seq<Entry>)
    reads es
  {
    forall i, j :: 0 <= i < j < |es| ==> es[i].path != es[j].path
  }

  /** The members after adding `es` one by one to an empty Collection. */
  function Dedup(es: seq<Entry>): (r: seq<Entry>)
    reads es
    ensures |r| <= |es|
  {
    if es == [] then []
    else
      var init := es[..|es| - 1];
      Dedup(init) + if HasPath(init, es[|es| - 1].path) then [] else [es[|es| - 1]]
  }

  /** A path is present in a concatenation iff it is present in one of its parts. */
  lemma HasPathAppend(a: seq<Entry>, b: seq<Entry>, p: string)
    ensures HasPath(a + b, p) <==> HasPath(a, p) || HasPath(b, p)
  {
    if HasPath(a + b, p) {
      var k :| 0 <= k < |a + b| && (a + b)[k].path == p;
      if k >= |a| {
        assert b[k - |a|] == (a + b)[k];
      }
    }
    if HasPath(a, p) {
      var k :| 0 <= k < |a| && a[k].path == p;
      assert (a + b)[k] == a[k];
    }
    if HasPath(b, p) {
      var k :| 0 <= k < |b| && b[k].path == p;
      assert (a + b)[|a| + k] == b[k];
    }
  }

  /** After adding `es` one by one, a path is present iff some item had it. */
  lemma {:induction false} DedupHasPath(es: seq<Entry>, p: string)
    ensures HasPath(Dedup(es), p) <==> HasPath(es, p)
  {
    if es != [] {
      var init, e := es[..|es| - 1], es[|es| - 1];
      assert es == init + [e];
      var kept := if HasPath(init, e.path) then [] else [e];
      assert Dedup(es) == Dedup(init) + kept;
      DedupHasPath(init, p);
      HasPathAppend(init, [e], p);
      HasPathAppend(Dedup(init), kept, p);
      assert HasPath([e], p) <==> e.path == p by {
        assert [e][0] == e;
      }
      assert HasPath(kept, p) <==> kept != [] && e.path == p by {
        if kept != [] {
          assert kept[0] == e;
        }
      }
    }
  }

  /** Adding one by one never lets two members share a path. */
  lemma {:induction false} DedupDistinct(es: seq<Entry>)
    ensures DistinctPaths(Dedup(es))
  {
    if es != [] {
      var init, e := es[..|es| - 1], es[|es| - 1];
      var d := Dedup(init);
      DedupDistinct(init);
      DedupHasPath(init, e.path);
      if !HasPath(init, e.path) {
        var r := d + [e];
        forall i, j | 0 <= i < j < |r| ensures r[i].path != r[j].path {
          if j == |d| {
            assert r[i] == d[i];
          } else {
            assert r[i] == d[i] && r[j] == d[j];
          }
        }
      }
    }
  }

  /** Adding one by one keeps only items it was given. */
  lemma {:induction false} DedupMembers(es: seq<Entry>)
    ensures forall e :: e in Dedup(es) ==> e in es
  {
    if es != [] {
      var init := es[..|es| - 1];
      DedupMembers(init);
      assert forall e :: e in init ==> e in es;
    }
  }

  /** Items with pairwise distinct paths are all kept, in order. */
  lemma {:induction false} DedupOfDistinct(es: seq<Entry>)
    requires DistinctPaths(es)
    ensures Dedup(es) == es
  {
    if es != [] {
      var init, e := es[..|es| - 1], es[|es| - 1];
      assert DistinctPaths(init) by {
        forall i, j | 0 <= i < j < |init| ensures init[i].path != init[j].path {
          assert init[i] == es[i] && init[j] == es[j];
        }
      }
      DedupOfDistinct(init);
      assert !HasPath(init, e.path) by {
        forall k | 0 <= k < |init| ensures init[k].path != e.path {
          assert init[k] == es[k];
        }
      }
      assert init + [e] == es;
    }
  }

  /** The members of `es` of the given kind, in their order in `es`. */
  function Filter(es: seq<Entry>, k: Kind): (r: seq<Entry>)
    ensures |r| <= |es|
  {
    if es == [] then []
    else if es[0].kind == k then [es[0]] + Filter(es[1..], k)
    else Filter(es[1..], k)
  }

  /** The filter keeps exactly the members of the given kind. */
  lemma {:induction false} FilterMembers(es: seq<Entry>, k: Kind)
    ensures forall e :: e in Filter(es, k) <==> e in es && e.kind == k
  {
    if es != [] {
      FilterMembers(es[1..], k);
      assert es == [es[0]] + es[1..];
      forall e ensures e in es <==> e == es[0] || e in es[1..] {
      }
    }
  }

  /** Members holding two different paths are at least two members. */
  lemma TwoPathsTwoMembers(es: seq<Entry>, a: string, b: string)
    requires HasPath(es, a) && HasPath(es, b) && a != b
    ensures |es| >= 2
  {
    var i :| 0 <= i < |es| && es[i].path == a;
    var j :| 0 <= j < |es| && es[j].path == b;
    assert i != j;
  }

  /** Every member is a file or a directory, never both: the two filters split the members. */
  lemma {:induction false} KindsPartition(es: seq<Entry>)
    ensures |Filter(es, File)| + |Filter(es, Dir)| == |es|
  {
    if es != [] {
      KindsPartition(es[1..]);
    }
  }

  /** Filtering keeps relative order: members of `a` come before members of `b`. */
  lemma {:induction false} FilterAppend(a: seq<Entry>, b: seq<Entry>, k: Kind)
    ensures Filter(a + b, k) == Filter(a, k) + Filter(b, k)
  {
    if a != [] {
      var rest := a[1..];
      FilterAppend(rest, b, k);
      assert (a + b)[0] == a[0] && (a + b)[1..] == rest + b;
    } else {
      assert a + b == b;
    }
  }

  /** An ordered sequence of shared Entry references, deduplicated by path. */
  class Collection {
    var entries: seq<Entry>

    /** Does some member currently have path `p`? */
    predicate Has(p: string)
      reads this, entries
    {
      HasPath(entries, p)
    }

    /** No two members currently share a path. */
    predicate Distinct()
      reads this, entries
    {
      DistinctPaths(entries)
    }

    constructor Empty()
      ensures entries == []
    {
      entries := [];
    }

    /** `count()`: every member is a file or a directory, so it is the number of files plus the number of directories. */
    function Count(): (n: nat)
      reads this
      ensures n == |Filter(entries, File)| + |Filter(entries, Dir)|
    {
      KindsPartition(entries);
      |entries|
    }

    /** `asArray()`: the members, in insertion order. */
    function AsArray(): seq<Entry>
      reads this
    {
      entries
    }

    /** `contains(p)`: does some member's current path equal `p`? */
    method Contains(p: string) returns (found: bool)
      ensures found <==> Has(p)
    {
      var i := 0;
      while i < |entries|
        invariant 0 <= i <= |entries|
        invariant forall j :: 0 <= j < i ==> entries[j].path != p
      {
        if entries[i].path == p {
          return true;
        }
        i := i + 1;
      }
      return false;
    }

    /** `get(p)`: the earliest member whose current path is `p`, or NotFound. */
    method Get(p: string) returns (r: Result<Entry>)
      ensures r.Err? <==> !Has(p)
      ensures r.Err? ==> r.error == NotFound
      ensures r.Ok? ==> exists i :: 0 <= i < |entries| && entries[i] == r.value && r.value.path == p &&
                                    forall j :: 0 <= j < i ==> entries[j].path != p
    {
      var i := 0;
      while i < |entries|
        invariant 0 <= i <= |entries|
        invariant forall j :: 0 <= j < i ==> entries[j].path != p
      {
        if entries[i].path == p {
          return Ok(entries[i]);
        }
        i := i + 1;
      }
      return Err(NotFound);
    }

    /** `add(e)`: appends `e` unless a member already has its path. */
    method Add(e: Entry)
      modifies this
      ensures entries == if old(Has(e.path)) then old(entries) else old(entries) + [e]
      ensures |entries| == old(|entries|) + (if old(Has(e.path)) then 0 else 1)
      ensures Has(e.path)
    {
      var present := Contains(e.path);
      if !present {
        entries := entries + [e];
        assert entries[|entries| - 1] == e;
      }
    }

    /** `remove(p)`: drops the earliest member whose path is `p`, keeping the others in order. */
    method Remove(p: string)
      modifies this
      ensures !old(Has(p)) ==> entries == old(entries)
      ensures old(Has(p)) ==>
        exists i :: 0 <= i < |old(entries)| && old(entries)[i].path == p &&
                    (forall j :: 0 <= j < i ==> old(entries)[j].path != p) &&
                    entries == old(entries)[..i] + old(entries)[i + 1..]
      ensures |entries| == old(|entries|) - (if old(Has(p)) then 1 else 0)
      ensures old(Distinct()) ==> Distinct() && !Has(p)
    {
      var i := 0;
      while i < |entries|
        invariant 0 <= i <= |entries|
        invariant forall j :: 0 <= j < i ==> entries[j].path != p
      {
        if entries[i].path == p {
          ghost var before := entries;
          entries := entries[..i] + entries[i + 1..];
          assert forall j :: 0 <= j < |entries| ==> entries[j] == (if j < i then before[j] else before[j + 1]);
          return;
        }
        i := i + 1;
      }
    }

    /** `first()`: the earliest inserted member. */
    method First() returns (r: Result<Entry>)
      ensures r.Err? <==> entries == []
      ensures r.Err? ==> r.error == EmptyCollection
      ensures r.Ok? ==> r.value == entries[0]
    {
      if entries == [] {
        return Err(EmptyCollection);
      }
      return Ok(entries[0]);
    }

    /** `last()`: the latest inserted member. */
    method Last() returns (r: Result<Entry>)
      ensures r.Err? <==> entries == []
      ensures r.Err? ==> r.error == EmptyCollection
      ensures r.Ok? ==> r.value == entries[|entries| - 1]
    {
      if entries == [] {
        return Err(EmptyCollection);
      }
      return Ok(entries[|entries| - 1]);
    }

    /** `paths()`: each member's current path, in insertion order. */
    method Paths() returns (r: seq<string>)
      ensures r == PathsOf(entries)
    {
      r := [];
      var i := 0;
      while i < |entries|
        invariant 0 <= i <= |entries|
        invariant |r| == i
        invariant forall j :: 0 <= j < i ==> r[j] == entries[j].path
      {
        r := r + [entries[i].path];
        i := i + 1;
      }
    }

    /** `names()`: each member's name, in insertion order. */
    method Names() returns (r: seq<string>)
      ensures |r| == |entries|
      ensures forall i :: 0 <= i < |r| ==> r[i] == PathStrings.Name(entries[i].path)
    {
      r := [];
      var i := 0;
      while i < |entries|
        invariant 0 <= i <= |entries|
        invariant |r| == i
        invariant forall j :: 0 <= j < i ==> r[j] == PathStrings.Name(entries[j].path)
      {
        r := r + [entries[i].Name()];
        i := i + 1;
      }
    }

    /** `files()` / `dirs()`: a new Collection of the members of one kind, in the same order. */
    method OfKind(k: Kind) returns (c: Collection)
      ensures fresh(c)
      ensures c.entries == Filter(entries, k)
    {
      c := new Collection.Empty();
      c.entries := Filter(entries, k);
    }
  }

  /** One more item: it is kept exactly when no earlier item has its path. */
  lemma DedupStep(items: seq<Entry>, i: nat)
    requires i < |items|
    ensures Dedup(items[..i + 1]) == Dedup(items[..i]) + if HasPath(items[..i], items[i].path) then [] else [items[i]]
    ensures HasPath(Dedup(items[..i]), items[i].path) <==> HasPath(items[..i], items[i].path)
  {
    assert items[..i + 1][..i] == items[..i];
    DedupHasPath(items[..i], items[i].path);
  }

  /** Adding one by one depends only on the items' paths, so it is unaffected by changes to other objects. */
  twostate lemma DedupFrame(es: seq<Entry>)
    requires unchanged(es)
    ensures Dedup(es) == old(Dedup(es))
  {
  }

  /** Adds the next item to a Collection holding the items before it. */
  method AddNext(c: Collection, items: seq<Entry>, i: nat)
    requires i < |items| && c.entries == Dedup(items[..i])
    modifies c
    ensures c.entries == Dedup(items[..i + 1])
  {
    DedupStep(items, i);
    label before:
    c.Add(items[i]);
    DedupFrame@before(items[..i + 1]);
  }

  /** `new Collection([...])`: the items added one by one, in order. */
  method FromEntries(items: seq<Entry>) returns (c: Collection)
    ensures fresh(c)
    ensures c.entries == Dedup(items)
  {
    c := new Collection.Empty();
    var i := 0;
    while i < |items|
      invariant 0 <= i <= |items|
      invariant c.entries == Dedup(items[..i])
    {
      AddNext(c, items, i);
      i := i + 1;
    }
    assert items[..|items|] == items;
  }

  /**
   * Renaming a member through an outside reference: the Collection sees the
   * new path at once and no longer sees the old one, with no re-add.
   */
  method RenameThroughReference(c: Collection, e: Entry, newName: string) returns (hasNew: bool, hasOld: bool)
    requires e in c.entries && c.Distinct()
    requires PathStrings.Sep !in newName && newName != e.Name()
    modifies e
    ensures e.path == PathStrings.Dirname(old(e.path)) + newName
    ensures hasNew && !hasOld
  {
    var oldPath := e.path;
    ghost var k :| 0 <= k < |c.entries| && c.entries[k] == e;
    ghost var oldName := e.Name();
    e.Rename(newName);
    assert e.path != oldPath by {
      var dir := PathStrings.Dirname(oldPath);
      assert dir + oldName == oldPath && dir + newName == e.path;
      assert oldPath[|dir|..] == oldName && e.path[|dir|..] == newName;
    }
    assert c.entries[k].path == e.path;
    forall j | 0 <= j < |c.entries| ensures c.entries[j].path != oldPath {
      if j != k {
        assert old(c.entries[j].path) != old(c.entries[k].path) by {
          if j < k {} else {}
        }
        assert c.entries[j] != e;
      }
    }
    assert c.Has(e.path) && !c.Has(oldPath);
    hasNew := c.Contains(e.path);
    hasOld := c.Contains(oldPath);
  }
}
