/**
 * Path strings. An entry's path is a `/`-separated string; its name is the
 * part after the last `/` and its directory part is everything up to and
 * including that `/`. Splitting and joining work from the right, so that the
 * name is always the last segment.
 */
module PathStrings {

  const Sep: char := '/'

  /** Index of the last separator in `s`, or -1 when there is none. */
  function LastSep(s: string): (r: int)
    ensures -1 <= r < |s|
    ensures r >= 0 ==> s[r] == Sep
    ensures forall j :: r < j < |s| ==> s[j] != Sep
  {
    if |s| == 0 then -1
    else if s[|s| - 1] == Sep then |s| - 1
    else LastSep(s[..|s| - 1])
  }

  /** The last segment of a path: what `name()` of an entry gives. */
  function Name(s: string): (r: string)
    ensures Sep !in r
    ensures |r| <= |s| && s[|s| - |r|..] == r
  {
    s[LastSep(s) + 1..]
  }

  /** Everything before the name, the trailing separator included. */
  function Dirname(s: string): (r: string)
    ensures r + Name(s) == s
    ensures r == [] || r[|r| - 1] == Sep
  {
    s[..LastSep(s) + 1]
  }

  /** Segments of a path; "" gives [""] and "a/" gives ["a", ""]. */
  function Split(s: string): (r: seq<string>)
    ensures |r| >= 1
    ensures forall i :: 0 <= i < |r| ==> Sep !in r[i]
    decreases |s|
  {
    var k := LastSep(s);
    if k < 0 then [s]
    else
      var name := s[k + 1..];
      assert Sep !in name by {
        forall j | 0 <= j < |name| ensures name[j] != Sep {
          assert name[j] == s[k + 1 + j];
        }
      }
      Split(s[..k]) + [name]
  }

  /** The segments glued back together with single separators. */
  function Join(segs: seq<string>): string
    decreases |segs|
  {
    if |segs| == 0 then ""
    else if |segs| == 1 then segs[0]
    else Join(segs[..|segs| - 1]) + [Sep] + segs[|segs| - 1]
  }

  /** The three facts in LastSep's contract single out its result. */
  lemma LastSepUnique(s: string, r: int)
    requires -1 <= r < |s|
    requires r >= 0 ==> s[r] == Sep
    requires forall j :: r < j < |s| ==> s[j] != Sep
    ensures LastSep(s) == r
  {
  }

  /** When the separator does not occur in `n`, the last separator of `d + n` is the last one of `d`. */
  lemma LastSepOfSuffix(d: string, n: string)
    requires Sep !in n
    ensures LastSep(d + n) == LastSep(d)
  {
    var t, b := d + n, LastSep(d);
    forall j | b < j < |t| ensures t[j] != Sep {
      if j < |d| {
        assert t[j] == d[j];
      } else {
        assert t[j] == n[j - |d|];
      }
    }
    LastSepUnique(t, b);
  }

  /** Renaming keeps the directory part and makes the new name the name. */
  lemma RenameSetsName(s: string, n: string)
    requires Sep !in n
    ensures Name(Dirname(s) + n) == n
    ensures Dirname(Dirname(s) + n) == Dirname(s)
  {
    LastSepOfSuffix(Dirname(s), n);
    var d := Dirname(s);
    assert LastSep(d) == |d| - 1 by {
      if d != [] {
        assert d[|d| - 1] == Sep;
      }
    }
  }

  /** The name of `prefix + "/" + n` is `n`. */
  lemma NameAfterSep(prefix: string, n: string)
    requires Sep !in n
    ensures Name(prefix + [Sep] + n) == n
    ensures Dirname(prefix + [Sep] + n) == prefix + [Sep]
  {
    var d := prefix + [Sep];
    LastSepOfSuffix(d, n);
    assert d[|d| - 1] == Sep;
  }

  /** Joining the segments of a path gives the path back. */
  lemma {:induction false} JoinSplit(s: string)
    ensures Join(Split(s)) == s
    decreases |s|
  {
    var k := LastSep(s);
    if k >= 0 {
      var front := s[..k];
      JoinSplit(front);
      var segs := Split(s);
      assert segs == Split(front) + [s[k + 1..]];
      assert segs[..|segs| - 1] == Split(front);
      assert s == front + [Sep] + s[k + 1..];
    }
  }

  /** Appending a separator and a separator-free name appends one segment. */
  lemma SplitSnoc(front: string, last: string)
    requires Sep !in last
    ensures Split(front + [Sep] + last) == Split(front) + [last]
  {
    var j := front + [Sep] + last;
    NameAfterSep(front, last);
    var k := LastSep(j);
    assert j[..k + 1] == front + [Sep];
    assert j[..k] == front;
  }

  /** Splitting a join of separator-free segments gives the segments back. */
  lemma {:induction false} SplitJoin(segs: seq<string>)
    requires |segs| >= 1
    requires forall i :: 0 <= i < |segs| ==> Sep !in segs[i]
    ensures Split(Join(segs)) == segs
    decreases |segs|
  {
    if |segs| > 1 {
      var init, last := segs[..|segs| - 1], segs[|segs| - 1];
      assert init + [last] == segs;
      assert forall i :: 0 <= i < |init| ==> init[i] == segs[i];
      assert Join(segs) == Join(init) + [Sep] + last;
      SplitJoin(init);
      SplitSnoc(Join(init), last);
    }
  }

  /** Distinct segment lists join to distinct strings. */
  lemma JoinInjective(a: seq<string>, b: seq<string>)
    requires |a| >= 1 && |b| >= 1
    requires forall i :: 0 <= i < |a| ==> Sep !in a[i]
    requires forall i :: 0 <= i < |b| ==> Sep !in b[i]
    requires Join(a) == Join(b)
    ensures a == b
  {
    SplitJoin(a);
    SplitJoin(b);
  }

  /** The name of a joined path is its last segment. */
  lemma NameOfJoin(segs: seq<string>)
    requires |segs| >= 1
    requires forall i :: 0 <= i < |segs| ==> Sep !in segs[i]
    ensures Name(Join(segs)) == segs[|segs| - 1]
  {
    SplitJoin(segs);
  }
}
