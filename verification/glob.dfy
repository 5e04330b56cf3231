/**
 * Glob patterns. A pattern is a path whose segments may contain `*`; a `*`
 * matches any run of characters inside one segment and never crosses a
 * separator, because matching is done one segment at a time.
 */
module Glob {

  const Star: char := '*'

  /** Does one segment of a pattern match one name? */
  function SegmentMatches(pat: string, name: string): bool
    decreases |pat| + |name|
  {
    if pat == [] then name == []
    else if pat[0] == Star then SegmentMatches(pat[1..], name) || (name != [] && SegmentMatches(pat, name[1..]))
    else name != [] && name[0] == pat[0] && SegmentMatches(pat[1..], name[1..])
  }

  /** A pattern matches a path when it has as many segments and each one matches. */
  predicate PathMatches(pat: seq<string>, path: seq<string>)
  {
    |pat| == |path| && forall i :: 0 <= i < |pat| ==> SegmentMatches(pat[i], path[i])
  }

  /** Does some segment of the pattern hold a wildcard? */
  predicate HasWildcard(pat: seq<string>)
  {
    exists i :: 0 <= i < |pat| && Star in pat[i]
  }

  /** A segment without `*` matches exactly itself. */
  lemma {:induction false} LiteralSegment(pat: string, name: string)
    requires Star !in pat
    ensures SegmentMatches(pat, name) <==> pat == name
    decreases |pat| + |name|
  {
    if pat != [] && name != [] {
      LiteralSegment(pat[1..], name[1..]);
      if pat[0] == name[0] && pat[1..] == name[1..] {
        assert pat == [pat[0]] + pat[1..] && name == [name[0]] + name[1..];
      }
    }
  }

  /** A pattern without wildcards matches exactly the path it spells. */
  lemma LiteralPath(pat: seq<string>, path: seq<string>)
    requires !HasWildcard(pat)
    ensures PathMatches(pat, path) <==> pat == path
  {
    if |pat| == |path| {
      forall i | 0 <= i < |pat| ensures SegmentMatches(pat[i], path[i]) <==> pat[i] == path[i] {
        LiteralSegment(pat[i], path[i]);
      }
    }
  }

  /** `*` on its own matches every name. */
  lemma {:induction false} StarMatchesAll(name: string)
    ensures SegmentMatches([Star], name)
    decreases |name|
  {
    assert [Star][1..] == [];
    if name != [] {
      StarMatchesAll(name[1..]);
    }
  }

  /** `*` followed by a literal (`*.mp3`, `*-doc.txt`) matches exactly the names ending in that literal. */
  lemma {:induction false} StarThenLiteral(lit: string, name: string)
    requires Star !in lit
    ensures SegmentMatches([Star] + lit, name) <==> |lit| <= |name| && name[|name| - |lit|..] == lit
    decreases |name|
  {
    var pat := [Star] + lit;
    assert pat[0] == Star && pat[1..] == lit;
    LiteralSegment(lit, name);
    if name != [] {
      StarThenLiteral(lit, name[1..]);
      if |lit| <= |name| - 1 {
        assert name[1..][|name[1..]| - |lit|..] == name[|name| - |lit|..];
      }
    }
  }

  /** A literal followed by `*` (`folder*`, `f*`) matches exactly the names starting with that literal. */
  lemma {:induction false} LiteralThenStar(lit: string, name: string)
    requires Star !in lit
    ensures SegmentMatches(lit + [Star], name) <==> |lit| <= |name| && name[..|lit|] == lit
    decreases |lit|
  {
    var pat := lit + [Star];
    if lit == [] {
      assert pat == [Star];
      StarMatchesAll(name);
    } else {
      assert pat[0] == lit[0] && pat[1..] == lit[1..] + [Star];
      if name != [] {
        LiteralThenStar(lit[1..], name[1..]);
        if |lit| <= |name| && name[1..][..|lit| - 1] == lit[1..] && name[0] == lit[0] {
          assert name[..|lit|] == [name[0]] + name[1..][..|lit| - 1];
          assert lit == [lit[0]] + lit[1..];
        }
        if |lit| <= |name| && name[..|lit|] == lit {
          assert name[1..][..|lit| - 1] == name[..|lit|][1..];
        }
      }
    }
  }
}
