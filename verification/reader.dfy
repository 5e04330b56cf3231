/**
 * The stream Reader: a forward-only cursor over the bytes a resource
 * delivers. The bytes are modelled as the whole content the resource will
 * ever produce (`data`) and, for non-blocking mode, how much of it has
 * already arrived (`available`); a byte is one `char` of a string.
 *
 * Module Cursors holds the reading rules as functions on a cursor value;
 * module Readers holds the Reader object, whose methods are proved to move
 * their fields exactly as those functions say.
 */
module Cursors {
  import opened Errors

  /** The line terminator `readLine` stops at. */
  const EOL: string := "\n"

  /** Where a reader stands on its resource. */
  datatype Cursor = Cursor(data: string, available: nat, pos: nat, blocking: bool)
  {
    predicate Valid()
    {
      pos <= |data|
    }

    /**
     * How far a read may go without waiting: the end of the content when
     * blocking, otherwise no further than what has arrived (and never back).
     */
    function Limit(): (l: nat)
      requires Valid()
      ensures pos <= l <= |data|
      ensures blocking ==> l == |data|
      ensures !blocking ==> (l == pos || l <= available) && (available <= |data| ==> available <= l)
    {
      if blocking then |data|
      else if available <= pos then pos
      else if available <= |data| then available
      else |data|
    }
  }

  /** `d` occurs in `s` at `i`, ending no later than `lim`. */
  predicate OccursAt(s: string, d: string, i: nat, lim: nat)
  {
    i + |d| <= lim <= |s| && s[i..i + |d|] == d
  }

  /** The first index at or after `from` where `d` occurs before `lim`, if any. */
  function FirstOccurrence(s: string, d: string, from: nat, lim: nat): (r: Option<nat>)
    requires from <= lim <= |s|
    ensures r.Some? ==> from <= r.value && OccursAt(s, d, r.value, lim)
    ensures r.Some? ==> forall j :: from <= j < r.value ==> !OccursAt(s, d, j, lim)
    ensures r.None? ==> forall j :: from <= j ==> !OccursAt(s, d, j, lim)
    decreases lim - from
  {
    if from + |d| > lim then None
    else if s[from..from + |d|] == d then Some(from)
    else FirstOccurrence(s, d, from + 1, lim)
  }

  /** `read(n)`: up to `n` bytes, fewer only when the limit is reached. */
  function ReadN(c: Cursor, n: nat): (r: (string, Cursor))
    requires c.Valid()
    ensures r.1 == c.(pos := r.1.pos) && r.1.Valid()
    ensures c.pos <= r.1.pos <= c.Limit()
    ensures r.0 == c.data[c.pos..r.1.pos]
    ensures |r.0| == n || r.1.pos == c.Limit()
    ensures |r.0| <= n
  {
    var end := if c.pos + n <= c.Limit() then c.pos + n else c.Limit();
    (c.data[c.pos..end], c.(pos := end))
  }

  /** `read()`: everything up to the limit; in blocking mode, the rest of the content. */
  function ReadRest(c: Cursor): (r: (string, Cursor))
    requires c.Valid()
    ensures r.1 == c.(pos := c.Limit()) && r.1.Valid()
    ensures r.0 == c.data[c.pos..c.Limit()]
    ensures c.blocking ==> r.0 == c.data[c.pos..] && r.1.pos == |c.data|
  {
    (c.data[c.pos..c.Limit()], c.(pos := c.Limit()))
  }

  /**
   * `readUntil(d)`: the bytes before the first occurrence of `d`, consuming
   * `d` too; without an occurrence, everything up to the limit.
   */
  function ReadUntil(c: Cursor, d: string): (r: (string, Cursor))
    requires c.Valid() && d != []
    ensures r.1 == c.(pos := r.1.pos) && r.1.Valid()
    ensures c.pos <= r.1.pos <= c.Limit()
  {
    match FirstOccurrence(c.data, d, c.pos, c.Limit())
    case Some(i) => (c.data[c.pos..i], c.(pos := i + |d|))
    case None => (c.data[c.pos..c.Limit()], c.(pos := c.Limit()))
  }

  /** The piece `readUntil` returns, followed by the delimiter when it was found, is exactly what it consumed. */
  lemma ReadUntilConsumes(c: Cursor, d: string)
    requires c.Valid() && d != []
    ensures var (piece, next) := ReadUntil(c, d);
      && (FirstOccurrence(c.data, d, c.pos, c.Limit()).Some? ==> piece + d == c.data[c.pos..next.pos])
      && (FirstOccurrence(c.data, d, c.pos, c.Limit()).None? ==> piece == c.data[c.pos..c.Limit()] && next.pos == c.Limit())
  {
    var f := FirstOccurrence(c.data, d, c.pos, c.Limit());
    if f.Some? {
      var i := f.value;
      assert c.data[c.pos..i + |d|] == c.data[c.pos..i] + c.data[i..i + |d|];
    }
  }

  /** A slice of a slice is a slice of the whole. */
  lemma SliceOfSlice(s: string, a: nat, b: nat, i: nat, j: nat)
    requires a <= b <= |s| && i <= j <= b - a
    ensures s[a..b][i..j] == s[a + i..a + j]
  {
    forall k | 0 <= k < j - i ensures s[a..b][i..j][k] == s[a + i..a + j][k] {
    }
  }

  /** With no occurrence starting in `[from, end)`, none lies inside the slice `s[from..end]`. */
  lemma NoOccurrenceInSlice(s: string, d: string, from: nat, end: nat, lim: nat, piece: string)
    requires d != [] && from <= end <= lim <= |s| && piece == s[from..end]
    requires forall j :: from <= j < end ==> !OccursAt(s, d, j, lim)
    ensures forall j :: !OccursAt(piece, d, j, |piece|)
  {
    forall j: nat ensures !OccursAt(piece, d, j, |piece|) {
      if j + |d| <= |piece| {
        assert !OccursAt(s, d, from + j, lim);
        SliceOfSlice(s, from, end, j, j + |d|);
      }
    }
  }

  /** The delimiter does not occur inside the piece `readUntil` returns. */
  lemma ReadUntilStopsAtFirst(c: Cursor, d: string)
    requires c.Valid() && d != []
    ensures var piece := ReadUntil(c, d).0; forall j :: !OccursAt(piece, d, j, |piece|)
  {
    var lim := c.Limit();
    var f := FirstOccurrence(c.data, d, c.pos, lim);
    var end := if f.Some? then f.value else lim;
    assert end <= lim && ReadUntil(c, d).0 == c.data[c.pos..end];
    NoOccurrenceInSlice(c.data, d, c.pos, end, lim, ReadUntil(c, d).0);
  }

  /** `readLine()` never returns a line terminator. */
  lemma ReadLineHasNoTerminator(c: Cursor)
    requires c.Valid()
    ensures EOL[0] !in ReadUntil(c, EOL).0
  {
    var piece := ReadUntil(c, EOL).0;
    ReadUntilStopsAtFirst(c, EOL);
    forall j | 0 <= j < |piece| ensures piece[j] != EOL[0] {
      assert piece[j..j + 1] == [piece[j]];
      assert !OccursAt(piece, EOL, j, |piece|);
    }
  }

  /** In blocking mode, `read(n)` followed by `read()` returns what one `read()` would. */
  lemma ReadNThenRest(c: Cursor, n: nat)
    requires c.Valid() && c.blocking
    ensures ReadN(c, n).0 + ReadRest(ReadN(c, n).1).0 == ReadRest(c).0
    ensures ReadRest(ReadN(c, n).1).1 == ReadRest(c).1
  {
    var (a, c1) := ReadN(c, n);
    assert c.data[c.pos..] == c.data[c.pos..c1.pos] + c.data[c1.pos..];
  }

  /** The bytes returned by a run of `read(n)` calls, and where the cursor ends up. */
  function ReadMany(c: Cursor, ns: seq<nat>): (r: (string, Cursor))
    requires c.Valid()
    ensures r.1 == c.(pos := r.1.pos) && r.1.Valid() && c.pos <= r.1.pos
    decreases |ns|
  {
    if ns == [] then ("", c)
    else
      var (a, c1) := ReadN(c, ns[0]);
      var (rest, last) := ReadMany(c1, ns[1..]);
      (a + rest, last)
  }

  /** A slice is the slice up to a midpoint followed by the slice from it. */
  lemma SliceAt(s: string, i: nat, j: nat, k: nat)
    requires i <= j <= k <= |s|
    ensures s[i..k] == s[i..j] + s[j..k]
  {
    forall x | 0 <= x < k - i ensures s[i..k][x] == (s[i..j] + s[j..k])[x] {
    }
  }

  /** Consecutive reads deliver consecutive slices: what was consumed is never delivered again. */
  lemma {:induction false} ReadsAreConsecutive(c: Cursor, ns: seq<nat>)
    requires c.Valid()
    ensures var (out, last) := ReadMany(c, ns); out == c.data[c.pos..last.pos] && c.pos <= last.pos
    decreases |ns|
  {
    if ns != [] {
      var (a, c1) := ReadN(c, ns[0]);
      ReadsAreConsecutive(c1, ns[1..]);
      var (rest, last) := ReadMany(c1, ns[1..]);
      assert last.data == c1.data == c.data;
      assert c.pos <= c1.pos <= last.pos <= |c.data|;
      SliceAt(c.data, c.pos, c1.pos, last.pos);
    }
  }

  /** Non-blocking `read()` with nothing new arrived returns the empty string and leaves the cursor alone. */
  lemma NonBlockingNothingAvailable(c: Cursor)
    requires c.Valid() && !c.blocking && c.available <= c.pos
    ensures ReadRest(c) == ("", c)
  {
  }

  /** A reader just opened on `content`, in the default blocking mode. */
  function Fresh(content: string): (c: Cursor)
    ensures c.Valid() && c.pos == 0 && c.blocking && c.Limit() == |content|
  {
    Cursor(content, |content|, 0, true)
  }

  /** Two lines joined by the line terminator. */
  const Greeting: string := "Hello World !" + EOL + "How are you ?"

  /** Without an occurrence from `from` on, there is no first one. */
  lemma FirstOccurrenceNone(s: string, d: string, from: nat, lim: nat)
    requires from <= lim <= |s|
    requires forall j :: from <= j ==> !OccursAt(s, d, j, lim)
    ensures FirstOccurrence(s, d, from, lim) == None
  {
  }

  /** An occurrence with none before it is the first one. */
  lemma FirstOccurrenceIs(s: string, d: string, from: nat, lim: nat, i: nat)
    requires from <= i && from <= lim <= |s| && OccursAt(s, d, i, lim)
    requires forall j :: from <= j < i ==> !OccursAt(s, d, j, lim)
    ensures FirstOccurrence(s, d, from, lim) == Some(i)
  {
  }

  /** On a fresh reader, `readUntil(d)` returns what precedes the first occurrence of `d`. */
  lemma ReadUntilFresh(s: string, d: string, i: nat)
    requires d != [] && OccursAt(s, d, i, |s|)
    requires forall j :: 0 <= j < i ==> !OccursAt(s, d, j, |s|)
    ensures ReadUntil(Fresh(s), d).0 == s[..i]
  {
    FirstOccurrenceIs(s, d, 0, |s|, i);
  }

  /** `read()` and `readUntil` of an absent delimiter on a fresh reader over Greeting return all of it. */
  lemma GreetingWhole()
    ensures ReadRest(Fresh(Greeting)).0 == Greeting
    ensures ReadUntil(Fresh(Greeting), "foo").0 == Greeting
  {
    var g := Greeting;
    forall j: nat ensures !OccursAt(g, "foo", j, 27) {
      if j + 3 <= 27 {
        assert g[j..j + 3][0] == g[j];
      }
    }
    FirstOccurrenceNone(g, "foo", 0, 27);
  }

  /** `readLine()` on a fresh reader over Greeting returns the first line. */
  lemma GreetingLine()
    ensures ReadUntil(Fresh(Greeting), EOL).0 == "Hello World !"
  {
    var g := Greeting;
    forall j | 0 <= j < 13 ensures !OccursAt(g, EOL, j, |g|) {
      assert g[j..j + 1] == [g[j]];
    }
    ReadUntilFresh(g, EOL, 13);
    assert g[..13] == "Hello World !";
  }

  /** `readUntil("y")` on a fresh reader over Greeting stops before the first `y`. */
  lemma GreetingUntilChar()
    ensures ReadUntil(Fresh(Greeting), "y").0 == "Hello World !" + EOL + "How are "
  {
    var g := Greeting;
    assert g == "Hello World !" + EOL + "How are " + "y" + "ou ?";
    forall j | 0 <= j < 22 ensures !OccursAt(g, "y", j, |g|) {
      assert g[j..j + 1] == [g[j]];
    }
    ReadUntilFresh(g, "y", 22);
    assert g[..22] == "Hello World !" + EOL + "How are ";
  }

  /** `readUntil(" are")` on a fresh reader over Greeting stops before the word. */
  lemma GreetingUntilWord()
    ensures ReadUntil(Fresh(Greeting), " are").0 == "Hello World !" + EOL + "How"
  {
    var g := Greeting;
    assert g == "Hello World !" + EOL + "How" + " are" + " you ?";
    forall j | 0 <= j < 17 ensures !OccursAt(g, " are", j, |g|) {
      assert g[j..j + 4][1] == g[j + 1];
    }
    ReadUntilFresh(g, " are", 17);
    assert g[..17] == "Hello World !" + EOL + "How";
  }

  /** On a fresh reader over `a + b + rest`, `read(|a|)`, `read(|b|)` and `read()` return the three parts. */
  lemma ReadThreeParts(a: string, b: string, rest: string)
    ensures ReadN(Fresh(a + b + rest), |a|).0 == a
    ensures ReadN(ReadN(Fresh(a + b + rest), |a|).1, |b|).0 == b
    ensures ReadRest(ReadN(ReadN(Fresh(a + b + rest), |a|).1, |b|).1).0 == rest
  {
    var s := a + b + rest;
    assert s[..|a|] == a;
    assert s[|a|..|a| + |b|] == b;
    assert s[|a| + |b|..] == rest;
  }

  /** `read(5)`, `read(6)`, `read()` on a fresh reader over Greeting. */
  lemma GreetingPieces()
    ensures ReadN(Fresh(Greeting), 5).0 == "Hello"
    ensures ReadN(ReadN(Fresh(Greeting), 5).1, 6).0 == " World"
    ensures ReadRest(ReadN(ReadN(Fresh(Greeting), 5).1, 6).1).0 == " !" + EOL + "How are you ?"
  {
    assert Greeting == "Hello" + " World" + (" !" + EOL + "How are you ?");
    ReadThreeParts("Hello", " World", " !" + EOL + "How are you ?");
  }
}

module Readers {
  import opened Errors
  import opened Cursors

  /** An open stream handle: its `fopen` mode, and what reading it yields. */
  datatype Handle = Handle(mode: string, data: string, available: nat)

  /** A handle can be read when its mode is a reading one (`r`) or an update one (`+`). */
  predicate Readable(mode: string)
  {
    'r' in mode || '+' in mode
  }

  class Reader {
    const data: string
    const available: nat
    var pos: nat
    var blocking: bool
    var closed: bool

    predicate Valid()
      reads this
    {
      pos <= |data|
    }

    /** The reader's cursor. */
    function State(): (c: Cursor)
      reads this
      ensures c.data == data && c.pos == pos && c.blocking == blocking && c.available == available
      ensures Valid() ==> c.Valid()
    {
      Cursor(data, available, pos, blocking)
    }

    constructor (h: Handle)
      ensures Valid() && !closed && blocking && pos == 0
      ensures data == h.data && available == h.available
    {
      data := h.data;
      available := h.available;
      pos := 0;
      blocking := true;
      closed := false;
    }

    /** `read(n)`. */
    method Read(n: nat) returns (r: Result<string>)
      requires Valid()
      modifies this
      ensures Valid() && closed == old(closed) && blocking == old(blocking)
      ensures r.Err? <==> old(closed)
      ensures r.Err? ==> r.error == ResourceException && pos == old(pos)
      ensures r.Ok? ==> (r.value, State()) == ReadN(old(State()), n)
    {
      if closed {
        return Err(ResourceException);
      }
      var out;
      out, pos := ReadN(State(), n).0, ReadN(State(), n).1.pos;
      return Ok(out);
    }

    /** `read()`. */
    method ReadAll() returns (r: Result<string>)
      requires Valid()
      modifies this
      ensures Valid() && closed == old(closed) && blocking == old(blocking)
      ensures r.Err? <==> old(closed)
      ensures r.Err? ==> r.error == ResourceException && pos == old(pos)
      ensures r.Ok? ==> (r.value, State()) == ReadRest(old(State()))
    {
      if closed {
        return Err(ResourceException);
      }
      var lim := State().Limit();
      var out := data[pos..lim];
      pos := lim;
      return Ok(out);
    }

    /** `readUntil(d)`: scans forward for the first occurrence of `d`. */
    method ReadUntil(d: string) returns (r: Result<string>)
      requires Valid()
      modifies this
      ensures Valid() && closed == old(closed) && blocking == old(blocking)
      ensures r.Err? <==> old(closed) || d == []
      ensures r.Err? ==> r.error == ResourceException && pos == old(pos)
      ensures r.Ok? ==> d != [] && (r.value, State()) == Cursors.ReadUntil(old(State()), d)
    {
      if closed || d == [] {
        return Err(ResourceException);
      }
      var lim := State().Limit();
      var i := pos;
      while i + |d| <= lim && data[i..i + |d|] != d
        invariant pos <= i <= lim
        invariant FirstOccurrence(data, d, i, lim) == FirstOccurrence(data, d, pos, lim)
        decreases lim - i
      {
        i := i + 1;
      }
      var out;
      if i + |d| <= lim {
        out := data[pos..i];
        pos := i + |d|;
      } else {
        out := data[pos..lim];
        pos := lim;
      }
      return Ok(out);
    }

    /** `readLine()`: reads up to the next line terminator, which is consumed but not returned. */
    method ReadLine() returns (r: Result<string>)
      requires Valid()
      modifies this
      ensures Valid() && closed == old(closed) && blocking == old(blocking)
      ensures r.Err? <==> old(closed)
      ensures r.Err? ==> r.error == ResourceException && pos == old(pos)
      ensures r.Ok? ==> (r.value, State()) == Cursors.ReadUntil(old(State()), EOL)
    {
      r := ReadUntil(EOL);
    }

    /** `blocking(flag)`. */
    method Blocking(flag: bool) returns (r: Outcome)
      requires Valid()
      modifies this
      ensures Valid() && pos == old(pos) && closed == old(closed)
      ensures r.Fail? <==> old(closed)
      ensures r.Fail? ==> r.error == ResourceException && blocking == old(blocking)
      ensures r.Pass? ==> blocking == flag
    {
      if closed {
        return Fail(ResourceException);
      }
      blocking := flag;
      return Pass;
    }

    /** `close()`: releases the handle; a second close fails like any other use after close. */
    method Close() returns (r: Outcome)
      requires Valid()
      modifies this
      ensures Valid() && closed && pos == old(pos) && blocking == old(blocking)
      ensures r.Fail? <==> old(closed)
      ensures r.Fail? ==> r.error == ResourceException
    {
      if closed {
        return Fail(ResourceException);
      }
      closed := true;
      return Pass;
    }
  }

  /** `new Reader(handle)`: refuses a handle that cannot be read. */
  method Open(h: Handle) returns (r: Result<Reader>)
    ensures r.Err? <==> !Readable(h.mode)
    ensures r.Err? ==> r.error == ResourceException
    ensures r.Ok? ==> fresh(r.value) && r.value.Valid() && !r.value.closed && r.value.blocking && r.value.pos == 0
    ensures r.Ok? ==> r.value.data == h.data && r.value.available == h.available
  {
    if !Readable(h.mode) {
      return Err(ResourceException);
    }
    var rd := new Reader(h);
    return Ok(rd);
  }
}
