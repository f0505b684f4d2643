/**
 * One output stream of a diagnosed invocation: a bounded private tail, and the failure
 * stage projected from newline-terminated JSON lines. Both are specified on the bytes
 * seen so far, so neither depends on how the reads cut those bytes into chunks.
 */
module DiagnosticStream {
  import opened Base
  import opened Chunks

  newtype Byte = b: int | 0 <= b < 256

  type Bytes = seq<Byte>

  const FILE_LIMIT: nat := 1024 * 1024
  const LINE_LIMIT: nat := 64 * 1024
  const NEWLINE: Byte := 10
  const RETURN: Byte := 13

  datatype Stage = Bootstrap | Installation

  datatype Metadata = Metadata(observed: nat, retained: nat, dropped: int, stored: bool)

  /** `schemaOf` is the JSON reader: the string member "schema" of a line that is an object. */
  type SchemaReader = Bytes -> Option<string>

  function Recognise(schemaOf: SchemaReader, line: Bytes): Option<Stage> {
    match schemaOf(line)
    case None => None
    case Some(schema) =>
      if schema in ["codeclew-bootstrap-error/1.0", "codeclew-bootstrap-error/2.0"] then Some(Bootstrap)
      else if schema == "codeclew-installation-error/1.0" then Some(Installation)
      else None
  }

  // ---------------------------------------------------------------- specification

  /** What follows the last newline. */
  function Pending(s: Bytes): Bytes {
    if s == [] || s[|s| - 1] == NEWLINE then [] else Pending(s[..|s| - 1]) + [s[|s| - 1]]
  }

  /** A line, with its newline, that is short enough and carries a known schema. */
  function Known(schemaOf: SchemaReader, line: Bytes): Option<Stage> {
    if |line| <= LINE_LIMIT then Recognise(schemaOf, line) else None
  }

  /** The stage of the last known line of `s`. */
  function LastStage(schemaOf: SchemaReader, s: Bytes): Option<Stage> {
    if s == [] then
      None
    else
      var rest := s[..|s| - 1];
      if s[|s| - 1] == NEWLINE && Known(schemaOf, Pending(rest) + [NEWLINE]).Some? then
        Known(schemaOf, Pending(rest) + [NEWLINE])
      else
        LastStage(schemaOf, rest)
  }

  /** `s[a..b]` is one complete line of `s`: it ends at a newline, follows one, and holds no other. */
  predicate IsLine(s: Bytes, a: int, b: int) {
    && 0 <= a < b <= |s|
    && s[b - 1] == NEWLINE
    && (a == 0 || s[a - 1] == NEWLINE)
    && forall k :: a <= k < b - 1 ==> s[k] != NEWLINE
  }

  /** No known line of `s` ends after `from`. */
  ghost predicate QuietAfter(schemaOf: SchemaReader, s: Bytes, from: int) {
    forall a, b | IsLine(s, a, b) && b > from :: Known(schemaOf, s[a..b]).None?
  }

  /** Pending text is the longest suffix without a newline. */
  lemma {:induction false} PendingIsLastPart(s: Bytes)
    ensures |Pending(s)| <= |s|
    ensures var a := |s| - |Pending(s)|;
      && Pending(s) == s[a..]
      && (a == 0 || s[a - 1] == NEWLINE)
      && forall k :: a <= k < |s| ==> s[k] != NEWLINE
  {
    if s != [] && s[|s| - 1] != NEWLINE {
      var rest := s[..|s| - 1];
      PendingIsLastPart(rest);
      var a := |rest| - |Pending(rest)|;
      assert s[a..] == rest[a..] + [s[|s| - 1]];
    }
  }

  lemma LineOfShorter(s: Bytes, c: Byte, t: Bytes, a: int, b: int)
    requires t == s + [c] && IsLine(t, a, b) && b <= |s|
    ensures IsLine(s, a, b) && t[a..b] == s[a..b]
  {
    assert forall k :: 0 <= k < |s| ==> t[k] == s[k];
  }

  lemma PendingCompletes(s: Bytes, t: Bytes)
    requires t == s + [NEWLINE]
    ensures var start := |s| - |Pending(s)|;
      0 <= start && IsLine(t, start, |t|) && t[start..|t|] == Pending(s) + [NEWLINE]
  {
    PendingIsLastPart(s);
  }

  /** The only line that a further byte can complete is the pending one. */
  lemma CompletedLine(s: Bytes, t: Bytes, a: int)
    requires t == s + [NEWLINE] && IsLine(t, a, |t|)
    ensures t[a..|t|] == Pending(s) + [NEWLINE]
  {
    PendingCompletes(s, t);
  }

  lemma QuietLonger(schemaOf: SchemaReader, s: Bytes, c: Byte, from: int)
    requires QuietAfter(schemaOf, s, from)
    requires c == NEWLINE ==> Known(schemaOf, Pending(s) + [NEWLINE]).None?
    ensures QuietAfter(schemaOf, s + [c], from)
  {
    hide Known, Pending;
    var t := s + [c];
    forall a, b | IsLine(t, a, b) && b > from
      ensures Known(schemaOf, t[a..b]).None?
    {
      hide IsLine;
      if b <= |s| {
        LineOfShorter(s, c, t, a, b);
      } else {
        CompletedLine(s, t, a);
      }
    }
  }

  /**
   * The projected stage without recursion: it is that of a known line of `s` after which
   * `s` has no other known line; and there is none exactly when `s` has no known line.
   */
  lemma {:induction false} LastStageIsLast(schemaOf: SchemaReader, s: Bytes)
    ensures LastStage(schemaOf, s).None? ==> QuietAfter(schemaOf, s, 0)
    ensures LastStage(schemaOf, s).Some? ==>
      exists a, b | IsLine(s, a, b) ::
        Known(schemaOf, s[a..b]) == LastStage(schemaOf, s) && QuietAfter(schemaOf, s, b)
  {
    hide Known, Pending;
    if s != [] {
      var rest, c := s[..|s| - 1], s[|s| - 1];
      assert s == rest + [c];
      LastStageIsLast(schemaOf, rest);
      if c == NEWLINE && Known(schemaOf, Pending(rest) + [NEWLINE]).Some? {
        PendingCompletes(rest, s);
        assert QuietAfter(schemaOf, s, |s|);
      } else if LastStage(schemaOf, rest).None? {
        QuietLonger(schemaOf, rest, c, 0);
      } else {
        var a, b :| IsLine(rest, a, b) && Known(schemaOf, rest[a..b]) == LastStage(schemaOf, rest)
          && QuietAfter(schemaOf, rest, b);
        QuietLonger(schemaOf, rest, c, b);
        assert IsLine(s, a, b) && s[a..b] == rest[a..b];
      }
    }
  }

  /** A complete short line of `s` whose object carries one of these schemas. */
  ghost predicate Reports(schemaOf: SchemaReader, s: Bytes, a: int, b: int, schemas: set<string>) {
    && IsLine(s, a, b) && b - a <= LINE_LIMIT
    && schemaOf(s[a..b]).Some? && schemaOf(s[a..b]).value in schemas
  }

  const BOOTSTRAP := {"codeclew-bootstrap-error/1.0", "codeclew-bootstrap-error/2.0"}
  const INSTALLATION := {"codeclew-installation-error/1.0"}

  /** The last report of `s` carries one of these schemas. */
  ghost predicate LastReports(schemaOf: SchemaReader, s: Bytes, schemas: set<string>) {
    exists a, b :: Reports(schemaOf, s, a, b, schemas) &&
      forall c, d :: Reports(schemaOf, s, c, d, BOOTSTRAP + INSTALLATION) ==> d <= b
  }

  /** A line is known, with its stage, exactly by its length and its schema. */
  lemma KnownIsReport(schemaOf: SchemaReader, s: Bytes, a: int, b: int)
    requires IsLine(s, a, b)
    ensures Known(schemaOf, s[a..b]) == Some(Bootstrap) <==> Reports(schemaOf, s, a, b, BOOTSTRAP)
    ensures Known(schemaOf, s[a..b]) == Some(Installation) <==> Reports(schemaOf, s, a, b, INSTALLATION)
    ensures Known(schemaOf, s[a..b]).Some? <==> Reports(schemaOf, s, a, b, BOOTSTRAP + INSTALLATION)
  {
  }

  lemma QuietHasNoReport(schemaOf: SchemaReader, s: Bytes, from: int)
    requires QuietAfter(schemaOf, s, from)
    ensures forall c, d :: Reports(schemaOf, s, c, d, BOOTSTRAP + INSTALLATION) ==> d <= from
  {
    hide Known;
    forall c, d | Reports(schemaOf, s, c, d, BOOTSTRAP + INSTALLATION)
      ensures d <= from
    {
      KnownIsReport(schemaOf, s, c, d);
    }
  }

  /** The projected stage in terms of schemas: that of the last report in the stream, be it
      of the bootstrap or of the installation, and none exactly if there is no report. */
  lemma StageIsExact(schemaOf: SchemaReader, s: Bytes)
    ensures LastStage(schemaOf, s) == Some(Bootstrap) <==> LastReports(schemaOf, s, BOOTSTRAP)
    ensures LastStage(schemaOf, s) == Some(Installation) <==> LastReports(schemaOf, s, INSTALLATION)
    ensures LastStage(schemaOf, s).None? <==> forall a, b :: !Reports(schemaOf, s, a, b, BOOTSTRAP + INSTALLATION)
  {
    LastStageIsLast(schemaOf, s);
    if LastStage(schemaOf, s).None? {
      QuietHasNoReport(schemaOf, s, 0);
      assert forall a, b, x :: Reports(schemaOf, s, a, b, x) && x <= BOOTSTRAP + INSTALLATION ==>
        Reports(schemaOf, s, a, b, BOOTSTRAP + INSTALLATION);
      assert BOOTSTRAP <= BOOTSTRAP + INSTALLATION && INSTALLATION <= BOOTSTRAP + INSTALLATION;
    } else {
      var a, b :| IsLine(s, a, b) && Known(schemaOf, s[a..b]) == LastStage(schemaOf, s) && QuietAfter(schemaOf, s, b);
      KnownIsReport(schemaOf, s, a, b);
      QuietHasNoReport(schemaOf, s, b);
      hide Known, LastStage, QuietAfter;
      LastReportIsOne(schemaOf, s, a, b);
    }
  }

  /** Two last reports are the same line. */
  lemma LastReportIsOne(schemaOf: SchemaReader, s: Bytes, a: int, b: int)
    requires Reports(schemaOf, s, a, b, BOOTSTRAP + INSTALLATION)
    requires forall c, d :: Reports(schemaOf, s, c, d, BOOTSTRAP + INSTALLATION) ==> d <= b
    ensures LastReports(schemaOf, s, BOOTSTRAP) <==> Reports(schemaOf, s, a, b, BOOTSTRAP)
    ensures LastReports(schemaOf, s, INSTALLATION) <==> Reports(schemaOf, s, a, b, INSTALLATION)
  {
    forall c, d, x | Reports(schemaOf, s, c, d, x) && x <= BOOTSTRAP + INSTALLATION
      ensures d <= b && (d == b ==> c == a)
    {
      assert Reports(schemaOf, s, c, d, BOOTSTRAP + INSTALLATION);
    }
    assert BOOTSTRAP <= BOOTSTRAP + INSTALLATION && INSTALLATION <= BOOTSTRAP + INSTALLATION;
  }

  // ---------------------------------------------------------------- fragments

  /** Where the first fragment of `bytes.splitlines(keepends=True)` ends. */
  function FragmentEnd(data: Bytes): (n: nat)
    requires data != []
    ensures 1 <= n <= |data|
    ensures NEWLINE !in data[..n - 1]
  {
    if data[0] == NEWLINE then
      1
    else if data[0] == RETURN then
      if |data| > 1 && data[1] == NEWLINE then assert data[..1] == [data[0]]; 2 else 1
    else if |data| == 1 then
      1
    else
      var n := 1 + FragmentEnd(data[1..]);
      assert data[..n - 1] == [data[0]] + data[1..][..n - 2];
      n
  }

  /** A line feed ends here, or a carriage return that no line feed follows, or the data. */
  predicate BreaksAt(data: Bytes, n: int)
    requires 1 <= n <= |data|
  {
    n == |data| || data[n - 1] == NEWLINE || (data[n - 1] == RETURN && data[n] != NEWLINE)
  }

  /** The first fragment ends at the first break, as `splitlines` has it. */
  lemma {:induction false} FragmentEndIsExact(data: Bytes, n: int)
    requires 1 <= n <= |data|
    ensures FragmentEnd(data) == n <==> BreaksAt(data, n) && forall m | 1 <= m < n :: !BreaksAt(data, m)
  {
    var first := FragmentEnd(data);
    FirstBreak(data);
    assert n < first ==> !BreaksAt(data, n);
    assert n > first ==> BreaksAt(data, first);
  }

  lemma {:induction false} FirstBreak(data: Bytes)
    requires data != []
    ensures BreaksAt(data, FragmentEnd(data)) && forall m | 1 <= m < FragmentEnd(data) :: !BreaksAt(data, m)
  {
    if |data| > 1 && data[0] != NEWLINE && data[0] != RETURN {
      var rest := data[1..];
      FirstBreak(rest);
      forall m | 1 <= m < FragmentEnd(data)
        ensures !BreaksAt(data, m)
      {
        assert m == 1 || !BreaksAt(rest, m - 1);
      }
    }
  }

  function SplitLines(data: Bytes): seq<Bytes> {
    if data == [] then [] else [data[..FragmentEnd(data)]] + SplitLines(data[FragmentEnd(data)..])
  }

  predicate IsFragment(f: Bytes) {
    f != [] && NEWLINE !in f[..|f| - 1]
  }

  lemma {:induction false} SplitLinesJoins(data: Bytes)
    ensures Join(SplitLines(data)) == data
    ensures forall f | f in SplitLines(data) :: IsFragment(f)
  {
    if data != [] {
      var n := FragmentEnd(data);
      var first, rest := data[..n], data[n..];
      assert SplitLines(data) == [first] + SplitLines(rest);
      assert IsFragment(first) by { assert first[..n - 1] == data[..n - 1]; }
      hide FragmentEnd, IsFragment, SplitLines, Join;
      SplitLinesJoins(rest);
      JoinFirst(first, SplitLines(rest));
      assert first + rest == data;
    } else {
      assert SplitLines(data) == [];
    }
  }

  lemma JoinMore(s: Bytes, parts: seq<Bytes>, i: nat)
    requires i < |parts|
    ensures s + Join(parts[..i]) + parts[i] == s + Join(parts[..i + 1])
  {
    JoinPrefix(parts, i);
  }

  /** Bytes without a newline lengthen the pending line and change no stage. */
  lemma {:induction false} QuietBytes(schemaOf: SchemaReader, s: Bytes, t: Bytes)
    requires NEWLINE !in t
    ensures Pending(s + t) == Pending(s) + t
    ensures LastStage(schemaOf, s + t) == LastStage(schemaOf, s)
  {
    if t == [] {
      assert s + t == s;
    } else {
      var rest := t[..|t| - 1];
      assert (s + t)[..|s + t| - 1] == s + rest;
      QuietBytes(schemaOf, s, rest);
    }
  }

  /** What one fragment does to the pending line and to the stage. */
  lemma FragmentStep(schemaOf: SchemaReader, s: Bytes, f: Bytes)
    requires IsFragment(f)
    ensures f[|f| - 1] != NEWLINE ==>
      Pending(s + f) == Pending(s) + f && LastStage(schemaOf, s + f) == LastStage(schemaOf, s)
    ensures f[|f| - 1] == NEWLINE ==>
      && Pending(s + f) == []
      && LastStage(schemaOf, s + f) ==
         if Known(schemaOf, Pending(s) + f).Some? then Known(schemaOf, Pending(s) + f) else LastStage(schemaOf, s)
  {
    hide Known, Pending, LastStage;
    var body, last := f[..|f| - 1], f[|f| - 1];
    assert f == body + [last];
    if last == NEWLINE {
      QuietBytes(schemaOf, s, body);
      EndOfLine(schemaOf, s + body);
      assert s + f == (s + body) + [NEWLINE];
      assert Pending(s) + f == (Pending(s) + body) + [NEWLINE];
    } else {
      QuietBytes(schemaOf, s, f);
    }
  }

  /** A newline completes the pending line. */
  lemma EndOfLine(schemaOf: SchemaReader, s: Bytes)
    ensures Pending(s + [NEWLINE]) == []
    ensures var known := Known(schemaOf, Pending(s) + [NEWLINE]);
      LastStage(schemaOf, s + [NEWLINE]) == if known.Some? then known else LastStage(schemaOf, s)
  {
    hide Known;
    assert (s + [NEWLINE])[..|s|] == s;
  }

  lemma TailStep(s: Bytes, t: Bytes)
    ensures var joined := Last(s, FILE_LIMIT) + t;
      Last(s + t, FILE_LIMIT) == if |joined| > FILE_LIMIT then joined[|joined| - FILE_LIMIT..] else joined
  {
    TailCarries(s, t, FILE_LIMIT);
  }

  // ---------------------------------------------------------------- the stream

  class Stream {
    const private: bool
    const schemaOf: SchemaReader
    var observed: nat
    var tail: Bytes
    var line: Bytes
    var lineOverflow: bool
    var failureStage: Option<Stage>
    ghost var seen: Bytes

    constructor (private: bool, schemaOf: SchemaReader)
      ensures Valid() && seen == [] && this.private == private && this.schemaOf == schemaOf
    {
      this.private := private;
      this.schemaOf := schemaOf;
      observed, tail, line, lineOverflow, failureStage := 0, [], [], false, None;
      seen := [];
    }

    /** The line scanner stands where reading `s` leaves it. */
    ghost predicate Scanned(s: Bytes)
      reads this
    {
      && lineOverflow == (|Pending(s)| > LINE_LIMIT)
      && line == (if lineOverflow then [] else Pending(s))
      && failureStage == LastStage(schemaOf, s)
    }

    ghost predicate Valid()
      reads this
    {
      && observed == |seen|
      && tail == (if private then Last(seen, FILE_LIMIT) else [])
      && Scanned(seen)
    }

    method Append(data: Bytes)
      requires Valid()
      modifies this
      ensures Valid()
      ensures seen == old(seen) + data
    {
      hide LastStage, Pending, Last;
      observed := observed + |data|;
      if private {
        TailStep(seen, data);
        tail := tail + data;
        if |tail| > FILE_LIMIT {
          tail := tail[|tail| - FILE_LIMIT..];
        }
      }
      ScanData(data);
      seen := seen + data;
    }

    /** The fragment loop. */
    method ScanData(data: Bytes)
      requires Scanned(seen)
      modifies this`line, this`lineOverflow, this`failureStage
      ensures Scanned(seen + data)
    {
      hide LastStage, Pending, SplitLines;
      var fragments := SplitLines(data);
      SplitLinesJoins(data);
      assert seen + Join(fragments[..0]) == seen;
      for i := 0 to |fragments|
        invariant Scanned(seen + Join(fragments[..i]))
      {
        hide Join, IsFragment;
        Scan(fragments[i], seen + Join(fragments[..i]));
        JoinMore(seen, fragments, i);
      }
      assert fragments[..|fragments|] == fragments;
    }

    /** The body of the fragment loop. */
    method Scan(fragment: Bytes, ghost before: Bytes)
      requires Scanned(before) && IsFragment(fragment)
      modifies this`line, this`lineOverflow, this`failureStage
      ensures Scanned(before + fragment)
    {
      FragmentStep(schemaOf, before, fragment);
      if !lineOverflow {
        if |line| + |fragment| <= LINE_LIMIT {
          line := line + fragment;
        } else {
          line := [];
          lineOverflow := true;
        }
      }
      if fragment[|fragment| - 1] == NEWLINE {
        if !lineOverflow {
          var stage := Recognise(schemaOf, line);
          if stage.Some? {
            failureStage := stage;
          }
        }
        line := [];
        lineOverflow := false;
      }
    }

    function GetMetadata(): (m: Metadata)
      requires Valid()
      reads this
      ensures m.observed == |seen| && m.retained + m.dropped == m.observed && m.dropped >= 0
      ensures m.retained == if private && |seen| > FILE_LIMIT then FILE_LIMIT else if private then |seen| else 0
    {
      Metadata(observed, |tail|, observed - |tail|, private)
    }
  }

  /**
   * The reads of one pipe, in order. Everything reported is a function of the joined
   * bytes: two chunkings of the same output give the same report.
   */
  method Collect(chunks: seq<Bytes>, private: bool, schemaOf: SchemaReader)
    returns (tail: Bytes, stage: Option<Stage>, m: Metadata)
    ensures tail == if private then Last(Join(chunks), FILE_LIMIT) else []
    ensures stage == LastStage(schemaOf, Join(chunks))
    ensures m.observed == |Join(chunks)| && m.retained == |tail| && m.retained + m.dropped == m.observed
    ensures m.stored == private
  {
    var stream := new Stream(private, schemaOf);
    for i := 0 to |chunks|
      invariant stream.Valid() && stream.seen == Join(chunks[..i])
      invariant fresh(stream)
    {
      hide LastStage, Pending, Join;
      stream.Append(chunks[i]);
      JoinPrefix(chunks, i);
    }
    assert chunks[..|chunks|] == chunks;
    m := stream.GetMetadata();
    return stream.tail, stream.failureStage, m;
  }
}
