/**
 * Blanking of complete Rust string literals before prose is checked: the scanners for
 * character literals, string literals, trivia and attributes, and the masking loop.
 *
 * Each scanner is a function on the text; the loops of the source are methods proved
 * equal to them. The lemmas then say which texts the scanners accept, by grammar and
 * not by scanning.
 */
module RustMask {
  import opened Base

  /** Python's `str.isalnum` and `str.isspace` for one character, whatever the Unicode version. */
  datatype Classes = Classes(alnum: char -> bool, space: char -> bool)

  /** A scanner's answer: `None`, `-1` or an end position. */
  datatype Scan = Absent | Incomplete | End(at: nat)

  /** The two characters `a` and `b` stand at `i`. */
  predicate Pair(s: string, i: nat, a: char, b: char) {
    i + 2 <= |s| && s[i] == a && s[i + 1] == b
  }

  /** `str.find` of one character. */
  function Find(s: string, c: char, from: nat): (r: Option<nat>)
    ensures r.Some? ==> from <= r.value < |s| && s[r.value] == c && forall k :: from <= k < r.value ==> s[k] != c
    ensures r.None? ==> forall k :: from <= k < |s| ==> s[k] != c
    decreases |s| - from
  {
    if from >= |s| then None else if s[from] == c then Some(from) else Find(s, c, from + 1)
  }

  // ---------------------------------------------------------------- character literals

  predicate Hex(c: char) {
    c in "0123456789abcdefABCDEF"
  }

  /** Hexadecimal digits and separators, with at least one digit. */
  predicate HexDigits(d: string) {
    (exists k :: 0 <= k < |d| && d[k] != '_') && forall k :: 0 <= k < |d| ==> d[k] == '_' || Hex(d[k])
  }

  /** `str.replace("_", "")`. */
  function WithoutSeparators(d: string): string {
    if d == [] then [] else (if d[0] == '_' then [] else [d[0]]) + WithoutSeparators(d[1..])
  }

  /** As the source puts it: without separators some digits are left, and nothing else. */
  lemma {:induction false} DigitsAreExact(d: string)
    ensures (forall k :: 0 <= k < |d| ==> d[k] == '_' || Hex(d[k])) <==>
      forall c :: c in WithoutSeparators(d) ==> Hex(c)
    ensures (exists k :: 0 <= k < |d| && d[k] != '_') <==> WithoutSeparators(d) != ""
    ensures HexDigits(d) <==> WithoutSeparators(d) != "" && forall c :: c in WithoutSeparators(d) ==> Hex(c)
  {
    hide Hex;
    if d != [] {
      var rest := d[1..];
      DigitsAreExact(rest);
      assert forall k :: 0 <= k < |rest| ==> rest[k] == d[k + 1];
      assert forall k :: 0 < k < |d| ==> d[k] == rest[k - 1];
      assert WithoutSeparators(d) == (if d[0] == '_' then [] else [d[0]]) + WithoutSeparators(rest);
    }
  }

  function CharacterLiteralEnd(s: string, start: nat): Option<nat> {
    if start + 1 >= |s| || s[start] != '\'' then
      None
    else
      var body :- CharacterBodyEnd(s, start + 1);
      if body < |s| && s[body] == '\'' then Some(body + 1) else None
  }

  function CharacterBodyEnd(s: string, at: nat): Option<nat>
    requires at < |s|
  {
    if s[at] == '\\' then
      var cursor := at + 1;
      if cursor >= |s| then
        None
      else if s[cursor] == 'u' && cursor + 1 < |s| && s[cursor + 1] == '{' then
        var close :- Find(s, '}', cursor + 2);
        if '\n' in s[cursor..close] || !HexDigits(s[cursor + 2..close]) then None else Some(close + 1)
      else if s[cursor] == 'x' then
        if cursor + 3 <= |s| && Hex(s[cursor + 1]) && Hex(s[cursor + 2]) then Some(cursor + 3) else None
      else if s[cursor] in "nrt0\\'\"" then
        Some(cursor + 1)
      else
        None
    else if s[at] in "'\r\n" then
      None
    else
      Some(at + 1)
  }

  /** What may stand between the quotes. */
  predicate CharacterBody(b: string) {
    || (|b| == 1 && b[0] !in "\\'\r\n")
    || (|b| == 2 && b[0] == '\\' && b[1] in "nrt0\\'\"")
    || (|b| == 4 && b[0] == '\\' && b[1] == 'x' && Hex(b[2]) && Hex(b[3]))
    || (|b| >= 4 && b[0] == '\\' && b[1] == 'u' && b[2] == '{' && b[|b| - 1] == '}' && HexDigits(b[3..|b| - 1]))
  }

  predicate IsCharacterLiteral(s: string, a: nat, b: nat) {
    && a + 2 <= b <= |s| && s[a] == '\'' && s[b - 1] == '\''
    && CharacterBody(s[a + 1..b - 1])
  }

  lemma BodyIsAccepted(s: string, at: nat, e: nat)
    requires at < e < |s| && CharacterBody(s[at..e]) && s[e] == '\''
    ensures CharacterBodyEnd(s, at) == Some(e)
  {
    hide HexDigits, Hex;
    var b := s[at..e];
    assert b[0] == s[at] && (|b| > 1 ==> b[1] == s[at + 1]) && (|b| > 2 ==> b[2] == s[at + 2]);
    if |b| >= 4 && b[1] == 'u' {
      assert b[|b| - 1] == s[e - 1];
      assert forall k :: 3 <= k < |b| - 1 ==> b[k] == s[at + k];
      assert b[3..|b| - 1] == s[at + 3..e - 1];
      UnicodeBody(s, at, e);
    } else if |b| == 4 {
      assert b[3] == s[at + 3];
    }
  }

  lemma DigitsAreClean(d: string)
    requires HexDigits(d)
    ensures '}' !in d && '\n' !in d
  {
  }

  lemma UnicodeBody(s: string, at: nat, e: nat)
    requires at + 4 <= e < |s|
    requires s[at] == '\\' && s[at + 1] == 'u' && s[at + 2] == '{' && s[e - 1] == '}' && HexDigits(s[at + 3..e - 1])
    ensures CharacterBodyEnd(s, at) == Some(e)
  {
    var d := s[at + 3..e - 1];
    DigitsAreClean(d);
    hide HexDigits;
    assert forall k :: at + 3 <= k < e - 1 ==> s[k] == d[k - at - 3];
    assert s[at + 1..e - 1] == ['u', '{'] + d;
  }

  lemma AcceptedIsBody(s: string, at: nat)
    requires at < |s| && CharacterBodyEnd(s, at).Some?
    ensures var e := CharacterBodyEnd(s, at).value; at < e <= |s| && CharacterBody(s[at..e])
  {
    hide HexDigits, Hex;
    var e := CharacterBodyEnd(s, at).value;
    var b := s[at..e];
    assert forall k :: 0 <= k < |b| ==> b[k] == s[at + k];
    if s[at] == '\\' && s[at + 1] == 'u' {
      assert b[3..|b| - 1] == s[at + 3..e - 1];
    }
  }

  /** The scanner accepts exactly the grammar's character literals, so a lifetime is left alone. */
  lemma CharacterLiteralIsExact(s: string, a: nat, b: nat)
    ensures CharacterLiteralEnd(s, a) == Some(b) <==> IsCharacterLiteral(s, a, b)
  {
    hide CharacterBodyEnd, CharacterBody;
    if IsCharacterLiteral(s, a, b) {
      NonemptyBody(s[a + 1..b - 1]);
      BodyIsAccepted(s, a + 1, b - 1);
    } else if CharacterLiteralEnd(s, a) == Some(b) {
      AcceptedIsBody(s, a + 1);
    }
  }

  lemma NonemptyBody(b: string)
    requires CharacterBody(b)
    ensures b != []
  {
  }

  // ---------------------------------------------------------------- string literals

  datatype Opening = NoOpening | Plain(quote: nat) | Raw(quote: nat, hashes: nat)

  /** How many `#` stand at `i`. */
  function Hashes(s: string, i: nat): (n: nat)
    ensures i <= |s| ==> i + n <= |s|
    ensures forall k :: i <= k < i + n && k < |s| ==> s[k] == '#'
    ensures i + n < |s| ==> s[i + n] != '#'
    decreases |s| - i
  {
    if i < |s| && s[i] == '#' then 1 + Hashes(s, i + 1) else 0
  }

  predicate AfterWord(cls: Classes, s: string, i: nat)
    requires i <= |s|
  {
    i > 0 && (cls.alnum(s[i - 1]) || s[i - 1] == '_')
  }

  /** The text `t` stands at `i`. */
  predicate Stands(s: string, i: nat, t: string) {
    i + |t| <= |s| && s[i..i + |t|] == t
  }

  /** Comments are recognised by the two characters that stand there. */
  lemma PairStands(s: string, i: nat, a: char, b: char)
    ensures Pair(s, i, a, b) <==> Stands(s, i, [a, b])
  {
    if i + 2 <= |s| {
      assert s[i..i + 2] == [s[i], s[i + 1]];
    }
  }

  /** `n` hashes and a quote stand at `i`. */
  predicate Fence(s: string, i: nat, n: nat) {
    i + n < |s| && s[i + n] == '"' && forall k :: i <= k < i + n ==> s[k] == '#'
  }

  /** By grammar: no letter, digit or underscore stands right before. */
  predicate Standalone(cls: Classes, s: string, i: nat)
    requires i <= |s|
  {
    i > 0 ==> !cls.alnum(s[i - 1]) && s[i - 1] != '_'
  }

  /** By grammar: an ordinary string, alone or as a byte or C string, whose quote is at `quote`. */
  predicate OpensPlain(cls: Classes, s: string, a: nat, quote: nat) {
    || (Stands(s, a, "\"") && quote == a)
    || ((Stands(s, a, "b\"") || Stands(s, a, "c\"")) && Standalone(cls, s, a) && quote == a + 1)
  }

  /** By grammar: a raw string with `n` hashes, alone or as a byte string. */
  predicate OpensRaw(cls: Classes, s: string, a: nat, quote: nat, n: nat) {
    || (Stands(s, a, "r") && Fence(s, a + 1, n) && Standalone(cls, s, a) && quote == a + 1 + n)
    || (Stands(s, a, "br") && Fence(s, a + 2, n) && Standalone(cls, s, a) && quote == a + 2 + n)
  }

  /** By grammar: some string opens at `a`. */
  ghost predicate StringOpens(cls: Classes, s: string, a: nat) {
    (exists quote: nat :: OpensPlain(cls, s, a, quote)) || exists quote: nat, n: nat :: OpensRaw(cls, s, a, quote, n)
  }

  /** Which kind of string, if any, opens at `start`. */
  function OpeningAt(cls: Classes, s: string, start: nat): (r: Opening)
    ensures r.Plain? ==> start <= r.quote < |s| && s[r.quote] == '"'
    ensures r.Raw? ==> start < r.quote < |s| && s[r.quote] == '"' && r.hashes < r.quote
  {
    if start >= |s| then
      NoOpening
    else if s[start] == '"' then
      Plain(start)
    else if s[start] in "brc" && !AfterWord(cls, s, start) then
      var next := start + 1;
      if s[start] == 'b' && next < |s| && s[next] == 'r' then
        RawOpening(s, next + 1)
      else if s[start] == 'r' then
        RawOpening(s, next)
      else if next < |s| && s[next] == '"' then
        Plain(next)
      else
        NoOpening
    else
      NoOpening
  }

  function RawOpening(s: string, i: nat): (r: Opening)
    requires i <= |s|
    ensures r == NoOpening || (r.Raw? && i <= r.quote < |s| && s[r.quote] == '"' && r.quote == i + r.hashes)
  {
    var quote := i + Hashes(s, i);
    if quote < |s| && s[quote] == '"' then Raw(quote, Hashes(s, i)) else NoOpening
  }

  /** A quote followed by `n` hashes. */
  predicate Closes(s: string, i: nat, n: nat) {
    i + 1 + n <= |s| && s[i] == '"' && forall k :: i < k <= i + n ==> s[k] == '#'
  }

  function RawEnd(s: string, cursor: nat, hashes: nat): Scan
    decreases |s| - cursor
  {
    match Find(s, '"', cursor)
    case None => Incomplete
    case Some(quote) => if Closes(s, quote, hashes) then End(quote + 1 + hashes) else RawEnd(s, quote + 1, hashes)
  }

  function PlainEnd(s: string, cursor: nat): Scan
    decreases |s| - cursor
  {
    if cursor >= |s| then Incomplete
    else if s[cursor] == '\\' then if cursor + 1 >= |s| then Incomplete else PlainEnd(s, cursor + 2)
    else if s[cursor] == '"' then End(cursor + 1)
    else PlainEnd(s, cursor + 1)
  }

  function StringLiteralEnd(cls: Classes, s: string, start: nat): Scan {
    match OpeningAt(cls, s, start)
    case NoOpening => Absent
    case Plain(quote) => PlainEnd(s, quote + 1)
    case Raw(quote, hashes) => RawEnd(s, quote + 1, hashes)
  }

  /** Characters that are neither quote nor backslash, and backslashes each with its companion. */
  predicate PlainBody(b: string)
    decreases |b|
  {
    || b == []
    || (b[0] != '\\' && b[0] != '"' && PlainBody(b[1..]))
    || (b[0] == '\\' && |b| >= 2 && PlainBody(b[2..]))
  }

  /** An ordinary string with its quote at `quote` ends at `b`. */
  predicate PlainCloses(s: string, quote: nat, b: nat) {
    quote + 2 <= b <= |s| && s[b - 1] == '"' && PlainBody(s[quote + 1..b - 1])
  }

  /** A raw string with its quote at `quote` and `n` hashes ends at `b`, and no sooner. */
  predicate RawCloses(s: string, quote: nat, n: nat, b: nat) {
    && quote + 2 + n <= b <= |s|
    && Closes(s, b - 1 - n, n)
    && forall k: nat | quote < k < b - 1 - n :: !Closes(s, k, n)
  }

  /** A complete string literal, by grammar. */
  ghost predicate IsStringLiteral(cls: Classes, s: string, a: nat, b: nat) {
    || (exists quote: nat :: OpensPlain(cls, s, a, quote) && PlainCloses(s, quote, b))
    || exists quote: nat, n: nat :: OpensRaw(cls, s, a, quote, n) && RawCloses(s, quote, n, b)
  }

  lemma FenceIsExact(s: string, i: nat, n: nat)
    requires i <= |s|
    ensures RawOpening(s, i) == Raw(i + n, n) <==> Fence(s, i, n)
  {
  }

  /** The scanner sees a plain opening exactly where the grammar has one. */
  lemma PlainOpeningIsExact(cls: Classes, s: string, a: nat, quote: nat)
    ensures OpeningAt(cls, s, a) == Plain(quote) <==> OpensPlain(cls, s, a, quote)
  {
    if a < |s| {
      assert s[a..a + 1] == [s[a]];
      if a + 1 < |s| {
        assert s[a..a + 2] == [s[a], s[a + 1]];
      }
    }
  }

  /** The scanner sees a raw opening, with its hashes, exactly where the grammar has one. */
  lemma RawOpeningIsExact(cls: Classes, s: string, a: nat, quote: nat, n: nat)
    ensures OpeningAt(cls, s, a) == Raw(quote, n) <==> OpensRaw(cls, s, a, quote, n)
  {
    if a < |s| {
      assert s[a..a + 1] == [s[a]];
      FenceIsExact(s, a + 1, n);
      if a + 1 < |s| {
        assert s[a..a + 2] == [s[a], s[a + 1]];
        FenceIsExact(s, a + 2, n);
      }
    }
    hide RawOpening, Fence;
  }

  /** A string opens, plain or raw with so many hashes, exactly by the grammar. */
  lemma StringOpeningIsExact(cls: Classes, s: string, a: nat)
    ensures forall quote: nat :: OpeningAt(cls, s, a) == Plain(quote) <==> OpensPlain(cls, s, a, quote)
    ensures forall quote: nat, n: nat :: OpeningAt(cls, s, a) == Raw(quote, n) <==> OpensRaw(cls, s, a, quote, n)
    ensures OpeningAt(cls, s, a) == NoOpening <==> !StringOpens(cls, s, a)
  {
    hide OpeningAt, OpensPlain, OpensRaw;
    forall quote: nat
      ensures OpeningAt(cls, s, a) == Plain(quote) <==> OpensPlain(cls, s, a, quote)
    {
      PlainOpeningIsExact(cls, s, a, quote);
    }
    forall quote: nat, n: nat
      ensures OpeningAt(cls, s, a) == Raw(quote, n) <==> OpensRaw(cls, s, a, quote, n)
    {
      RawOpeningIsExact(cls, s, a, quote, n);
    }
  }

  lemma {:induction false} PlainEndIsExact(s: string, c: nat, e: nat)
    ensures PlainEnd(s, c) == End(e) <==> c < e <= |s| && s[e - 1] == '"' && PlainBody(s[c..e - 1])
    decreases |s| - c
  {
    if c < |s| && s[c] == '\\' {
      PlainEndIsExact(s, c + 2, e);
      if c + 2 < e <= |s| {
        assert s[c..e - 1][2..] == s[c + 2..e - 1];
      }
    } else if c < |s| && s[c] != '"' {
      PlainEndIsExact(s, c + 1, e);
      if c + 1 < e <= |s| {
        assert s[c..e - 1][1..] == s[c + 1..e - 1];
      }
    }
  }

  lemma {:induction false} RawEndIsExact(s: string, c: nat, n: nat, e: nat)
    ensures RawEnd(s, c, n) == End(e) <==>
      && c + 1 + n <= e <= |s|
      && Closes(s, e - 1 - n, n)
      && forall k: nat | c <= k < e - 1 - n :: !Closes(s, k, n)
    decreases |s| - c
  {
    var q := Find(s, '"', c);
    if q.Some? && !Closes(s, q.value, n) {
      RawEndIsExact(s, q.value + 1, n, e);
    }
  }

  lemma {:induction false} NeverAbsent(s: string, c: nat, n: nat)
    ensures !PlainEnd(s, c).Absent? && !RawEnd(s, c, n).Absent?
    decreases |s| - c
  {
    if c < |s| {
      NeverAbsent(s, c + 1, n);
      NeverAbsent(s, c + 2, n);
      var q := Find(s, '"', c);
      if q.Some? {
        NeverAbsent(s, q.value + 1, n);
      }
    }
  }

  /**
   * The scanner ends at `b` exactly where the grammar's literal ends; it answers "incomplete"
   * exactly when a string opens that no `b` completes, and "absent" exactly when none opens.
   */
  lemma StringLiteralIsExact(cls: Classes, s: string, a: nat)
    ensures forall b: nat :: StringLiteralEnd(cls, s, a) == End(b) <==> IsStringLiteral(cls, s, a, b)
    ensures StringLiteralEnd(cls, s, a) == Incomplete <==>
      StringOpens(cls, s, a) && forall b: nat :: !IsStringLiteral(cls, s, a, b)
    ensures StringLiteralEnd(cls, s, a) == Absent <==> !StringOpens(cls, s, a)
  {
    StringOpeningIsExact(cls, s, a);
    hide IsStringLiteral, StringOpens, OpensPlain, OpensRaw, OpeningAt, PlainEnd, RawEnd;
    var o, r := OpeningAt(cls, s, a), StringLiteralEnd(cls, s, a);
    if !o.NoOpening? {
      NeverAbsent(s, o.quote + 1, if o.Raw? then o.hashes else 0);
    }
    forall b: nat
      ensures r == End(b) <==> IsStringLiteral(cls, s, a, b)
    {
      StringEndIsExact(cls, s, a, b);
    }
    assert r.End? ==> IsStringLiteral(cls, s, a, r.at);
  }

  lemma StringEndIsExact(cls: Classes, s: string, a: nat, b: nat)
    ensures StringLiteralEnd(cls, s, a) == End(b) <==> IsStringLiteral(cls, s, a, b)
  {
    hide OpeningAt, OpensPlain, OpensRaw, StringOpens, PlainEnd, RawEnd, PlainBody, Closes;
    StringOpeningIsExact(cls, s, a);
    var o := OpeningAt(cls, s, a);
    if o.Plain? {
      PlainEndIsExact(s, o.quote + 1, b);
    } else if o.Raw? {
      RawEndIsExact(s, o.quote + 1, o.hashes, b);
    }
  }

  method CountHashes(s: string, first: nat) returns (hashes: nat)
    requires first <= |s|
    ensures hashes == Hashes(s, first)
  {
    hashes := 0;
    while first + hashes < |s| && s[first + hashes] == '#'
      invariant first + hashes <= |s| && Hashes(s, first) == hashes + Hashes(s, first + hashes)
    {
      hashes := hashes + 1;
    }
  }

  method FindClosing(s: string, start: nat, hashes: nat) returns (r: Scan)
    requires start <= |s|
    ensures r == RawEnd(s, start, hashes)
  {
    hide Closes;
    var cursor := start;
    while true
      invariant start <= cursor <= |s| && RawEnd(s, cursor, hashes) == RawEnd(s, start, hashes)
      decreases |s| - cursor
    {
      var end := Find(s, '"', cursor);
      if end.None? {
        return Incomplete;
      }
      if Closes(s, end.value, hashes) {
        return End(end.value + 1 + hashes);
      }
      cursor := end.value + 1;
    }
  }

  method FindRawEnd(s: string, first: nat) returns (r: Scan)
    requires first <= |s|
    ensures var o := RawOpening(s, first);
      r == if o.Raw? then RawEnd(s, o.quote + 1, o.hashes) else Absent
  {
    var hashes := CountHashes(s, first);
    var quote := first + hashes;
    if quote >= |s| || s[quote] != '"' {
      return Absent;
    }
    r := FindClosing(s, quote + 1, hashes);
  }

  method FindPlainEnd(s: string, quote: nat) returns (r: Scan)
    ensures r == PlainEnd(s, quote + 1)
  {
    var cursor := quote + 1;
    while cursor < |s|
      invariant PlainEnd(s, cursor) == PlainEnd(s, quote + 1)
    {
      if s[cursor] == '\\' {
        if cursor + 1 >= |s| {
          return Incomplete;
        }
        cursor := cursor + 2;
      } else if s[cursor] == '"' {
        return End(cursor + 1);
      } else {
        cursor := cursor + 1;
      }
    }
    return Incomplete;
  }

  /** The end of a string literal, found by the loops of the source. */
  method FindStringLiteralEnd(cls: Classes, s: string, start: nat) returns (r: Scan)
    ensures r == StringLiteralEnd(cls, s, start)
  {
    if start >= |s| {
      return Absent;
    }
    var quote := start;
    if s[start] == '"' {
    } else if s[start] in "brc" {
      if AfterWord(cls, s, start) {
        return Absent;
      }
      var marker, raw := s[start], false;
      quote := start + 1;
      if marker == 'b' && quote < |s| && s[quote] == 'r' {
        raw := true;
        quote := quote + 1;
      } else if marker == 'r' {
        raw := true;
      } else if !(quote < |s| && s[quote] == '"') {
        return Absent;
      }
      if raw {
        r := FindRawEnd(s, quote);
        return;
      }
    } else {
      return Absent;
    }
    r := FindPlainEnd(s, quote);
  }

  // ---------------------------------------------------------------- trivia

  /** After the first line feed or carriage return at or after `from`, or the end of the text. */
  function LineEnd(s: string, from: nat): (r: nat)
    ensures from < r <= |s| || r == |s|
    ensures forall k :: from <= k < r - 1 ==> s[k] != '\n' && s[k] != '\r'
    ensures r < |s| ==> s[r - 1] == '\n' || s[r - 1] == '\r'
  {
    match (Find(s, '\n', from), Find(s, '\r', from))
    case (None, None) => |s|
    case (Some(n), None) => n + 1
    case (None, Some(n)) => n + 1
    case (Some(n), Some(m)) => (if n <= m then n else m) + 1
  }

  /** Where the scan closes the last of `depth` comments, if it does. */
  function BlockClose(s: string, c: nat, depth: nat): (r: Option<nat>)
    ensures r.Some? && c <= |s| ==> c <= r.value <= |s|
    decreases |s| - c
  {
    if depth == 0 then Some(c)
    else if c >= |s| then None
    else if Pair(s, c, '/', '*') then BlockClose(s, c + 2, depth + 1)
    else if Pair(s, c, '*', '/') then BlockClose(s, c + 2, depth - 1)
    else BlockClose(s, c + 1, depth)
  }

  /** Where the block comment whose `depth` openings are still open at `c` ends. */
  function BlockEnd(s: string, c: nat, depth: nat): (r: nat)
    requires c <= |s|
    ensures c <= r <= |s|
  {
    var close := BlockClose(s, c, depth);
    if close.Some? then close.value else |s|
  }

  /** The end of whitespace and comments from `c`. */
  function SkipTrivia(cls: Classes, s: string, c: nat): (r: nat)
    requires c <= |s|
    ensures c <= r <= |s|
    ensures r < |s| ==> !cls.space(s[r]) && !Pair(s, r, '/', '/') && !Pair(s, r, '/', '*')
    ensures c < |s| && (cls.space(s[c]) || Pair(s, c, '/', '/') || Pair(s, c, '/', '*')) ==> c < r
    decreases |s| - c
  {
    if c >= |s| then c
    else if cls.space(s[c]) then SkipTrivia(cls, s, c + 1)
    else if Pair(s, c, '/', '/') then SkipTrivia(cls, s, LineEnd(s, c + 2))
    else if Pair(s, c, '/', '*') then SkipTrivia(cls, s, BlockEnd(s, c + 2, 1))
    else c
  }

  method FindBlockEnd(s: string, start: nat) returns (cursor: nat)
    requires start <= |s|
    ensures cursor == BlockEnd(s, start, 1)
  {
    var depth := 1;
    cursor := start;
    while cursor < |s| && depth != 0
      invariant cursor <= |s| && BlockEnd(s, cursor, depth) == BlockEnd(s, start, 1)
      decreases |s| - cursor
    {
      if Pair(s, cursor, '/', '*') {
        depth := depth + 1;
        cursor := cursor + 2;
      } else if Pair(s, cursor, '*', '/') {
        depth := depth - 1;
        cursor := cursor + 2;
      } else {
        cursor := cursor + 1;
      }
    }
  }

  method FindTriviaEnd(cls: Classes, s: string, start: nat) returns (cursor: nat)
    requires start <= |s|
    ensures cursor == SkipTrivia(cls, s, start)
  {
    cursor := start;
    while cursor < |s|
      invariant cursor <= |s| && SkipTrivia(cls, s, cursor) == SkipTrivia(cls, s, start)
      decreases |s| - cursor
    {
      if cls.space(s[cursor]) {
        cursor := cursor + 1;
      } else if Pair(s, cursor, '/', '/') {
        cursor := LineEnd(s, cursor + 2);
      } else if Pair(s, cursor, '/', '*') {
        cursor := FindBlockEnd(s, cursor + 2);
      } else {
        break;
      }
    }
  }

  // ---------------------------------------------------------------- trivia by grammar

  predicate LineBreak(c: char) {
    c == '\n' || c == '\r'
  }

  /** The rest of a line: up to and with the first line break, or all there is without one. */
  predicate IsRestOfLine(s: string, a: nat, b: nat) {
    && a <= b <= |s|
    && (forall k :: a <= k < b - 1 ==> !LineBreak(s[k]))
    && if a < b && LineBreak(s[b - 1]) then true else b == |s|
  }

  lemma LineEndIsExact(s: string, a: nat, b: nat)
    requires a <= |s|
    ensures IsRestOfLine(s, a, b) <==> b == LineEnd(s, a)
  {
    var r := LineEnd(s, a);
    assert IsRestOfLine(s, a, r);
  }

  predicate Marker(s: string, i: nat) {
    Pair(s, i, '/', '*') || Pair(s, i, '*', '/')
  }

  /** A block comment: its opening, a body, its closing. */
  ghost predicate Comment(s: string, a: nat, b: nat)
    decreases b - a, 0
  {
    a + 4 <= b <= |s| && Pair(s, a, '/', '*') && Pair(s, b - 2, '*', '/') && Body(s, a + 2, b - 2)
  }

  /** The body of a block comment: whole block comments, and characters that start no marker. */
  ghost predicate Body(s: string, a: nat, b: nat)
    decreases b - a, 1
  {
    || a == b
    || (a < b && !Marker(s, a) && Body(s, a + 1, b))
    || (exists m | a < m <= b :: Comment(s, a, m) && Body(s, m, b))
  }

  /** A block comment, or one that is opened and that nothing closes. */
  ghost predicate IsBlockComment(s: string, a: nat, b: nat) {
    || Comment(s, a, b)
    || (Pair(s, a, '/', '*') && b == |s| && forall m: nat :: !Comment(s, a, m))
  }

  /** Bodies that close `depth` comments one after the other. */
  ghost predicate Nest(s: string, a: nat, b: nat, depth: nat)
    decreases depth
  {
    if depth == 0 then a == b else exists e: nat :: Level(s, a, e, b, depth)
  }

  ghost predicate Level(s: string, a: nat, e: nat, b: nat, depth: nat)
    requires depth > 0
    decreases depth, 0
  {
    a <= e && e + 2 <= b && Body(s, a, e) && Pair(s, e, '*', '/') && Nest(s, e + 2, b, depth - 1)
  }

  lemma BodyAfterComment(s: string, a: nat, m: nat, e: nat)
    requires Comment(s, a, m) && m <= e && Body(s, m, e)
    ensures Body(s, a, e)
  {
  }

  /** What the scan closes is nested as the grammar says. */
  lemma {:induction false} ClosedIsNested(s: string, c: nat, depth: nat)
    requires BlockClose(s, c, depth).Some?
    ensures Nest(s, c, BlockClose(s, c, depth).value, depth)
    decreases |s| - c
  {
    hide Body, Comment;
    if depth > 0 {
      var b := BlockClose(s, c, depth).value;
      if Pair(s, c, '/', '*') {
        ClosedIsNested(s, c + 2, depth + 1);
        NestOpens(s, c, b, depth);
      } else if Pair(s, c, '*', '/') {
        ClosedIsNested(s, c + 2, depth - 1);
        NestCloses(s, c, b, depth);
      } else {
        ClosedIsNested(s, c + 1, depth);
        NestSteps(s, c, b, depth);
      }
    }
  }

  lemma NestOpens(s: string, c: nat, b: nat, depth: nat)
    requires depth > 0 && Pair(s, c, '/', '*') && Nest(s, c + 2, b, depth + 1)
    ensures Nest(s, c, b, depth)
  {
    hide Body;
    var e: nat :| Level(s, c + 2, e, b, depth + 1);
    assert Comment(s, c, e + 2);
    assert Nest(s, e + 2, b, depth);
    var f: nat :| Level(s, e + 2, f, b, depth);
    BodyAfterComment(s, c, e + 2, f);
    assert Level(s, c, f, b, depth);
  }

  lemma NestCloses(s: string, c: nat, b: nat, depth: nat)
    requires depth > 0 && Pair(s, c, '*', '/') && Nest(s, c + 2, b, depth - 1)
    ensures Nest(s, c, b, depth)
  {
    NestReaches(s, c + 2, b, depth - 1);
    assert Body(s, c, c);
    assert Level(s, c, c, b, depth);
  }

  lemma NestReaches(s: string, a: nat, b: nat, depth: nat)
    requires Nest(s, a, b, depth)
    ensures a <= b
  {
  }

  lemma NestSteps(s: string, c: nat, b: nat, depth: nat)
    requires depth > 0 && !Marker(s, c) && Nest(s, c + 1, b, depth)
    ensures Nest(s, c, b, depth)
  {
    var e: nat :| Level(s, c + 1, e, b, depth);
    assert Level(s, c, e, b, depth);
  }

  /** What the grammar nests is what the scan closes. */
  lemma {:induction false} NestedIsClosed(s: string, c: nat, b: nat, depth: nat)
    requires Nest(s, c, b, depth)
    ensures BlockClose(s, c, depth) == Some(b)
    decreases |s| - c
  {
    if depth > 0 {
      var e: nat :| Level(s, c, e, b, depth);
      LevelStep(s, c, e, b, depth);
      hide Nest, Level, Body, Comment;
      if Pair(s, c, '/', '*') {
        NestedIsClosed(s, c + 2, b, depth + 1);
      } else if Pair(s, c, '*', '/') {
        NestedIsClosed(s, c + 2, b, depth - 1);
      } else {
        NestedIsClosed(s, c + 1, b, depth);
      }
    }
  }

  lemma LevelStep(s: string, c: nat, e: nat, b: nat, depth: nat)
    requires depth > 0 && Level(s, c, e, b, depth)
    ensures c < |s|
    ensures Pair(s, c, '/', '*') ==> Nest(s, c + 2, b, depth + 1)
    ensures Pair(s, c, '*', '/') ==> Nest(s, c + 2, b, depth - 1)
    ensures !Marker(s, c) ==> Nest(s, c + 1, b, depth)
  {
    if c < e && Marker(s, c) {
      CommentFirst(s, c, e);
      var m: nat :| c < m <= e && Comment(s, c, m) && Body(s, m, e);
      assert Level(s, m, e, b, depth);
      assert Level(s, c + 2, m - 2, b, depth + 1);
    } else if c < e {
      assert Level(s, c + 1, e, b, depth) by { PlainFirst(s, c, e); }
    }
  }

  lemma CommentFirst(s: string, c: nat, e: nat)
    requires c < e && Body(s, c, e) && Marker(s, c)
    ensures exists m: nat | c < m <= e :: Comment(s, c, m) && Body(s, m, e)
  {
  }

  lemma PlainFirst(s: string, c: nat, e: nat)
    requires c < e && Body(s, c, e) && !Marker(s, c)
    ensures Body(s, c + 1, e)
  {
  }

  /** The scan ends a block comment exactly where the grammar does. */
  lemma BlockEndIsExact(s: string, a: nat, b: nat)
    requires Pair(s, a, '/', '*')
    ensures IsBlockComment(s, a, b) <==> b == BlockEnd(s, a + 2, 1)
  {
    forall m: nat
      ensures Comment(s, a, m) <==> BlockClose(s, a + 2, 1) == Some(m)
    {
      CommentIsClosed(s, a, m);
    }
    hide Comment, BlockClose;
    var r := BlockClose(s, a + 2, 1);
    assert r.Some? ==> Comment(s, a, r.value);
  }

  lemma CommentIsClosed(s: string, a: nat, m: nat)
    requires Pair(s, a, '/', '*')
    ensures Comment(s, a, m) <==> BlockClose(s, a + 2, 1) == Some(m)
  {
    hide Body;
    if Comment(s, a, m) {
      assert Level(s, a + 2, m - 2, m, 1);
      NestedIsClosed(s, a + 2, m, 1);
    }
    if BlockClose(s, a + 2, 1) == Some(m) {
      ClosedIsNested(s, a + 2, 1);
      var e: nat :| Level(s, a + 2, e, m, 1);
    }
  }

  /** Whitespace or a comment starts at `i`. */
  predicate TriviaStarts(cls: Classes, s: string, i: nat) {
    i < |s| && (cls.space(s[i]) || Pair(s, i, '/', '/') || Pair(s, i, '/', '*'))
  }

  /** One whitespace character or one whole comment. */
  ghost predicate IsTriviaItem(cls: Classes, s: string, a: nat, b: nat) {
    && a < |s|
    && if cls.space(s[a]) then b == a + 1
       else (Pair(s, a, '/', '/') && IsRestOfLine(s, a + 2, b)) || IsBlockComment(s, a, b)
  }

  /** Whitespace and comments tile the text from `a` to `b`. */
  ghost predicate IsTrivia(cls: Classes, s: string, a: nat, b: nat)
    decreases b - a
  {
    a == b || exists m | a < m <= b :: IsTriviaItem(cls, s, a, m) && IsTrivia(cls, s, m, b)
  }

  /** As much trivia as there is. */
  ghost predicate IsTriviaRun(cls: Classes, s: string, a: nat, b: nat) {
    b <= |s| && IsTrivia(cls, s, a, b) && !TriviaStarts(cls, s, b)
  }

  /** The step of the trivia scanner. */
  function TriviaItemEnd(cls: Classes, s: string, c: nat): (r: nat)
    requires TriviaStarts(cls, s, c)
    ensures c < r <= |s|
  {
    if cls.space(s[c]) then c + 1
    else if Pair(s, c, '/', '/') then LineEnd(s, c + 2)
    else BlockEnd(s, c + 2, 1)
  }

  lemma TriviaItemIsExact(cls: Classes, s: string, a: nat, b: nat)
    ensures IsTriviaItem(cls, s, a, b) <==> TriviaStarts(cls, s, a) && b == TriviaItemEnd(cls, s, a)
  {
    hide IsBlockComment, IsRestOfLine, LineEnd, BlockEnd;
    if Pair(s, a, '/', '/') {
      LineEndIsExact(s, a + 2, b);
      NoBlockComment(s, a, b);
    } else if Pair(s, a, '/', '*') {
      BlockEndIsExact(s, a, b);
    } else {
      NoBlockComment(s, a, b);
    }
  }

  lemma NoBlockComment(s: string, a: nat, b: nat)
    requires !Pair(s, a, '/', '*')
    ensures !IsBlockComment(s, a, b)
  {
    hide Body;
  }

  /** The trivia scanner skips exactly the longest tiling by whitespace and comments. */
  lemma {:induction false} SkipTriviaIsExact(cls: Classes, s: string, a: nat, b: nat)
    requires a <= |s|
    ensures IsTriviaRun(cls, s, a, b) <==> b == SkipTrivia(cls, s, a)
    decreases |s| - a
  {
    if TriviaStarts(cls, s, a) {
      var m := TriviaItemEnd(cls, s, a);
      SkipTriviaIsExact(cls, s, m, b);
      forall k: nat
        ensures IsTriviaItem(cls, s, a, k) <==> k == m
      {
        TriviaItemIsExact(cls, s, a, k);
      }
    } else {
      forall k: nat
        ensures !IsTriviaItem(cls, s, a, k)
      {
        TriviaItemIsExact(cls, s, a, k);
      }
    }
  }

  // ---------------------------------------------------------------- attributes

  /** The end of the comment or literal that starts at `c`, where brackets do not count. */
  function SkipInAttribute(cls: Classes, s: string, c: nat): (r: Scan)
    requires c < |s|
  {
    if Pair(s, c, '/', '/') then
      End(LineEnd(s, c + 2))
    else if Pair(s, c, '/', '*') then
      End(SkipTrivia(cls, s, c))
    else if s[c] == '\'' && CharacterLiteralEnd(s, c).Some? then
      End(CharacterLiteralEnd(s, c).value)
    else
      StringLiteralEnd(cls, s, c)
  }

  lemma SkipAdvances(cls: Classes, s: string, c: nat)
    requires c < |s|
    ensures var r := SkipInAttribute(cls, s, c); r.End? ==> c < r.at <= |s|
  {
    LiteralsAdvance(cls, s, c);
  }

  lemma LiteralsAdvance(cls: Classes, s: string, c: nat)
    requires c < |s|
    ensures var r := StringLiteralEnd(cls, s, c); r.End? ==> c < r.at <= |s|
    ensures var r := CharacterLiteralEnd(s, c); r.Some? ==> c < r.value <= |s|
  {
    var r := StringLiteralEnd(cls, s, c);
    StringLiteralIsExact(cls, s, c);
    var r' := CharacterLiteralEnd(s, c);
    if r'.Some? {
      CharacterLiteralIsExact(s, c, r'.value);
    }
    assert r.End? ==> IsStringLiteral(cls, s, c, r.at);
  }

  /** The bracket that brings `depth` to zero. */
  function AttributeClose(cls: Classes, s: string, c: nat, depth: nat): Scan
    requires depth > 0
    decreases |s| - c
  {
    if c >= |s| then
      Incomplete
    else
      SkipAdvances(cls, s, c);
      match SkipInAttribute(cls, s, c)
      case Incomplete => Incomplete
      case End(next) => AttributeClose(cls, s, next, depth)
      case Absent =>
        if s[c] == '[' then AttributeClose(cls, s, c + 1, depth + 1)
        else if s[c] == ']' && depth == 1 then End(c + 1)
        else if s[c] == ']' then AttributeClose(cls, s, c + 1, depth - 1)
        else AttributeClose(cls, s, c + 1, depth)
  }

  /** Where the bracket of an attribute that starts at `start` opens. */
  function AttributeOpening(cls: Classes, s: string, start: nat): (r: Option<nat>)
    requires start < |s|
    ensures r.Some? ==> start < r.value < |s| && s[start] == '#' && s[r.value] == '['
  {
    if s[start] != '#' || AfterWord(cls, s, start) then
      None
    else
      var first := SkipTrivia(cls, s, start + 1);
      var open := if first < |s| && s[first] == '!' then SkipTrivia(cls, s, first + 1) else first;
      if open < |s| && s[open] == '[' then Some(open) else None
  }

  function AttributeEnd(cls: Classes, s: string, start: nat): Scan
    requires start < |s|
  {
    match AttributeOpening(cls, s, start)
    case None => Absent
    case Some(open) => AttributeClose(cls, s, open + 1, 1)
  }

  method FindAttributeEnd(cls: Classes, s: string, start: nat) returns (r: Scan)
    requires start < |s|
    ensures r == AttributeEnd(cls, s, start)
  {
    hide AttributeClose, SkipTrivia;
    if s[start] != '#' || AfterWord(cls, s, start) {
      return Absent;
    }
    var cursor := FindTriviaEnd(cls, s, start + 1);
    if cursor < |s| && s[cursor] == '!' {
      cursor := FindTriviaEnd(cls, s, cursor + 1);
    }
    if cursor >= |s| || s[cursor] != '[' {
      return Absent;
    }
    r := FindAttributeClose(cls, s, cursor + 1);
  }

  method FindAttributeClose(cls: Classes, s: string, start: nat) returns (r: Scan)
    ensures r == AttributeClose(cls, s, start, 1)
  {
    hide SkipTrivia, StringLiteralEnd, CharacterLiteralEnd, LineEnd;
    var cursor, depth := start, 1;
    while cursor < |s|
      invariant depth > 0 && AttributeClose(cls, s, cursor, depth) == AttributeClose(cls, s, start, 1)
      decreases |s| - cursor
    {
      SkipAdvances(cls, s, cursor);
      if Pair(s, cursor, '/', '/') {
        cursor := LineEnd(s, cursor + 2);
        continue;
      }
      if Pair(s, cursor, '/', '*') {
        cursor := FindTriviaEnd(cls, s, cursor);
        continue;
      }
      if s[cursor] == '\'' {
        var end := CharacterLiteralEnd(s, cursor);
        if end.Some? {
          cursor := end.value;
          continue;
        }
      }
      var end := FindStringLiteralEnd(cls, s, cursor);
      if end == Incomplete {
        return Incomplete;
      }
      if end.End? {
        cursor := end.at;
        continue;
      }
      if s[cursor] == '[' {
        depth := depth + 1;
      } else if s[cursor] == ']' {
        depth := depth - 1;
        if depth == 0 {
          return End(cursor + 1);
        }
      }
      cursor := cursor + 1;
    }
    return Incomplete;
  }

  // ---------------------------------------------------------------- attributes by grammar

  /** A comment or literal starts at `a`, so brackets do not count there. */
  ghost predicate InnerStarts(cls: Classes, s: string, a: nat) {
    || Pair(s, a, '/', '/') || Pair(s, a, '/', '*')
    || (exists m: nat :: IsCharacterLiteral(s, a, m))
    || StringOpens(cls, s, a)
  }

  /** A comment, with the trivia after a block comment, or a complete literal. */
  ghost predicate IsInner(cls: Classes, s: string, a: nat, b: nat) {
    if Pair(s, a, '/', '/') then IsRestOfLine(s, a + 2, b)
    else if Pair(s, a, '/', '*') then IsTriviaRun(cls, s, a, b)
    else if exists m: nat :: IsCharacterLiteral(s, a, m) then IsCharacterLiteral(s, a, b)
    else IsStringLiteral(cls, s, a, b)
  }

  /** What opening and closing brackets do to the nesting depth. */
  function Weight(c: char): int {
    if c == '[' then 1 else if c == ']' then -1 else 0
  }

  /** From `c` to `b` the text is made of comments, literals and other characters, and the
      brackets among the latter close `depth` openings with the last one and not before. */
  ghost predicate Balanced(cls: Classes, s: string, c: nat, b: nat, depth: int)
    decreases |s| - c
  {
    && c < |s|
    && if InnerStarts(cls, s, c)
       then exists m: nat | c < m :: IsInner(cls, s, c, m) && Balanced(cls, s, m, b, depth)
       else var d := depth + Weight(s[c]); if d == 0 then b == c + 1 else Balanced(cls, s, c + 1, b, d)
  }

  /** The scanner's step over a comment or literal, exactly. */
  lemma InnerIsExact(cls: Classes, s: string, c: nat)
    requires c < |s|
    ensures forall m: nat :: SkipInAttribute(cls, s, c) == End(m) <==> IsInner(cls, s, c, m)
    ensures SkipInAttribute(cls, s, c) == Absent <==> !InnerStarts(cls, s, c)
  {
    var l := CharacterLiteralEnd(s, c);
    forall m: nat
      ensures l == Some(m) <==> IsCharacterLiteral(s, c, m)
    {
      CharacterLiteralIsExact(s, c, m);
    }
    StringLiteralIsExact(cls, s, c);
    hide IsStringLiteral, StringOpens, StringLiteralEnd, IsTriviaRun, IsRestOfLine, LineEnd, SkipTrivia;
    assert l.Some? ==> IsCharacterLiteral(s, c, l.value);
    assert (exists m: nat :: IsCharacterLiteral(s, c, m)) <==> l.Some?;
    hide CharacterLiteralEnd, IsCharacterLiteral;
    forall m: nat
      ensures SkipInAttribute(cls, s, c) == End(m) <==> IsInner(cls, s, c, m)
    {
      if Pair(s, c, '/', '/') {
        LineEndIsExact(s, c + 2, m);
      } else if Pair(s, c, '/', '*') {
        SkipTriviaIsExact(cls, s, c, m);
      }
    }
  }

  lemma BalancedOverInner(cls: Classes, s: string, c: nat, next: nat, b: nat, depth: int)
    requires c < next && c < |s| && InnerStarts(cls, s, c) && forall m: nat :: IsInner(cls, s, c, m) <==> m == next
    ensures Balanced(cls, s, c, b, depth) <==> Balanced(cls, s, next, b, depth)
  {
    hide InnerStarts, IsInner;
    assert IsInner(cls, s, c, next);
  }

  lemma BalancedNowhere(cls: Classes, s: string, c: nat, b: nat, depth: int)
    requires c >= |s| || (InnerStarts(cls, s, c) && forall m: nat :: !IsInner(cls, s, c, m))
    ensures !Balanced(cls, s, c, b, depth)
  {
    hide InnerStarts, IsInner;
  }

  lemma BalancedOverCharacter(cls: Classes, s: string, c: nat, b: nat, depth: int)
    requires c < |s| && !InnerStarts(cls, s, c)
    ensures var d := depth + Weight(s[c]);
      Balanced(cls, s, c, b, depth) <==> if d == 0 then b == c + 1 else Balanced(cls, s, c + 1, b, d)
  {
    hide InnerStarts, IsInner;
  }

  /** An attribute ends at `b` exactly when the grammar balances there; else it is incomplete. */
  lemma {:induction false} AttributeCloseIsExact(cls: Classes, s: string, c: nat, depth: nat, b: nat)
    requires depth > 0
    ensures AttributeClose(cls, s, c, depth) == End(b) <==> Balanced(cls, s, c, b, depth)
    ensures !AttributeClose(cls, s, c, depth).Absent?
    decreases |s| - c
  {
    hide Balanced, SkipInAttribute, IsInner, InnerStarts;
    if c >= |s| {
      BalancedNowhere(cls, s, c, b, depth);
    } else {
      InnerIsExact(cls, s, c);
      SkipAdvances(cls, s, c);
      match SkipInAttribute(cls, s, c)
      case Incomplete => BalancedNowhere(cls, s, c, b, depth);
      case End(next) =>
        AttributeCloseIsExact(cls, s, next, depth, b);
        BalancedOverInner(cls, s, c, next, b, depth);
      case Absent =>
        var d := depth + Weight(s[c]);
        BalancedOverCharacter(cls, s, c, b, depth);
        if d > 0 {
          AttributeCloseIsExact(cls, s, c + 1, d, b);
        }
    }
  }

  /** `#`, not after a word, then `[` after any trivia, or `!` and `[` with trivia around. */
  ghost predicate OpensAttribute(cls: Classes, s: string, a: nat, open: nat) {
    && a < |s| && s[a] == '#' && Standalone(cls, s, a)
    && open < |s| && s[open] == '['
    && LeadsTo(cls, s, a + 1, open)
  }

  /** From `from`, trivia and at most one `!` lead to `open`. */
  ghost predicate LeadsTo(cls: Classes, s: string, from: nat, open: nat) {
    exists first: nat :: IsTriviaRun(cls, s, from, first) && AfterBang(cls, s, first, open)
  }

  ghost predicate AfterBang(cls: Classes, s: string, first: nat, open: nat) {
    if first < |s| && s[first] == '!' then IsTriviaRun(cls, s, first + 1, open) else open == first
  }

  lemma LeadIsExact(cls: Classes, s: string, from: nat, open: nat)
    requires from <= |s|
    ensures var first := SkipTrivia(cls, s, from);
      LeadsTo(cls, s, from, open) <==>
        open == if first < |s| && s[first] == '!' then SkipTrivia(cls, s, first + 1) else first
  {
    hide SkipTrivia, IsTriviaRun;
    var first := SkipTrivia(cls, s, from);
    forall k: nat
      ensures IsTriviaRun(cls, s, from, k) <==> k == first
    {
      SkipTriviaIsExact(cls, s, from, k);
    }
    if first < |s| {
      SkipTriviaIsExact(cls, s, first + 1, open);
    }
    assert IsTriviaRun(cls, s, from, first);
  }

  lemma OpeningIsExact(cls: Classes, s: string, a: nat, open: nat)
    requires a < |s|
    ensures AttributeOpening(cls, s, a) == Some(open) <==> OpensAttribute(cls, s, a, open)
  {
    hide SkipTrivia, LeadsTo;
    LeadIsExact(cls, s, a + 1, open);
  }

  // ---------------------------------------------------------------- the mask

  /** A complete attribute, by grammar. */
  ghost predicate IsAttribute(cls: Classes, s: string, a: nat, b: nat) {
    exists open: nat :: OpensAttribute(cls, s, a, open) && Balanced(cls, s, open + 1, b, 1)
  }

  datatype Kind = AttributeToken | CommentToken | CharacterToken | StringToken | OtherToken

  datatype Token = Token(kind: Kind, from: nat, to: nat)

  /** What the masking loop finds where it stands; nothing where it gives up. */
  function TokenAt(cls: Classes, s: string, c: nat): Option<Token>
    requires c < |s|
  {
    if s[c] == '#' && AttributeEnd(cls, s, c) == Incomplete then
      None
    else if s[c] == '#' && AttributeEnd(cls, s, c).End? then
      Some(Token(AttributeToken, c, AttributeEnd(cls, s, c).at))
    else if Pair(s, c, '/', '/') then
      var newline := Find(s, '\n', c + 2);
      Some(Token(CommentToken, c, if newline.None? then |s| else newline.value))
    else if Pair(s, c, '/', '*') then
      Some(Token(CommentToken, c, BlockEnd(s, c + 2, 1)))
    else if s[c] == '\'' && CharacterLiteralEnd(s, c).Some? then
      Some(Token(CharacterToken, c, CharacterLiteralEnd(s, c).value))
    else
      match StringLiteralEnd(cls, s, c)
      case Incomplete => None
      case End(e) => Some(Token(StringToken, c, e))
      case Absent => Some(Token(OtherToken, c, c + 1))
  }

  /** What a token of each kind is, by grammar. */
  ghost predicate IsToken(cls: Classes, s: string, t: Token) {
    && t.from < t.to <= |s|
    && match t.kind
       case StringToken => IsStringLiteral(cls, s, t.from, t.to)
       case CharacterToken => IsCharacterLiteral(s, t.from, t.to)
       case AttributeToken => IsAttribute(cls, s, t.from, t.to)
       case CommentToken =>
         || (Pair(s, t.from, '/', '/') && (t.to == |s| || s[t.to] == '\n')
              && forall k :: t.from + 2 <= k < t.to ==> s[k] != '\n')
         || IsBlockComment(s, t.from, t.to)
       case OtherToken => t.to == t.from + 1
  }

  /** An attribute or a string literal opens at `c` and nothing completes it. */
  ghost predicate Unfinished(cls: Classes, s: string, c: nat)
    requires c < |s|
  {
    || ((exists open: nat :: OpensAttribute(cls, s, c, open)) && forall b: nat :: !IsAttribute(cls, s, c, b))
    || (StringOpens(cls, s, c) && forall b: nat :: !IsStringLiteral(cls, s, c, b))
  }

  /** The attribute scanner: both answers, and the end, by grammar. */
  lemma AttributeIsExact(cls: Classes, s: string, a: nat)
    requires a < |s|
    ensures forall b: nat :: AttributeEnd(cls, s, a) == End(b) <==> IsAttribute(cls, s, a, b)
    ensures AttributeEnd(cls, s, a) == Incomplete <==>
      (exists open: nat :: OpensAttribute(cls, s, a, open)) && forall b: nat :: !IsAttribute(cls, s, a, b)
    ensures AttributeEnd(cls, s, a) == Absent <==> forall open: nat :: !OpensAttribute(cls, s, a, open)
  {
    hide AttributeOpening, AttributeClose, Balanced, OpensAttribute;
    var open, e := AttributeOpening(cls, s, a), AttributeEnd(cls, s, a);
    forall k: nat
      ensures open == Some(k) <==> OpensAttribute(cls, s, a, k)
    {
      OpeningIsExact(cls, s, a, k);
    }
    if open.Some? {
      assert OpensAttribute(cls, s, a, open.value);
      forall b: nat
        ensures e == End(b) <==> IsAttribute(cls, s, a, b)
      {
        AttributeCloseIsExact(cls, s, open.value + 1, 1, b);
      }
      assert e != Absent by { AttributeCloseIsExact(cls, s, open.value + 1, 1, 0); }
      assert e.End? ==> IsAttribute(cls, s, a, e.at);
    }
  }

  lemma AttributeAdvances(cls: Classes, s: string, a: nat)
    requires a < |s| && AttributeEnd(cls, s, a).End?
    ensures a < AttributeEnd(cls, s, a).at <= |s|
  {
    hide AttributeOpening;
    CloseAdvances(cls, s, AttributeOpening(cls, s, a).value + 1, 1);
  }

  lemma {:induction false} CloseAdvances(cls: Classes, s: string, c: nat, depth: nat)
    requires depth > 0 && AttributeClose(cls, s, c, depth).End?
    ensures c < AttributeClose(cls, s, c, depth).at <= |s|
    decreases |s| - c
  {
    hide SkipInAttribute, StringLiteralEnd, CharacterLiteralEnd, SkipTrivia, LineEnd;
    SkipAdvances(cls, s, c);
    match SkipInAttribute(cls, s, c)
    case End(next) => CloseAdvances(cls, s, next, depth);
    case Absent =>
      var d := depth + Weight(s[c]);
      if d > 0 {
        CloseAdvances(cls, s, c + 1, d);
      }
  }

  /** The loop's step is a token of the grammar, or it stands at something unfinished. */
  lemma StepIsToken(cls: Classes, s: string, c: nat)
    requires c < |s|
    ensures var t := TokenAt(cls, s, c);
      if t.Some? then t.value.from == c && IsToken(cls, s, t.value) else Unfinished(cls, s, c)
  {
    AttributeIsExact(cls, s, c);
    var a := AttributeEnd(cls, s, c);
    if a.End? {
      AttributeAdvances(cls, s, c);
    }
    if Pair(s, c, '/', '*') {
      BlockEndIsExact(s, c, BlockEnd(s, c + 2, 1));
    }
    LiteralsAdvance(cls, s, c);
    StringLiteralIsExact(cls, s, c);
    var e := StringLiteralEnd(cls, s, c);
    assert e.End? ==> IsStringLiteral(cls, s, c, e.at);
    var l := CharacterLiteralEnd(s, c);
    if l.Some? {
      CharacterLiteralIsExact(s, c, l.value);
    }
    hide AttributeEnd, StringLiteralEnd, CharacterLiteralEnd, IsStringLiteral, IsCharacterLiteral, IsAttribute,
      StringOpens, OpensAttribute, IsBlockComment, BlockEnd;
  }

  function Tokens(cls: Classes, s: string, c: nat): seq<Token>
    decreases |s| - c
  {
    if c >= |s| then
      []
    else
      StepIsToken(cls, s, c);
      match TokenAt(cls, s, c)
      case None => []
      case Some(t) => [t] + Tokens(cls, s, t.to)
  }

  /** Each token begins where the one before it ends. */
  predicate Tile(tokens: seq<Token>, a: nat, b: nat) {
    if tokens == [] then a == b
    else tokens[0].from == a && a < tokens[0].to <= b && Tile(tokens[1..], tokens[0].to, b)
  }

  /** Where the scan stops: the end of the text, or something unfinished. */
  function Stop(cls: Classes, s: string): nat {
    var tokens := Tokens(cls, s, 0);
    if tokens == [] then 0 else tokens[|tokens| - 1].to
  }

  ghost predicate InString(tokens: seq<Token>, i: int) {
    exists t | t in tokens :: t.kind == StringToken && t.from <= i < t.to
  }

  /** The text with the string tokens blanked, line feeds apart. */
  ghost function Blanked(s: string, tokens: seq<Token>): string {
    seq(|s|, i requires 0 <= i < |s| => if InString(tokens, i) && s[i] != '\n' then ' ' else s[i])
  }

  /** One more token leaves the rest of the text as it was. */
  lemma BlankedMore(s: string, tokens: seq<Token>, t: Token)
    requires t.to <= |s|
    ensures var b, b' := Blanked(s, tokens), Blanked(s, tokens + [t]);
      && (t.kind != StringToken ==> b' == b)
      && forall i :: 0 <= i < |s| ==>
           b'[i] == if t.kind == StringToken && t.from <= i < t.to && s[i] != '\n' then ' ' else b[i]
  {
    forall i | 0 <= i < |s|
      ensures InString(tokens + [t], i) <==> InString(tokens, i) || (t.kind == StringToken && t.from <= i < t.to)
    {
      assert t in tokens + [t];
    }
  }

  method BlankRange(s: string, masked: array<char>, from: nat, to: nat)
    requires from <= to <= |s| == masked.Length
    modifies masked
    ensures forall i :: 0 <= i < |s| ==>
      masked[i] == if from <= i < to && s[i] != '\n' then ' ' else old(masked[i])
  {
    for index := from to to
      invariant forall i :: 0 <= i < |s| ==>
        masked[i] == if from <= i < index && s[i] != '\n' then ' ' else old(masked[i])
    {
      if s[index] != '\n' {
        masked[index] := ' ';
      }
    }
  }

  /** The step of the masking loop: the token where it stands, if any. */
  method FindToken(cls: Classes, s: string, cursor: nat) returns (r: Option<Token>)
    requires cursor < |s|
    ensures r == TokenAt(cls, s, cursor)
  {
    hide AttributeEnd, StringLiteralEnd, CharacterLiteralEnd;
    if s[cursor] == '#' {
      var end := FindAttributeEnd(cls, s, cursor);
      if end == Incomplete {
        return None;
      }
      if end.End? {
        return Some(Token(AttributeToken, cursor, end.at));
      }
    }
    if Pair(s, cursor, '/', '/') {
      var newline := Find(s, '\n', cursor + 2);
      return Some(Token(CommentToken, cursor, if newline.None? then |s| else newline.value));
    }
    if Pair(s, cursor, '/', '*') {
      var end := FindBlockEnd(s, cursor + 2);
      return Some(Token(CommentToken, cursor, end));
    }
    if s[cursor] == '\'' {
      var end := CharacterLiteralEnd(s, cursor);
      if end.Some? {
        return Some(Token(CharacterToken, cursor, end.value));
      }
    }
    var end := FindStringLiteralEnd(cls, s, cursor);
    match end
    case Incomplete => return None;
    case End(e) => return Some(Token(StringToken, cursor, e));
    case Absent => return Some(Token(OtherToken, cursor, cursor + 1));
  }

  method MaskRustStringLiterals(cls: Classes, content: string) returns (r: string)
    ensures r == Blanked(content, Tokens(cls, content, 0))
  {
    hide TokenAt, IsToken, Unfinished, Blanked;
    var masked := new char[|content|](i requires 0 <= i < |content| => content[i]);
    var cursor := 0;
    ghost var done: seq<Token> := [];
    NothingBlanked(content);
    assert masked[..] == content;
    while cursor < |content|
      invariant cursor <= |content|
      invariant Tokens(cls, content, 0) == done + Tokens(cls, content, cursor)
      invariant masked[..] == Blanked(content, done)
      decreases |content| - cursor
    {
      var token := FindToken(cls, content, cursor);
      StepIsToken(cls, content, cursor);
      if token.None? {
        assert Tokens(cls, content, cursor) == [];
        break;
      }
      var t := token.value;
      TokenExtent(cls, content, t);
      BlankedMore(content, done, t);
      BlankedLength(content, done);
      BlankedLength(content, done + [t]);
      if t.kind == StringToken {
        BlankRange(content, masked, t.from, t.to);
        assert forall i :: 0 <= i < |content| ==> masked[..][i] == Blanked(content, done + [t])[i];
      }
      done := done + [t];
      cursor := t.to;
    }
    assert Tokens(cls, content, 0) == done;
    return masked[..];
  }

  lemma NothingBlanked(s: string)
    ensures Blanked(s, []) == s
  {
  }

  lemma BlankedLength(s: string, tokens: seq<Token>)
    ensures |Blanked(s, tokens)| == |s|
  {
  }

  lemma TokenExtent(cls: Classes, s: string, t: Token)
    requires IsToken(cls, s, t)
    ensures t.from < t.to <= |s|
  {
  }

  lemma {:induction false} TokensTileFrom(cls: Classes, s: string, c: nat)
    requires c <= |s|
    ensures var tokens := Tokens(cls, s, c);
      var stop := if tokens == [] then c else tokens[|tokens| - 1].to;
      && stop <= |s|
      && Tile(tokens, c, stop)
      && (forall t | t in tokens :: IsToken(cls, s, t))
      && (stop < |s| ==> Unfinished(cls, s, stop))
    decreases |s| - c
  {
    if c < |s| {
      StepIsToken(cls, s, c);
      hide TokenAt, Unfinished;
      var next := TokenAt(cls, s, c);
      if next.Some? {
        TokenExtent(cls, s, next.value);
        hide IsToken;
        TokensTileFrom(cls, s, next.value.to);
      }
    }
  }

  lemma {:induction false} TilesAreApart(tokens: seq<Token>, a: nat, b: nat, j: nat, k: nat)
    requires Tile(tokens, a, b) && j < k < |tokens|
    ensures a <= tokens[j].from < tokens[j].to <= tokens[k].from < tokens[k].to <= b
  {
    if j > 0 {
      TilesAreApart(tokens[1..], tokens[0].to, b, j - 1, k - 1);
    } else {
      TileWithin(tokens[1..], tokens[0].to, b, k - 1);
    }
  }

  lemma {:induction false} TileWithin(tokens: seq<Token>, a: nat, b: nat, k: nat)
    requires Tile(tokens, a, b) && k < |tokens|
    ensures a <= tokens[k].from < tokens[k].to <= b
  {
    if k > 0 {
      TileWithin(tokens[1..], tokens[0].to, b, k - 1);
    }
  }

  /**
   * The whole mask. The steps are tokens of the grammar and tile the text up to where an
   * unfinished attribute or string stops the scan. The output has the same length and
   * the same line feeds; it differs from the text only inside a complete string literal
   * at which the scan stood, in no other token, and nowhere from the stop on; and
   * every other character of such a literal is blank.
   */
  lemma MaskIsExact(cls: Classes, s: string)
    ensures var tokens, stop, r := Tokens(cls, s, 0), Stop(cls, s), Blanked(s, Tokens(cls, s, 0));
      && Tile(tokens, 0, stop) && stop <= |s|
      && (forall t | t in tokens :: IsToken(cls, s, t))
      && (stop < |s| ==> Unfinished(cls, s, stop))
      && |r| == |s|
      && (forall i :: 0 <= i < |s| ==> (r[i] == '\n' <==> s[i] == '\n'))
      && (forall i :: stop <= i < |s| ==> r[i] == s[i])
      && (forall t, i | t in tokens && t.from <= i < t.to ::
            && 0 <= i < |s|
            && (t.kind == StringToken && s[i] != '\n' ==> r[i] == ' ')
            && (t.kind != StringToken ==> r[i] == s[i]))
  {
    TokensTileFrom(cls, s, 0);
    hide Tokens, IsToken, Unfinished, Tile;
    var tokens, stop := Tokens(cls, s, 0), Stop(cls, s);
    forall t, i | t in tokens && t.from <= i < t.to
      ensures 0 <= i < stop && (InString(tokens, i) <==> t.kind == StringToken)
    {
      var j :| 0 <= j < |tokens| && tokens[j] == t;
      TileWithin(tokens, 0, stop, j);
      SameTile(tokens, stop, j, i);
    }
    forall i | stop <= i
      ensures !InString(tokens, i)
    {
      NothingAfterStop(tokens, stop, i);
    }
    hide InString, Stop;
  }

  lemma NothingAfterStop(tokens: seq<Token>, stop: nat, i: int)
    requires Tile(tokens, 0, stop) && stop <= i
    ensures !InString(tokens, i)
  {
    hide Tile;
    forall t | t in tokens
      ensures t.to <= i
    {
      var k :| 0 <= k < |tokens| && tokens[k] == t;
      TileWithin(tokens, 0, stop, k);
    }
  }

  /** A position lies in one token only. */
  lemma SameTile(tokens: seq<Token>, stop: nat, j: nat, i: int)
    requires Tile(tokens, 0, stop) && j < |tokens| && tokens[j].from <= i < tokens[j].to
    ensures InString(tokens, i) <==> tokens[j].kind == StringToken
  {
    hide Tile;
    if InString(tokens, i) {
      var t :| t in tokens && t.kind == StringToken && t.from <= i < t.to;
      var k :| 0 <= k < |tokens| && tokens[k] == t;
      if j < k {
        TilesAreApart(tokens, 0, stop, j, k);
      } else if k < j {
        TilesAreApart(tokens, 0, stop, k, j);
      }
    }
  }
}
