/**
 * Blanking of retained source text in generated JSON, by exact path: the regular
 * expression's string tokens are walked together with the parsed value.
 *
 * A document is its syntax tree with the whitespace and punctuation kept, so `Render` is
 * the text that was read and `Load` the value that `json.loads` returns for it.
 */
module JsonMask {
  import opened Base
  import Rust = RustMask

  // ---------------------------------------------------------------- documents and values

  /** A document; `gap` texts are the whitespace, commas, colons and brackets between tokens. */
  datatype Json =
    | Atom(text: string)
    | Str(body: string)
    | Arr(open: string, items: Items, close: string)
    | Obj(open: string, members: Members, close: string)

  datatype Items = NoItems | Item(item: Json, gap: string, more: Items)

  datatype Members = NoMembers | Member(key: string, colon: string, child: Json, gap: string, more: Members)

  /** What `json.loads` returns; numbers, booleans and null are never looked into. */
  datatype Value = Scalar | Text(text: string) | List(values: Values) | Dict(fields: Fields)

  datatype Values = NoValues | OneValue(value: Value, more: Values)

  datatype Fields = NoFields | Field(key: string, value: Value, more: Fields)

  datatype Step = Key(key: string) | Index(index: nat)

  type Path = seq<Step>

  /** How the reader turns the body of a string token into its text, escapes included. */
  type Decoder = string -> string

  const QUOTE: char := '"'

  /** The text of a string token. */
  function Token(body: string): string {
    [QUOTE] + body + [QUOTE]
  }

  function Render(j: Json): string {
    match j
    case Atom(text) => text
    case Str(body) => Token(body)
    case Arr(open, items, close) => open + RenderItems(items) + close
    case Obj(open, members, close) => open + RenderMembers(members) + close
  }

  function RenderItems(items: Items): string {
    match items
    case NoItems => []
    case Item(item, gap, more) => Render(item) + gap + RenderItems(more)
  }

  function RenderMembers(members: Members): string {
    match members
    case NoMembers => []
    case Member(key, colon, child, gap, more) => Token(key) + colon + Render(child) + gap + RenderMembers(more)
  }

  /** Between tokens there is no quote, and within one no quote that is not escaped. */
  predicate Lexical(j: Json) {
    match j
    case Atom(text) => QUOTE !in text
    case Str(body) => Rust.PlainBody(body)
    case Arr(open, items, close) => QUOTE !in open && LexicalItems(items) && QUOTE !in close
    case Obj(open, members, close) => QUOTE !in open && LexicalMembers(members) && QUOTE !in close
  }

  predicate LexicalItems(items: Items) {
    match items
    case NoItems => true
    case Item(item, gap, more) => Lexical(item) && QUOTE !in gap && LexicalItems(more)
  }

  predicate LexicalMembers(members: Members) {
    match members
    case NoMembers => true
    case Member(key, colon, child, gap, more) =>
      Rust.PlainBody(key) && QUOTE !in colon && Lexical(child) && QUOTE !in gap && LexicalMembers(more)
  }

  predicate HasKey(fields: Fields, key: string) {
    fields.Field? && (fields.key == key || HasKey(fields.more, key))
  }

  /** `_unique_object` for every object of the document: a repeated key is refused. */
  function Load(j: Json, decode: Decoder): Option<Value> {
    match j
    case Atom(_) => Some(Scalar)
    case Str(body) => Some(Text(decode(body)))
    case Arr(_, items, _) => var values :- LoadItems(items, decode); Some(List(values))
    case Obj(_, members, _) => var fields :- LoadMembers(members, decode); Some(Dict(fields))
  }

  function LoadItems(items: Items, decode: Decoder): Option<Values> {
    match items
    case NoItems => Some(NoValues)
    case Item(item, _, more) =>
      var v :- Load(item, decode);
      var vs :- LoadItems(more, decode);
      Some(OneValue(v, vs))
  }

  function LoadMembers(members: Members, decode: Decoder): Option<Fields> {
    match members
    case NoMembers => Some(NoFields)
    case Member(key, _, child, _, more) =>
      var v :- Load(child, decode);
      var vs :- LoadMembers(more, decode);
      if HasKey(vs, decode(key)) then None else Some(Field(decode(key), v, vs))
  }

  // ---------------------------------------------------------------- the walk

  /** One call of `token`: the decoded text and, for a value, its path. */
  datatype Call = Call(text: string, path: Option<Path>)

  /** The calls of `token` in the order in which `walk` makes them. */
  function Calls(v: Value, path: Path): seq<Call>
    decreases v, 0
  {
    match v
    case Scalar => []
    case Text(text) => [Call(text, Some(path))]
    case List(values) => ListCalls(values, path, 0)
    case Dict(fields) => DictCalls(fields, path)
  }

  function ListCalls(values: Values, path: Path, index: nat): seq<Call>
    decreases values, 0
  {
    match values
    case NoValues => []
    case OneValue(value, more) => Calls(value, path + [Index(index)]) + ListCalls(more, path, index + 1)
  }

  function DictCalls(fields: Fields, path: Path): seq<Call>
    decreases fields, 0
  {
    match fields
    case NoFields => []
    case Field(key, value, more) => FieldCalls(key, value, path) + DictCalls(more, path)
  }

  function FieldCalls(key: string, value: Value, path: Path): seq<Call>
    decreases value, 1
  {
    [Call(key, None)] + Calls(value, path + [Key(key)])
  }

  // ---------------------------------------------------------------- tokens and edits

  /** A match of the regular expression. */
  datatype Span = Span(from: nat, to: nat)

  datatype Edit = Edit(from: nat, to: nat, text: string)

  /** All matches of a quoted string from `i` on, leftmost first and never overlapping. */
  function Matches(s: string, i: nat): (r: seq<Span>)
    ensures forall t | t in r :: i <= t.from < t.to <= |s|
    decreases |s| - i
  {
    if i >= |s| then
      []
    else if s[i] == QUOTE && Rust.PlainEnd(s, i + 1).End? then
      var end := Rust.PlainEnd(s, i + 1).at;
      Rust.PlainEndIsExact(s, i + 1, end);
      [Span(i, end)] + Matches(s, end)
    else
      Matches(s, i + 1)
  }

  predicate Cyrillic(s: string) {
    exists k :: 0 <= k < |s| && '\U{0400}' <= s[k] <= '\U{04ff}'
  }

  function Blank(s: string): (r: string)
    ensures |r| == |s|
    ensures forall k :: 0 <= k < |s| ==> r[k] == if s[k] in "\r\n" then s[k] else ' '
  {
    seq(|s|, k requires 0 <= k < |s| => if s[k] in "\r\n" then s[k] else ' ')
  }

  /** What one call of `token` with this match adds to the edits. */
  function EditsOf(content: string, allowed: set<Path>, call: Call, t: Span): seq<Edit>
    requires t.from < t.to <= |content|
  {
    var token := content[t.from..t.to];
    if call.path.Some? && call.path.value in allowed then
      [Edit(t.from, t.to, Blank(token))]
    else if Cyrillic(call.text) && !Cyrillic(token) then
      [Edit(t.from, t.from + 1, "\U{0400}")]
    else
      []
  }

  predicate Within(content: string, spans: seq<Span>) {
    forall k :: 0 <= k < |spans| ==> spans[k].from < spans[k].to <= |content|
  }

  function AllEdits(content: string, allowed: set<Path>, calls: seq<Call>, spans: seq<Span>): seq<Edit>
    requires |calls| <= |spans| && Within(content, spans)
  {
    if calls == [] then []
    else EditsOf(content, allowed, calls[0], spans[0]) + AllEdits(content, allowed, calls[1..], spans[1..])
  }

  /** The iterator over the matches and the list of edits, as the nested functions share them. */
  class Walker {
    const content: string
    const allowed: set<Path>
    var rest: seq<Span>
    var edits: seq<Edit>

    constructor (content: string, allowed: set<Path>)
      ensures this.content == content && this.allowed == allowed
      ensures rest == Matches(content, 0) && edits == [] && Valid()
    {
      this.content := content;
      this.allowed := allowed;
      rest := Matches(content, 0);
      edits := [];
    }

    ghost predicate Valid()
      reads this
    {
      Within(content, rest)
    }

    /** The next match, for this text: false where the iterator is exhausted. */
    method Token(text: string, path: Option<Path>) returns (ok: bool)
      requires Valid()
      modifies this
      ensures Valid()
      ensures ok <==> 1 <= |old(rest)|
      ensures ok ==> rest == old(rest)[1..]
      ensures ok ==> edits == old(edits) + AllEdits(content, allowed, [Call(text, path)], old(rest))
    {
      if rest == [] {
        return false;
      }
      var t := rest[0];
      edits := edits + EditsOf(content, allowed, Call(text, path), t);
      rest := rest[1..];
      return true;
    }

    /** The walk makes its calls in order, each with the next match, and stops short only without one. */
    method Walk(v: Value, path: Path) returns (ok: bool)
      requires Valid()
      modifies this
      ensures Valid()
      ensures ok <==> |Calls(v, path)| <= |old(rest)|
      ensures ok ==> rest == old(rest)[|Calls(v, path)|..]
      ensures ok ==> edits == old(edits) + AllEdits(content, allowed, Calls(v, path), old(rest))
      decreases v, 0
    {
      match v
      case Scalar =>
        return true;
      case Text(text) =>
        ok := Token(text, Some(path));
      case List(values) =>
        ok := WalkList(values, path, 0);
      case Dict(fields) =>
        ok := WalkDict(fields, path);
    }

    method WalkList(values: Values, path: Path, index: nat) returns (ok: bool)
      requires Valid()
      modifies this
      ensures Valid()
      ensures ok <==> |ListCalls(values, path, index)| <= |old(rest)|
      ensures ok ==> rest == old(rest)[|ListCalls(values, path, index)|..]
      ensures ok ==> edits == old(edits) + AllEdits(content, allowed, ListCalls(values, path, index), old(rest))
      decreases values, 0
    {
      match values
      case NoValues =>
        return true;
      case OneValue(value, more) =>
        ghost var first, last := Calls(value, path + [Index(index)]), ListCalls(more, path, index + 1);
        ok := Walk(value, path + [Index(index)]);
        if ok {
          if |first| + |last| <= |old(rest)| {
            EditsJoin(content, allowed, first, last, old(rest));
          }
          ok := WalkList(more, path, index + 1);
        }
    }

    method WalkDict(fields: Fields, path: Path) returns (ok: bool)
      requires Valid()
      modifies this
      ensures Valid()
      ensures ok <==> |DictCalls(fields, path)| <= |old(rest)|
      ensures ok ==> rest == old(rest)[|DictCalls(fields, path)|..]
      ensures ok ==> edits == old(edits) + AllEdits(content, allowed, DictCalls(fields, path), old(rest))
      decreases fields, 0
    {
      match fields
      case NoFields =>
        return true;
      case Field(key, value, more) =>
        ghost var first, last := FieldCalls(key, value, path), DictCalls(more, path);
        ghost var spans := rest;
        hide FieldCalls, AllEdits;
        ok := WalkField(key, value, path);
        if ok {
          if |first| + |last| <= |spans| {
            EditsJoin(content, allowed, first, last, spans);
          }
          ok := WalkDict(more, path);
        }
    }

    method WalkField(key: string, value: Value, path: Path) returns (ok: bool)
      requires Valid()
      modifies this
      ensures Valid()
      ensures ok <==> |FieldCalls(key, value, path)| <= |old(rest)|
      ensures ok ==> rest == old(rest)[|FieldCalls(key, value, path)|..]
      ensures ok ==> edits == old(edits) + AllEdits(content, allowed, FieldCalls(key, value, path), old(rest))
      decreases value, 1
    {
      ghost var last := Calls(value, path + [Key(key)]);
      ghost var spans := rest;
      ok := Token(key, None);
      if ok {
        if 1 + |last| <= |spans| {
          EditsJoin(content, allowed, [Call(key, None)], last, spans);
        }
        ok := Walk(value, path + [Key(key)]);
      }
    }
  }

  lemma {:induction false} EditsJoin(content: string, allowed: set<Path>, a: seq<Call>, b: seq<Call>, spans: seq<Span>)
    requires |a| + |b| <= |spans| && Within(content, spans)
    ensures AllEdits(content, allowed, a + b, spans) ==
      AllEdits(content, allowed, a, spans) + AllEdits(content, allowed, b, spans[|a|..])
  {
    hide EditsOf;
    if a == [] {
      assert a + b == b && spans[|a|..] == spans;
    } else {
      EditsJoin(content, allowed, a[1..], b, spans[1..]);
      assert (a + b)[1..] == a[1..] + b && spans[1..][|a| - 1..] == spans[|a|..];
    }
  }

  // ---------------------------------------------------------------- splicing

  /** Edits that follow one another from `cursor` on. */
  predicate Ordered(content: string, cursor: nat, edits: seq<Edit>)
    decreases |edits|
  {
    if edits == [] then cursor <= |content|
    else cursor <= edits[0].from <= edits[0].to <= |content| && Ordered(content, edits[0].to, edits[1..])
  }

  /** The text from `cursor` on, with the edits applied. */
  function Splice(content: string, cursor: nat, edits: seq<Edit>): string
    requires Ordered(content, cursor, edits)
    decreases |edits|
  {
    if edits == [] then content[cursor..]
    else content[cursor..edits[0].from] + edits[0].text + Splice(content, edits[0].to, edits[1..])
  }

  /** Matches come one after another. */
  predicate Apart(spans: seq<Span>, from: nat) {
    spans == [] || (from <= spans[0].from && Apart(spans[1..], spans[0].to))
  }

  lemma {:induction false} MatchesAreApart(s: string, i: nat)
    ensures Apart(Matches(s, i), i)
    decreases |s| - i
  {
    if i < |s| {
      if s[i] == QUOTE && Rust.PlainEnd(s, i + 1).End? {
        Rust.PlainEndIsExact(s, i + 1, Rust.PlainEnd(s, i + 1).at);
        MatchesAreApart(s, Rust.PlainEnd(s, i + 1).at);
      } else {
        MatchesAreApart(s, i + 1);
      }
    }
  }

  lemma {:induction false} EditsAreOrdered(content: string, allowed: set<Path>, calls: seq<Call>, spans: seq<Span>,
      cursor: nat)
    requires |calls| <= |spans| && Within(content, spans) && Apart(spans, cursor) && cursor <= |content|
    ensures Ordered(content, cursor, AllEdits(content, allowed, calls, spans))
  {
    if calls != [] {
      var t := spans[0];
      EditsAreOrdered(content, allowed, calls[1..], spans[1..], t.to);
      var first, rest := EditsOf(content, allowed, calls[0], t), AllEdits(content, allowed, calls[1..], spans[1..]);
      assert first != [] ==> first == [first[0]] && (first + rest)[1..] == rest;
      OrderedEarlier(content, cursor, t.to, rest);
      if first != [] {
        OrderedEarlier(content, first[0].to, t.to, rest);
      } else {
        assert first + rest == rest;
      }
    }
  }

  lemma OrderedEarlier(content: string, a: nat, b: nat, edits: seq<Edit>)
    requires a <= b && Ordered(content, b, edits)
    ensures Ordered(content, a, edits)
  {
  }

  /** The loop that joins the kept parts and the replacements. */
  method ApplyEdits(content: string, edits: seq<Edit>) returns (r: string)
    requires Ordered(content, 0, edits)
    ensures r == Splice(content, 0, edits)
  {
    r := [];
    var cursor: nat := 0;
    for k := 0 to |edits|
      invariant Ordered(content, cursor, edits[k..])
      invariant Splice(content, 0, edits) == r + Splice(content, cursor, edits[k..])
    {
      assert edits[k..][1..] == edits[k + 1..];
      r := r + content[cursor..edits[k].from] + edits[k].text;
      cursor := edits[k].to;
    }
    r := r + content[cursor..];
  }

  // ---------------------------------------------------------------- allowed paths

  /** `dict.get`. */
  function Get(v: Value, key: string): Option<Value> {
    if v.Dict? then GetField(v.fields, key) else None
  }

  function GetField(fields: Fields, key: string): Option<Value> {
    match fields
    case NoFields => None
    case Field(k, value, more) => if k == key then Some(value) else GetField(more, key)
  }

  /** Whether an entry is a retained source with this identifier: its own fields and digests decide. */
  type Retained = (Value, string) -> bool

  function SourcePaths(group: Option<Value>, path: Path, retained: Retained): set<Path> {
    if group.Some? && group.value.Dict? then FieldPaths(group.value.fields, path, retained) else {}
  }

  function FieldPaths(fields: Fields, path: Path, retained: Retained): set<Path> {
    match fields
    case NoFields => {}
    case Field(id, source, more) =>
      (if retained(source, id) then {path + [Key(id), Key("text")]} else {}) + FieldPaths(more, path, retained)
  }

  function OperationPaths(groups: Fields, retained: Retained): set<Path> {
    match groups
    case NoFields => {}
    case Field(operation, group, more) =>
      SourcePaths(Some(group), [Key("operationSources"), Key(operation)], retained) + OperationPaths(more, retained)
  }

  /** The paths that may hold any language, by the kind of publication and its declared producer. */
  function Allowed(v: Value, kind: Option<string>, retained: Retained): set<Path> {
    if kind == Some("service") && Get(v, "renderer") == Some(Text("codeclew-documentation-html/1.16")) then
      var groups := Get(v, "operationSources");
      SourcePaths(Get(v, "sources"), [Key("sources")], retained)
      + (if groups.Some? && groups.value.Dict? then OperationPaths(groups.value.fields, retained) else {})
    else if kind == Some("bindings") && Get(v, "schema") == Some(Text("codeclew-documentation-bindings/1.4")) then
      SourcePaths(Get(v, "retainedSources"), [Key("retainedSources")], retained)
    else
      {}
  }

  /** The walk and the splice as one function; nothing where the matches run out. */
  function Masked(content: string, v: Value, allowed: set<Path>): Option<string> {
    var calls, spans := Calls(v, []), Matches(content, 0);
    if |calls| > |spans| then
      None
    else
      MatchesAreApart(content, 0);
      EditsAreOrdered(content, allowed, calls, spans, 0);
      Some(Splice(content, 0, AllEdits(content, allowed, calls, spans)))
  }

  /** `_mask_generated_json`; `parsed` is what `json.loads` made of `content`, if it accepted it. */
  method MaskGeneratedJson(content: string, parsed: Option<Value>, kind: Option<string>, retained: Retained)
    returns (r: Option<string>)
    ensures parsed.None? ==> r == Some(content)
    ensures parsed.Some? ==> r == Masked(content, parsed.value, Allowed(parsed.value, kind, retained))
  {
    if parsed.None? {
      return Some(content);
    }
    hide Calls, AllEdits, Matches, Splice, Ordered, Apart, Allowed;
    var allowed := Allowed(parsed.value, kind, retained);
    var walker := new Walker(content, allowed);
    var ok := walker.Walk(parsed.value, []);
    if !ok {
      return None;
    }
    MatchesAreApart(content, 0);
    EditsAreOrdered(content, allowed, Calls(parsed.value, []), Matches(content, 0), 0);
    assert walker.edits == AllEdits(content, allowed, Calls(parsed.value, []), Matches(content, 0));
    var text := ApplyEdits(content, walker.edits);
    return Some(text);
  }

  // ---------------------------------------------------------------- the reference

  /** What a reader of the masked text sees in place of a string token. */
  function Shown(body: string, path: Option<Path>, allowed: set<Path>, decode: Decoder): string {
    var token := Token(body);
    if path.Some? && path.value in allowed then Blank(token)
    else if Cyrillic(decode(body)) && !Cyrillic(token) then ['\U{0400}'] + token[1..]
    else token
  }

  /** The document with each string token shown by its own path: no tokens, no spans, no cursor. */
  function Show(j: Json, path: Path, allowed: set<Path>, decode: Decoder): string {
    match j
    case Atom(text) => text
    case Str(body) => Shown(body, Some(path), allowed, decode)
    case Arr(open, items, close) => open + ShowItems(items, path, 0, allowed, decode) + close
    case Obj(open, members, close) => open + ShowMembers(members, path, allowed, decode) + close
  }

  function ShowItems(items: Items, path: Path, index: nat, allowed: set<Path>, decode: Decoder): string {
    match items
    case NoItems => []
    case Item(item, gap, more) =>
      Show(item, path + [Index(index)], allowed, decode) + gap + ShowItems(more, path, index + 1, allowed, decode)
  }

  function ShowMembers(members: Members, path: Path, allowed: set<Path>, decode: Decoder): string {
    match members
    case NoMembers => []
    case Member(key, colon, child, gap, more) =>
      Shown(key, None, allowed, decode) + colon + Show(child, path + [Key(decode(key))], allowed, decode)
      + gap + ShowMembers(more, path, allowed, decode)
  }

  // ---------------------------------------------------------------- pieces

  /** A document laid flat. */
  datatype Piece = Gap(text: string) | Quoted(body: string, path: Option<Path>)

  function Flat(j: Json, path: Path, decode: Decoder): seq<Piece> {
    match j
    case Atom(text) => [Gap(text)]
    case Str(body) => [Quoted(body, Some(path))]
    case Arr(open, items, close) => [Gap(open)] + FlatItems(items, path, 0, decode) + [Gap(close)]
    case Obj(open, members, close) => [Gap(open)] + FlatMembers(members, path, decode) + [Gap(close)]
  }

  function FlatItems(items: Items, path: Path, index: nat, decode: Decoder): seq<Piece> {
    match items
    case NoItems => []
    case Item(item, gap, more) =>
      Flat(item, path + [Index(index)], decode) + [Gap(gap)] + FlatItems(more, path, index + 1, decode)
  }

  function FlatMembers(members: Members, path: Path, decode: Decoder): seq<Piece> {
    match members
    case NoMembers => []
    case Member(key, colon, child, gap, more) =>
      [Quoted(key, None), Gap(colon)] + Flat(child, path + [Key(decode(key))], decode)
      + [Gap(gap)] + FlatMembers(more, path, decode)
  }

  function PieceText(p: Piece): string {
    match p
    case Gap(text) => text
    case Quoted(body, _) => Token(body)
  }

  function PieceShown(p: Piece, allowed: set<Path>, decode: Decoder): string {
    match p
    case Gap(text) => text
    case Quoted(body, path) => Shown(body, path, allowed, decode)
  }

  function Texts(pieces: seq<Piece>): string {
    if pieces == [] then [] else PieceText(pieces[0]) + Texts(pieces[1..])
  }

  function AllShown(pieces: seq<Piece>, allowed: set<Path>, decode: Decoder): string {
    if pieces == [] then [] else PieceShown(pieces[0], allowed, decode) + AllShown(pieces[1..], allowed, decode)
  }

  function PieceCalls(p: Piece, decode: Decoder): seq<Call> {
    match p
    case Gap(_) => []
    case Quoted(body, path) => [Call(decode(body), path)]
  }

  function QuotedCalls(pieces: seq<Piece>, decode: Decoder): seq<Call> {
    if pieces == [] then [] else PieceCalls(pieces[0], decode) + QuotedCalls(pieces[1..], decode)
  }

  predicate Clean(pieces: seq<Piece>) {
    forall p | p in pieces :: if p.Gap? then QUOTE !in p.text else Rust.PlainBody(p.body)
  }

  lemma {:induction false} TextsJoin(a: seq<Piece>, b: seq<Piece>)
    ensures Texts(a + b) == Texts(a) + Texts(b)
  {
    hide PieceText;
    if a == [] {
      assert a + b == b;
    } else {
      TextsJoin(a[1..], b);
      assert (a + b)[1..] == a[1..] + b;
    }
  }

  lemma {:induction false} ShownJoin(a: seq<Piece>, b: seq<Piece>, allowed: set<Path>, decode: Decoder)
    ensures AllShown(a + b, allowed, decode) == AllShown(a, allowed, decode) + AllShown(b, allowed, decode)
  {
    hide PieceShown;
    if a == [] {
      assert a + b == b;
    } else {
      ShownJoin(a[1..], b, allowed, decode);
      assert (a + b)[1..] == a[1..] + b;
    }
  }

  lemma {:induction false} CallsJoin(a: seq<Piece>, b: seq<Piece>, decode: Decoder)
    ensures QuotedCalls(a + b, decode) == QuotedCalls(a, decode) + QuotedCalls(b, decode)
  {
    hide PieceCalls;
    if a == [] {
      assert a + b == b;
    } else {
      CallsJoin(a[1..], b, decode);
      assert (a + b)[1..] == a[1..] + b;
    }
  }

  /** Everything that is read off pieces is read off their concatenation part by part. */
  lemma PiecesJoin(a: seq<Piece>, b: seq<Piece>, allowed: set<Path>, decode: Decoder)
    ensures Texts(a + b) == Texts(a) + Texts(b)
    ensures AllShown(a + b, allowed, decode) == AllShown(a, allowed, decode) + AllShown(b, allowed, decode)
    ensures QuotedCalls(a + b, decode) == QuotedCalls(a, decode) + QuotedCalls(b, decode)
  {
    TextsJoin(a, b);
    ShownJoin(a, b, allowed, decode);
    CallsJoin(a, b, decode);
  }

  lemma OnePiece(p: Piece, allowed: set<Path>, decode: Decoder)
    ensures Texts([p]) == PieceText(p)
    ensures AllShown([p], allowed, decode) == PieceShown(p, allowed, decode)
    ensures QuotedCalls([p], decode) == if p.Gap? then [] else [Call(decode(p.body), p.path)]
  {
    assert [p][1..] == [];
  }

  lemma PiecesAround(p: Piece, a: seq<Piece>, q: Piece, allowed: set<Path>, decode: Decoder)
    requires p.Gap? && q.Gap?
    ensures Texts([p] + a + [q]) == p.text + Texts(a) + q.text
    ensures AllShown([p] + a + [q], allowed, decode) == p.text + AllShown(a, allowed, decode) + q.text
    ensures QuotedCalls([p] + a + [q], decode) == QuotedCalls(a, decode)
  {
    hide Texts, AllShown, QuotedCalls;
    PiecesJoin([p] + a, [q], allowed, decode);
    PiecesJoin([p], a, allowed, decode);
    OnePiece(p, allowed, decode);
    OnePiece(q, allowed, decode);
  }

  lemma PiecesBefore(a: seq<Piece>, q: Piece, b: seq<Piece>, allowed: set<Path>, decode: Decoder)
    requires q.Gap?
    ensures Texts(a + [q] + b) == Texts(a) + q.text + Texts(b)
    ensures AllShown(a + [q] + b, allowed, decode) == AllShown(a, allowed, decode) + q.text + AllShown(b, allowed,
      decode)
    ensures QuotedCalls(a + [q] + b, decode) == QuotedCalls(a, decode) + QuotedCalls(b, decode)
  {
    hide Texts, AllShown, QuotedCalls;
    PiecesJoin(a + [q], b, allowed, decode);
    PiecesJoin(a, [q], allowed, decode);
    OnePiece(q, allowed, decode);
  }

  /** The flat document has the text, the reference picture and the calls of the tree. */
  lemma {:induction false} FlatIsFaithful(j: Json, path: Path, allowed: set<Path>, decode: Decoder)
    ensures Texts(Flat(j, path, decode)) == Render(j)
    ensures AllShown(Flat(j, path, decode), allowed, decode) == Show(j, path, allowed, decode)
    ensures var v := Load(j, decode); v.Some? ==> QuotedCalls(Flat(j, path, decode), decode) == Calls(v.value, path)
  {
    match j
    case Atom(text) => OnePiece(Gap(text), allowed, decode);
    case Str(body) => OnePiece(Quoted(body, Some(path)), allowed, decode);
    case Arr(open, items, close) =>
      FlatItemsAreFaithful(items, path, 0, allowed, decode);
      PiecesAround(Gap(open), FlatItems(items, path, 0, decode), Gap(close), allowed, decode);
    case Obj(open, members, close) =>
      FlatMembersAreFaithful(members, path, allowed, decode);
      PiecesAround(Gap(open), FlatMembers(members, path, decode), Gap(close), allowed, decode);
  }

  lemma {:induction false} FlatItemsAreFaithful(items: Items, path: Path, index: nat, allowed: set<Path>,
      decode: Decoder)
    ensures Texts(FlatItems(items, path, index, decode)) == RenderItems(items)
    ensures AllShown(FlatItems(items, path, index, decode), allowed, decode) ==
      ShowItems(items, path, index, allowed, decode)
    ensures var v := LoadItems(items, decode);
      v.Some? ==> QuotedCalls(FlatItems(items, path, index, decode), decode) == ListCalls(v.value, path, index)
  {
    match items
    case NoItems =>
    case Item(item, gap, more) =>
      hide Texts, AllShown, QuotedCalls;
      FlatIsFaithful(item, path + [Index(index)], allowed, decode);
      FlatItemsAreFaithful(more, path, index + 1, allowed, decode);
      PiecesBefore(Flat(item, path + [Index(index)], decode), Gap(gap), FlatItems(more, path, index + 1, decode),
        allowed, decode);
  }

  lemma {:induction false} FlatMembersAreFaithful(members: Members, path: Path, allowed: set<Path>, decode: Decoder)
    ensures Texts(FlatMembers(members, path, decode)) == RenderMembers(members)
    ensures AllShown(FlatMembers(members, path, decode), allowed, decode) == ShowMembers(members, path, allowed, decode)
    ensures var v := LoadMembers(members, decode);
      v.Some? ==> QuotedCalls(FlatMembers(members, path, decode), decode) == DictCalls(v.value, path)
  {
    match members
    case NoMembers =>
    case Member(key, colon, child, gap, more) =>
      hide Texts, AllShown, QuotedCalls, Shown, Token;
      var inner := path + [Key(decode(key))];
      FlatIsFaithful(child, inner, allowed, decode);
      FlatMembersAreFaithful(more, path, allowed, decode);
      MemberPieces(key, colon, Flat(child, inner, decode), gap, FlatMembers(more, path, decode), allowed, decode);
  }

  lemma MemberPieces(key: string, colon: string, body: seq<Piece>, gap: string, rest: seq<Piece>, allowed: set<Path>,
      decode: Decoder)
    ensures var all := [Quoted(key, None), Gap(colon)] + body + [Gap(gap)] + rest;
      && Texts(all) == Token(key) + colon + Texts(body) + gap + Texts(rest)
      && AllShown(all, allowed, decode) ==
         Shown(key, None, allowed, decode) + colon + AllShown(body, allowed, decode) + gap + AllShown(rest, allowed,
           decode)
      && QuotedCalls(all, decode) == [Call(decode(key), None)] + QuotedCalls(body, decode) + QuotedCalls(rest, decode)
  {
    hide Texts, AllShown, QuotedCalls, Shown, Token;
    var name := [Quoted(key, None), Gap(colon)];
    PiecesBefore(name + body, Gap(gap), rest, allowed, decode);
    PiecesBefore([Quoted(key, None)], Gap(colon), body, allowed, decode);
    assert name == [Quoted(key, None)] + [Gap(colon)];
    OnePiece(Quoted(key, None), allowed, decode);
  }

  lemma {:induction false} FlatIsClean(j: Json, path: Path, decode: Decoder)
    requires Lexical(j)
    ensures Clean(Flat(j, path, decode))
  {
    match j
    case Atom(text) =>
    case Str(body) =>
    case Arr(open, items, close) => FlatItemsAreClean(items, path, 0, decode);
    case Obj(open, members, close) => FlatMembersAreClean(members, path, decode);
  }

  lemma {:induction false} FlatItemsAreClean(items: Items, path: Path, index: nat, decode: Decoder)
    requires LexicalItems(items)
    ensures Clean(FlatItems(items, path, index, decode))
  {
    if items.Item? {
      FlatIsClean(items.item, path + [Index(index)], decode);
      FlatItemsAreClean(items.more, path, index + 1, decode);
    }
  }

  lemma {:induction false} FlatMembersAreClean(members: Members, path: Path, decode: Decoder)
    requires LexicalMembers(members)
    ensures Clean(FlatMembers(members, path, decode))
  {
    if members.Member? {
      FlatIsClean(members.child, path + [Key(decode(members.key))], decode);
      FlatMembersAreClean(members.more, path, decode);
    }
  }

  // ---------------------------------------------------------------- the matches are the tokens

  /** Where the quoted pieces lie when the first piece starts at `at`. */
  function Spans(pieces: seq<Piece>, at: nat): seq<Span> {
    if pieces == [] then []
    else
      var next := at + |PieceText(pieces[0])|;
      (if pieces[0].Quoted? then [Span(at, next)] else []) + Spans(pieces[1..], next)
  }

  lemma {:induction false} NoMatchInGap(s: string, i: nat, e: nat)
    requires i <= e <= |s| && QUOTE !in s[i..e]
    ensures Matches(s, i) == Matches(s, e)
    decreases e - i
  {
    if i < e {
      assert s[i] == s[i..e][0];
      assert s[i + 1..e] == s[i..e][1..];
      NoMatchInGap(s, i + 1, e);
    }
  }

  lemma MatchOfToken(s: string, i: nat, body: string)
    requires i + |body| + 2 <= |s| && s[i..i + |body| + 2] == Token(body) && Rust.PlainBody(body)
    ensures Matches(s, i) == [Span(i, i + |body| + 2)] + Matches(s, i + |body| + 2)
  {
    var e := i + |body| + 2;
    var token := s[i..e];
    assert s[i] == token[0] == QUOTE;
    assert s[e - 1] == token[|body| + 1] == QUOTE;
    assert token[1..|body| + 1] == body;
    assert forall k :: i <= k < e ==> s[k] == token[k - i];
    assert s[i + 1..e - 1] == token[1..|body| + 1];
    Rust.PlainEndIsExact(s, i + 1, e);
  }

  /** From `at` to its end the text is that of the pieces. */
  predicate Stands(s: string, at: nat, pieces: seq<Piece>) {
    at <= |s| && s[at..] == Texts(pieces)
  }

  /** One piece further along the text. */
  lemma StandsStep(s: string, at: nat, pieces: seq<Piece>)
    requires Stands(s, at, pieces) && pieces != []
    ensures var next := at + |PieceText(pieces[0])|;
      next <= |s| && s[at..next] == PieceText(pieces[0]) && Stands(s, next, pieces[1..])
  {
    hide PieceText;
    var next := at + |PieceText(pieces[0])|;
    assert s[at..next] == s[at..][..|PieceText(pieces[0])|];
    assert s[next..] == s[at..][|PieceText(pieces[0])|..];
  }

  /** The regular expression finds exactly the document's string tokens, in the document's order. */
  lemma {:induction false} MatchesAreTokens(s: string, at: nat, pieces: seq<Piece>)
    requires Clean(pieces) && Stands(s, at, pieces)
    ensures Matches(s, at) == Spans(pieces, at)
    decreases |pieces|
  {
    hide Clean, Matches, PieceText, Texts;
    if pieces == [] {
      NothingLeft(s, at);
    } else {
      StandsStep(s, at, pieces);
      CleanStep(pieces);
      hide Stands;
      MatchesAreTokens(s, at + |PieceText(pieces[0])|, pieces[1..]);
      MatchesStep(s, at, pieces[0]);
    }
  }

  lemma NothingLeft(s: string, at: nat)
    requires Stands(s, at, [])
    ensures at == |s| && Matches(s, at) == []
  {
  }

  lemma CleanStep(pieces: seq<Piece>)
    requires pieces != [] && Clean(pieces)
    ensures Clean([pieces[0]]) && Clean(pieces[1..])
  {
  }

  lemma MatchesStep(s: string, at: nat, p: Piece)
    requires Clean([p])
    requires at + |PieceText(p)| <= |s| && s[at..at + |PieceText(p)|] == PieceText(p)
    ensures var e := at + |PieceText(p)|;
      Matches(s, at) == (if p.Quoted? then [Span(at, e)] else []) + Matches(s, e)
  {
    assert p in [p];
    hide Matches;
    if p.Gap? {
      NoMatchInGap(s, at, at + |p.text|);
    } else {
      MatchOfToken(s, at, p.body);
    }
  }

  // ---------------------------------------------------------------- the edits show the document

  lemma {:induction false} SpansFit(s: string, at: nat, pieces: seq<Piece>, decode: Decoder)
    requires Stands(s, at, pieces)
    ensures Within(s, Spans(pieces, at))
    ensures |Spans(pieces, at)| == |QuotedCalls(pieces, decode)|
    decreases |pieces|
  {
    if pieces != [] {
      hide *;
      StandsStep(s, at, pieces);
      Unfold(pieces, at, {}, decode);
      var next := at + |PieceText(pieces[0])|;
      SpansFit(s, next, pieces[1..], decode);
      if pieces[0].Quoted? {
        WithinFirst(s, Span(at, next), Spans(pieces[1..], next));
      }
    }
  }

  lemma {:induction false} SpliceEarlier(content: string, a: nat, b: nat, edits: seq<Edit>)
    requires a <= b && Ordered(content, b, edits)
    ensures Ordered(content, a, edits)
    ensures Splice(content, a, edits) == content[a..b] + Splice(content, b, edits)
  {
    if edits == [] {
      assert content[a..] == content[a..b] + content[b..];
    } else {
      var rest := Splice(content, edits[0].to, edits[1..]);
      var to := edits[0].from;
      assert Splice(content, a, edits) == content[a..to] + edits[0].text + rest;
      assert Splice(content, b, edits) == content[b..to] + edits[0].text + rest;
      hide Splice;
      assert content[a..to] == content[a..b] + content[b..to];
    }
  }

  lemma SpliceFirst(content: string, at: nat, edit: Edit, e: nat, edits: seq<Edit>)
    requires edit.from == at <= edit.to <= e && Ordered(content, e, edits)
    ensures Ordered(content, at, [edit] + edits)
    ensures Splice(content, at, [edit] + edits) == edit.text + content[edit.to..e] + Splice(content, e, edits)
  {
    SpliceEarlier(content, edit.to, e, edits);
    assert ([edit] + edits)[1..] == edits;
    assert content[at..at] == [];
  }

  /** One token's edits turn it into what the reference shows. */
  lemma SpliceToken(content: string, at: nat, body: string, path: Option<Path>, allowed: set<Path>, decode: Decoder,
      edits: seq<Edit>)
    requires at + |body| + 2 <= |content| && content[at..at + |body| + 2] == Token(body)
    requires Ordered(content, at + |body| + 2, edits)
    ensures var e := at + |body| + 2;
      var all := EditsOf(content, allowed, Call(decode(body), path), Span(at, e)) + edits;
      && Ordered(content, at, all)
      && Splice(content, at, all) == Shown(body, path, allowed, decode) + Splice(content, e, edits)
  {
    var e, token := at + |body| + 2, Token(body);
    hide Ordered, Splice, Cyrillic, Token, Blank;
    if path.Some? && path.value in allowed {
      SpliceFirst(content, at, Edit(at, e, Blank(token)), e, edits);
      assert content[e..e] == [];
    } else if Cyrillic(decode(body)) && !Cyrillic(token) {
      SpliceFirst(content, at, Edit(at, at + 1, "\U{0400}"), e, edits);
      assert content[at + 1..e] == content[at..e][1..];
    } else {
      SpliceEarlier(content, at, e, edits);
      assert [] + edits == edits;
    }
  }

  lemma TokenStep(content: string, at: nat, e: nat, body: string, path: Option<Path>, allowed: set<Path>,
      decode: Decoder, calls: seq<Call>, spans: seq<Span>)
    requires e == at + |body| + 2 <= |content| && content[at..e] == Token(body)
    requires |calls| == |spans| && Within(content, spans)
    requires Ordered(content, e, AllEdits(content, allowed, calls, spans))
    ensures var calls', spans' := [Call(decode(body), path)] + calls, [Span(at, e)] + spans;
      && Within(content, spans')
      && var edits' := AllEdits(content, allowed, calls', spans');
      && Ordered(content, at, edits')
      && Splice(content, at, edits') ==
         Shown(body, path, allowed, decode) + Splice(content, e, AllEdits(content, allowed, calls, spans))
  {
    hide *;
    WithinFirst(content, Span(at, e), spans);
    AllEditsFirst(content, allowed, Call(decode(body), path), Span(at, e), calls, spans);
    SpliceToken(content, at, body, path, allowed, decode, AllEdits(content, allowed, calls, spans));
  }

  lemma WithinFirst(content: string, span: Span, spans: seq<Span>)
    requires span.from < span.to <= |content| && Within(content, spans)
    ensures Within(content, [span] + spans)
  {
  }

  lemma {:induction false} SplicePieces(s: string, at: nat, pieces: seq<Piece>, allowed: set<Path>, decode: Decoder)
    requires Stands(s, at, pieces)
    ensures var calls, spans := QuotedCalls(pieces, decode), Spans(pieces, at);
      && |calls| == |spans| && Within(s, spans)
      && var edits := AllEdits(s, allowed, calls, spans);
      Ordered(s, at, edits) && Splice(s, at, edits) == AllShown(pieces, allowed, decode)
    decreases |pieces|
  {
    hide *;
    SpansFit(s, at, pieces, decode);
    if pieces == [] {
      SpliceNothing(s, at, allowed, decode);
    } else {
      var p, rest := pieces[0], pieces[1..];
      StandsStep(s, at, pieces);
      var next := at + |PieceText(p)|;
      SplicePieces(s, next, rest, allowed, decode);
      Unfold(pieces, at, allowed, decode);
      var calls, spans := QuotedCalls(rest, decode), Spans(rest, next);
      if p.Gap? {
        SpliceEarlier(s, at, next, AllEdits(s, allowed, calls, spans));
      } else {
        TokenStep(s, at, next, p.body, p.path, allowed, decode, calls, spans);
      }
    }
  }

  lemma Unfold(pieces: seq<Piece>, at: nat, allowed: set<Path>, decode: Decoder)
    requires pieces != []
    ensures var p, rest := pieces[0], pieces[1..];
      var next := at + |PieceText(p)|;
      match p
      case Gap(text) =>
        && PieceText(p) == text
        && QuotedCalls(pieces, decode) == QuotedCalls(rest, decode)
        && Spans(pieces, at) == Spans(rest, next)
        && AllShown(pieces, allowed, decode) == text + AllShown(rest, allowed, decode)
      case Quoted(body, path) =>
        && PieceText(p) == Token(body) && next == at + |body| + 2
        && QuotedCalls(pieces, decode) == [Call(decode(body), path)] + QuotedCalls(rest, decode)
        && Spans(pieces, at) == [Span(at, next)] + Spans(rest, next)
        && AllShown(pieces, allowed, decode) == Shown(body, path, allowed, decode) + AllShown(rest, allowed, decode)
  {
    hide Shown;
  }

  lemma SpliceNothing(s: string, at: nat, allowed: set<Path>, decode: Decoder)
    requires Stands(s, at, [])
    ensures QuotedCalls([], decode) == [] && Spans([], at) == [] && AllShown([], allowed, decode) == []
    ensures AllEdits(s, allowed, [], []) == [] && Ordered(s, at, []) && Splice(s, at, []) == []
  {
  }

  lemma AllEditsFirst(content: string, allowed: set<Path>, call: Call, span: Span, calls: seq<Call>, spans: seq<Span>)
    requires |calls| <= |spans| && Within(content, [span] + spans) && Within(content, spans)
    requires span.from < span.to <= |content|
    ensures AllEdits(content, allowed, [call] + calls, [span] + spans) ==
      EditsOf(content, allowed, call, span) + AllEdits(content, allowed, calls, spans)
  {
    assert ([call] + calls)[1..] == calls && ([span] + spans)[1..] == spans;
  }

  // ---------------------------------------------------------------- main results

  /**
   * Masking is path-exact: for every document without a repeated key, with whatever
   * whitespace around it, the result is the document with each string token shown by
   * its own path. The matches never run out.
   */
  lemma MaskingIsPathExact(before: string, j: Json, after: string, decode: Decoder, allowed: set<Path>)
    requires Lexical(j) && QUOTE !in before && QUOTE !in after
    requires Load(j, decode).Some?
    ensures Masked(before + Render(j) + after, Load(j, decode).value, allowed) ==
      Some(before + Show(j, [], allowed, decode) + after)
  {
    var flat := Flat(j, [], decode);
    var pieces := [Gap(before)] + flat + [Gap(after)];
    FlatIsFaithful(j, [], allowed, decode);
    FlatIsClean(j, [], decode);
    assert Clean(pieces);
    PiecesAround(Gap(before), flat, Gap(after), allowed, decode);
    hide Texts, Matches, Spans, Calls, QuotedCalls, AllShown, Clean;
    var content := before + Render(j) + after;
    assert content[0..] == content;
    MatchesAreTokens(content, 0, pieces);
    SplicePieces(content, 0, pieces, allowed, decode);
  }

  /** A token keeps its length and its line breaks; only an allowed value is blanked. */
  lemma ShownKeepsLength(body: string, path: Option<Path>, allowed: set<Path>, decode: Decoder)
    ensures |Shown(body, path, allowed, decode)| == |Token(body)|
    ensures forall k :: 0 <= k < |Token(body)| && Token(body)[k] in "\r\n" ==>
      Shown(body, path, allowed, decode)[k] == Token(body)[k]
  {
  }

  /** A token that is not blanked and whose text holds Cyrillic, raw or escaped, shows Cyrillic. */
  lemma CyrillicStaysVisible(body: string, path: Option<Path>, allowed: set<Path>, decode: Decoder)
    requires path.None? || path.value !in allowed
    requires Cyrillic(decode(body))
    ensures Cyrillic(Shown(body, path, allowed, decode))
  {
    var shown := Shown(body, path, allowed, decode);
    if !Cyrillic(Token(body)) {
      assert shown[0] == '\U{0400}';
    }
  }

  lemma CyrillicInPart(a: string, b: string)
    ensures Cyrillic(a) || Cyrillic(b) ==> Cyrillic(a + b)
  {
    if Cyrillic(a) {
      var k :| 0 <= k < |a| && '\U{0400}' <= a[k] <= '\U{04ff}';
      assert (a + b)[k] == a[k];
    } else if Cyrillic(b) {
      var k :| 0 <= k < |b| && '\U{0400}' <= b[k] <= '\U{04ff}';
      assert (a + b)[|a| + k] == b[k];
    }
  }

  /** The call is for a text with Cyrillic in it that no allowed path excuses. */
  predicate Offends(call: Call, allowed: set<Path>) {
    Cyrillic(call.text) && (call.path.None? || call.path.value !in allowed)
  }

  lemma {:induction false} OffenceShows(pieces: seq<Piece>, allowed: set<Path>, decode: Decoder, k: nat)
    requires k < |QuotedCalls(pieces, decode)| && Offends(QuotedCalls(pieces, decode)[k], allowed)
    ensures Cyrillic(AllShown(pieces, allowed, decode))
    decreases |pieces|
  {
    var p, rest := pieces[0], pieces[1..];
    CyrillicInPart(PieceShown(p, allowed, decode), AllShown(rest, allowed, decode));
    hide Cyrillic;
    if p.Gap? {
      OffenceShows(rest, allowed, decode, k);
    } else if k > 0 {
      OffenceShows(rest, allowed, decode, k - 1);
    } else {
      CyrillicStaysVisible(p.body, p.path, allowed, decode);
    }
  }

  /** No key and no value escapes the prose check: if any text of the document that no
      allowed path excuses holds Cyrillic, so does the masked document. */
  lemma NothingIsHidden(before: string, j: Json, after: string, decode: Decoder, allowed: set<Path>, k: nat)
    requires Lexical(j) && QUOTE !in before && QUOTE !in after && Load(j, decode).Some?
    requires k < |Calls(Load(j, decode).value, [])| && Offends(Calls(Load(j, decode).value, [])[k], allowed)
    ensures var r := Masked(before + Render(j) + after, Load(j, decode).value, allowed);
      r.Some? && Cyrillic(r.value)
  {
    MaskingIsPathExact(before, j, after, decode, allowed);
    FlatIsFaithful(j, [], allowed, decode);
    OffenceShows(Flat(j, [], decode), allowed, decode, k);
    hide *;
    CyrillicInPart(before, Show(j, [], allowed, decode));
    CyrillicInPart(before + Show(j, [], allowed, decode), after);
  }

  lemma BlankShowsNothing(s: string)
    ensures !Cyrillic(Blank(s))
  {
  }

  lemma {:induction false} ShowKeepsLength(j: Json, path: Path, allowed: set<Path>, decode: Decoder)
    ensures |Show(j, path, allowed, decode)| == |Render(j)|
  {
    match j
    case Atom(_) =>
    case Str(body) => ShownKeepsLength(body, Some(path), allowed, decode);
    case Arr(_, items, _) => ShowItemsKeepLength(items, path, 0, allowed, decode);
    case Obj(_, members, _) => ShowMembersKeepLength(members, path, allowed, decode);
  }

  lemma {:induction false} ShowItemsKeepLength(items: Items, path: Path, index: nat, allowed: set<Path>,
      decode: Decoder)
    ensures |ShowItems(items, path, index, allowed, decode)| == |RenderItems(items)|
  {
    if items.Item? {
      ShowKeepsLength(items.item, path + [Index(index)], allowed, decode);
      ShowItemsKeepLength(items.more, path, index + 1, allowed, decode);
    }
  }

  lemma {:induction false} ShowMembersKeepLength(members: Members, path: Path, allowed: set<Path>, decode: Decoder)
    ensures |ShowMembers(members, path, allowed, decode)| == |RenderMembers(members)|
  {
    if members.Member? {
      ShownKeepsLength(members.key, None, allowed, decode);
      ShowKeepsLength(members.child, path + [Key(decode(members.key))], allowed, decode);
      ShowMembersKeepLength(members.more, path, allowed, decode);
    }
  }

  // ---------------------------------------------------------------- paths name tokens

  /** No dictionary repeats a key. */
  predicate Unique(v: Value) {
    match v
    case Scalar => true
    case Text(_) => true
    case List(values) => UniqueValues(values)
    case Dict(fields) => UniqueFields(fields)
  }

  predicate UniqueValues(values: Values) {
    values.OneValue? ==> Unique(values.value) && UniqueValues(values.more)
  }

  predicate UniqueFields(fields: Fields) {
    fields.Field? ==> !HasKey(fields.more, fields.key) && Unique(fields.value) && UniqueFields(fields.more)
  }

  function RawKeys(members: Members): seq<string> {
    if members.NoMembers? then [] else [members.key] + RawKeys(members.more)
  }

  /** Two keys of one object decode to the same text. */
  predicate KeyTwice(members: Members, decode: Decoder) {
    var keys := RawKeys(members);
    exists i, k :: 0 <= i < k < |keys| && decode(keys[i]) == decode(keys[k])
  }

  /** Some object of the document, at any depth, has a key twice. */
  predicate Repeats(j: Json, decode: Decoder) {
    match j
    case Atom(_) => false
    case Str(_) => false
    case Arr(_, items, _) => RepeatsInItems(items, decode)
    case Obj(_, members, _) => KeyTwice(members, decode) || RepeatsInMembers(members, decode)
  }

  predicate RepeatsInItems(items: Items, decode: Decoder) {
    items.Item? && (Repeats(items.item, decode) || RepeatsInItems(items.more, decode))
  }

  predicate RepeatsInMembers(members: Members, decode: Decoder) {
    members.Member? && (Repeats(members.child, decode) || RepeatsInMembers(members.more, decode))
  }

  predicate HasRawKey(members: Members, decode: Decoder, key: string) {
    exists k :: 0 <= k < |RawKeys(members)| && decode(RawKeys(members)[k]) == key
  }

  lemma KeyTwiceSplits(members: Members, decode: Decoder)
    requires members.Member?
    ensures KeyTwice(members, decode) <==>
      HasRawKey(members.more, decode, decode(members.key)) || KeyTwice(members.more, decode)
  {
    var keys, rest := RawKeys(members), RawKeys(members.more);
    assert keys[1..] == rest && forall k :: 0 <= k < |rest| ==> rest[k] == keys[k + 1];
    if HasRawKey(members.more, decode, decode(members.key)) {
      var k :| 0 <= k < |rest| && decode(rest[k]) == decode(members.key);
      assert decode(keys[0]) == decode(keys[k + 1]);
    } else if KeyTwice(members.more, decode) {
      var i, k :| 0 <= i < k < |rest| && decode(rest[i]) == decode(rest[k]);
      assert decode(keys[i + 1]) == decode(keys[k + 1]);
    }
  }

  /** The loaded fields have the decoded keys of the members. */
  lemma {:induction false} LoadedKeys(members: Members, decode: Decoder, key: string)
    requires LoadMembers(members, decode).Some?
    ensures HasKey(LoadMembers(members, decode).value, key) <==> HasRawKey(members, decode, key)
  {
    if members.Member? {
      LoadedKeys(members.more, decode, key);
      var keys, rest := RawKeys(members), RawKeys(members.more);
      assert forall k :: 0 <= k < |rest| ==> rest[k] == keys[k + 1];
      if HasRawKey(members.more, decode, key) {
        var k :| 0 <= k < |rest| && decode(rest[k]) == key;
        assert decode(keys[k + 1]) == key;
      }
      if decode(keys[0]) == key {
        assert HasRawKey(members, decode, key);
      }
    }
  }

  /** A document is refused exactly if some object in it has a key twice. */
  lemma {:induction false} LoadRefusesExactly(j: Json, decode: Decoder)
    ensures Load(j, decode).None? <==> Repeats(j, decode)
  {
    match j
    case Atom(_) =>
    case Str(_) =>
    case Arr(_, items, _) => LoadItemsRefuse(items, decode);
    case Obj(_, members, _) => LoadMembersRefuse(members, decode);
  }

  lemma {:induction false} LoadItemsRefuse(items: Items, decode: Decoder)
    ensures LoadItems(items, decode).None? <==> RepeatsInItems(items, decode)
  {
    if items.Item? {
      LoadRefusesExactly(items.item, decode);
      LoadItemsRefuse(items.more, decode);
    }
  }

  lemma {:induction false} LoadMembersRefuse(members: Members, decode: Decoder)
    ensures LoadMembers(members, decode).None? <==> KeyTwice(members, decode) || RepeatsInMembers(members, decode)
  {
    if members.Member? {
      LoadRefusesExactly(members.child, decode);
      LoadMembersRefuse(members.more, decode);
      KeyTwiceSplits(members, decode);
      hide KeyTwice, HasRawKey;
      if LoadMembers(members.more, decode).Some? {
        LoadedKeys(members.more, decode, decode(members.key));
      }
    }
  }

  lemma {:induction false} LoadIsUnique(j: Json, decode: Decoder)
    ensures var v := Load(j, decode); v.Some? ==> Unique(v.value)
  {
    match j
    case Atom(_) =>
    case Str(_) =>
    case Arr(_, items, _) => LoadItemsAreUnique(items, decode);
    case Obj(_, members, _) => LoadMembersAreUnique(members, decode);
  }

  lemma {:induction false} LoadItemsAreUnique(items: Items, decode: Decoder)
    ensures var v := LoadItems(items, decode); v.Some? ==> UniqueValues(v.value)
  {
    if items.Item? {
      LoadIsUnique(items.item, decode);
      LoadItemsAreUnique(items.more, decode);
    }
  }

  lemma {:induction false} LoadMembersAreUnique(members: Members, decode: Decoder)
    ensures var v := LoadMembers(members, decode); v.Some? ==> UniqueFields(v.value)
  {
    if members.Member? {
      LoadIsUnique(members.child, decode);
      LoadMembersAreUnique(members.more, decode);
    }
  }

  predicate HasPath(calls: seq<Call>, p: Path) {
    exists k :: 0 <= k < |calls| && calls[k].path == Some(p)
  }

  /** No two calls carry the same path. */
  predicate Distinct(calls: seq<Call>) {
    forall a, b :: 0 <= a < b < |calls| && calls[a].path.Some? ==> calls[a].path != calls[b].path
  }

  lemma DistinctJoin(a: seq<Call>, b: seq<Call>)
    requires Distinct(a) && Distinct(b)
    requires forall p :: HasPath(a, p) ==> !HasPath(b, p)
    ensures Distinct(a + b)
  {
    var c := a + b;
    forall i, k | 0 <= i < k < |c| && c[i].path.Some?
      ensures c[i].path != c[k].path
    {
      if i < |a| <= k {
        assert HasPath(a, c[i].path.value);
        assert c[k] == b[k - |a|];
      } else if |a| <= i {
        assert c[i] == b[i - |a|] && c[k] == b[k - |a|];
      }
    }
  }

  lemma HasPathJoin(a: seq<Call>, b: seq<Call>, p: Path)
    requires HasPath(a + b, p)
    ensures HasPath(a, p) || HasPath(b, p)
  {
    var k :| 0 <= k < |a + b| && (a + b)[k].path == Some(p);
    if k >= |a| {
      assert b[k - |a|].path == Some(p);
    }
  }

  /** Paths met below `path` extend it. */
  lemma {:induction false} CallsExtend(v: Value, path: Path, p: Path)
    requires HasPath(Calls(v, path), p)
    ensures |p| >= |path| && p[..|path|] == path
    decreases v, 0
  {
    match v
    case Text(_) =>
    case List(values) =>
      ListCallsExtend(values, path, 0, p);
    case Dict(fields) =>
      DictCallsExtend(fields, path, p);
  }

  lemma {:induction false} ListCallsExtend(values: Values, path: Path, index: nat, p: Path)
    requires HasPath(ListCalls(values, path, index), p)
    ensures |p| > |path| && p[..|path|] == path
    ensures p[|path|].Index? && p[|path|].index >= index
    decreases values, 0
  {
    if values.OneValue? {
      var inner := path + [Index(index)];
      HasPathJoin(Calls(values.value, inner), ListCalls(values.more, path, index + 1), p);
      if HasPath(Calls(values.value, inner), p) {
        CallsExtend(values.value, inner, p);
      } else {
        ListCallsExtend(values.more, path, index + 1, p);
      }
    }
  }

  lemma {:induction false} DictCallsExtend(fields: Fields, path: Path, p: Path)
    requires HasPath(DictCalls(fields, path), p)
    ensures |p| > |path| && p[..|path|] == path
    ensures p[|path|].Key? && HasKey(fields, p[|path|].key)
    decreases fields, 0
  {
    if fields.Field? {
      HasPathJoin(FieldCalls(fields.key, fields.value, path), DictCalls(fields.more, path), p);
      if HasPath(FieldCalls(fields.key, fields.value, path), p) {
        FieldCallsExtend(fields.key, fields.value, path, p);
      } else {
        DictCallsExtend(fields.more, path, p);
      }
    }
  }

  lemma {:induction false} FieldCallsExtend(key: string, value: Value, path: Path, p: Path)
    requires HasPath(FieldCalls(key, value, path), p)
    ensures |p| > |path| && p[..|path|] == path && p[|path|] == Key(key)
    decreases value, 1
  {
    var inner := path + [Key(key)];
    HasPathJoin([Call(key, None)], Calls(value, inner), p);
    assert !HasPath([Call(key, None)], p);
    CallsExtend(value, inner, p);
  }

  /** In a document without repeated keys each path names at most one token. */
  lemma {:induction false} PathsAreDistinct(v: Value, path: Path)
    requires Unique(v)
    ensures Distinct(Calls(v, path))
  {
    match v
    case Scalar =>
    case Text(_) =>
    case List(values) => ListPathsAreDistinct(values, path, 0);
    case Dict(fields) => DictPathsAreDistinct(fields, path);
  }

  lemma {:induction false} ListPathsAreDistinct(values: Values, path: Path, index: nat)
    requires UniqueValues(values)
    ensures Distinct(ListCalls(values, path, index))
  {
    if values.OneValue? {
      var inner := path + [Index(index)];
      var first, rest := Calls(values.value, inner), ListCalls(values.more, path, index + 1);
      PathsAreDistinct(values.value, inner);
      ListPathsAreDistinct(values.more, path, index + 1);
      forall p | HasPath(first, p)
        ensures !HasPath(rest, p)
      {
        CallsExtend(values.value, inner, p);
        if HasPath(rest, p) {
          ListCallsExtend(values.more, path, index + 1, p);
        }
      }
      DistinctJoin(first, rest);
    }
  }

  lemma {:induction false} DictPathsAreDistinct(fields: Fields, path: Path)
    requires UniqueFields(fields)
    ensures Distinct(DictCalls(fields, path))
  {
    if fields.Field? {
      var first, rest := FieldCalls(fields.key, fields.value, path), DictCalls(fields.more, path);
      PathsAreDistinct(fields.value, path + [Key(fields.key)]);
      DistinctJoin([Call(fields.key, None)], Calls(fields.value, path + [Key(fields.key)]));
      DictPathsAreDistinct(fields.more, path);
      forall p | HasPath(first, p)
        ensures !HasPath(rest, p)
      {
        FieldCallsExtend(fields.key, fields.value, path, p);
        if HasPath(rest, p) {
          DictCallsExtend(fields.more, path, p);
        }
      }
      DistinctJoin(first, rest);
    }
  }

  // ---------------------------------------------------------------- what is allowed

  lemma {:induction false} AbsentFieldHasNoValue(fields: Fields, key: string)
    ensures GetField(fields, key).Some? <==> HasKey(fields, key)
  {
    if fields.Field? {
      AbsentFieldHasNoValue(fields.more, key);
    }
  }

  /** The group holds a retained source under this identifier. */
  predicate Holds(group: Option<Value>, id: string, retained: Retained) {
    group.Some? && Get(group.value, id).Some? && retained(Get(group.value, id).value, id)
  }

  lemma {:induction false} FieldPathsAreExact(fields: Fields, path: Path, retained: Retained, p: Path)
    requires UniqueFields(fields)
    ensures p in FieldPaths(fields, path, retained) <==>
      exists id :: Holds(Some(Dict(fields)), id, retained) && p == path + [Key(id), Key("text")]
  {
    if fields.Field? {
      FieldPathsAreExact(fields.more, path, retained, p);
      AbsentFieldHasNoValue(fields.more, fields.key);
      forall id
        ensures Holds(Some(Dict(fields)), id, retained) <==>
          if id == fields.key then retained(fields.value, id) else Holds(Some(Dict(fields.more)), id, retained)
      {
      }
      hide Holds;
      if p in FieldPaths(fields.more, path, retained) {
        var id :| Holds(Some(Dict(fields.more)), id, retained) && p == path + [Key(id), Key("text")];
        assert id == fields.key || Holds(Some(Dict(fields)), id, retained);
      }
    }
  }

  lemma SourcePathsAreExact(group: Option<Value>, path: Path, retained: Retained, p: Path)
    requires group.Some? ==> Unique(group.value)
    ensures p in SourcePaths(group, path, retained) <==>
      exists id :: Holds(group, id, retained) && p == path + [Key(id), Key("text")]
  {
    if group.Some? && group.value.Dict? {
      FieldPathsAreExact(group.value.fields, path, retained, p);
    }
  }

  /** `groups[operation]`. */
  function Group(groups: Option<Value>, operation: string): Option<Value> {
    if groups.Some? then Get(groups.value, operation) else None
  }

  lemma {:induction false} OperationPathsAreExact(groups: Fields, retained: Retained, p: Path)
    requires UniqueFields(groups)
    ensures p in OperationPaths(groups, retained) <==>
      exists operation, id :: Holds(GetField(groups, operation), id, retained)
        && p == [Key("operationSources"), Key(operation)] + [Key(id), Key("text")]
  {
    if groups.Field? {
      var first := [Key("operationSources"), Key(groups.key)];
      OperationPathsAreExact(groups.more, retained, p);
      SourcePathsAreExact(Some(groups.value), first, retained, p);
      AbsentFieldHasNoValue(groups.more, groups.key);
      assert GetField(groups, groups.key) == Some(groups.value);
      assert forall o | o != groups.key :: GetField(groups, o) == GetField(groups.more, o);
      assert forall id :: !Holds(None, id, retained);
      hide Holds, GetField;
      if p in OperationPaths(groups.more, retained) {
        var operation, id :| Holds(GetField(groups.more, operation), id, retained)
          && p == [Key("operationSources"), Key(operation)] + [Key(id), Key("text")];
        assert operation != groups.key;
        assert Holds(GetField(groups, operation), id, retained);
      }
      if p in SourcePaths(Some(groups.value), first, retained) {
        var id :| Holds(Some(groups.value), id, retained) && p == first + [Key(id), Key("text")];
        assert Holds(GetField(groups, groups.key), id, retained);
      }
    }
  }

  lemma {:induction false} FieldIsUnique(fields: Fields, key: string)
    requires UniqueFields(fields) && GetField(fields, key).Some?
    ensures Unique(GetField(fields, key).value)
  {
    if fields.key != key {
      FieldIsUnique(fields.more, key);
    }
  }

  /**
   * A path may hold any language exactly when the publication declares the matching
   * producer and the path is the text of a retained source, in its own group.
   */
  lemma AllowedIsExact(v: Value, kind: Option<string>, retained: Retained, p: Path)
    requires Unique(v)
    ensures p in Allowed(v, kind, retained) <==>
      || (kind == Some("service") && Get(v, "renderer") == Some(Text("codeclew-documentation-html/1.16")) &&
           ( || (exists id :: Holds(Get(v, "sources"), id, retained) && p == [Key("sources")] + [Key(id), Key("text")])
             || (exists operation, id :: Holds(Group(Get(v, "operationSources"), operation), id, retained)
                   && p == [Key("operationSources"), Key(operation)] + [Key(id), Key("text")])))
      || (kind == Some("bindings") && Get(v, "schema") == Some(Text("codeclew-documentation-bindings/1.4")) &&
           exists id :: Holds(Get(v, "retainedSources"), id, retained)
             && p == [Key("retainedSources")] + [Key(id), Key("text")])
  {
    hide Unique;
    forall key
      ensures Get(v, key).Some? ==> Unique(Get(v, key).value)
    {
      PartIsUnique(v, key);
    }
    SourcePathsAreExact(Get(v, "sources"), [Key("sources")], retained, p);
    SourcePathsAreExact(Get(v, "retainedSources"), [Key("retainedSources")], retained, p);
    var groups := Get(v, "operationSources");
    GroupPathsAreExact(groups, retained, p);
    hide SourcePaths, OperationPaths, Holds, Get, Group;
  }

  lemma PartIsUnique(v: Value, key: string)
    requires Unique(v)
    ensures Get(v, key).Some? ==> Unique(Get(v, key).value)
  {
    if Get(v, key).Some? {
      FieldIsUnique(v.fields, key);
    }
  }

  lemma GroupPathsAreExact(groups: Option<Value>, retained: Retained, p: Path)
    requires groups.Some? ==> Unique(groups.value)
    ensures (groups.Some? && groups.value.Dict? && p in OperationPaths(groups.value.fields, retained)) <==>
      exists operation, id :: Holds(Group(groups, operation), id, retained)
        && p == [Key("operationSources"), Key(operation)] + [Key(id), Key("text")]
  {
    if groups.Some? && groups.value.Dict? {
      OperationPathsAreExact(groups.value.fields, retained, p);
      assert forall o :: Group(groups, o) == GetField(groups.value.fields, o);
      hide OperationPaths, Holds, Group;
    }
  }
}
