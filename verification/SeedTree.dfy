/** Directory trees of the cold-cache store, their scan into rows and what the rows
    determine (scripts/cold_cache_authority.py). A directory is the list of its
    entries in the sorted order in which every function visits them. */
module SeedTree {
  import opened Base

  const MAX_ENTRIES := 750_000
  const MAX_BYTES := 48 * 1024 * 1024 * 1024
  const SEED_MANIFEST := "SEED.json"
  const VOLATILE_NAMES := {".package-cache", "gc.properties"}
  const VOLATILE_SUFFIXES := {".lock", ".lck"}
  const VOLATILE_DIRECTORIES := {".gradle/.tmp", ".gradle/daemon", ".gradle/workers"}

  const O400 := 256
  const O500 := 320
  const O600 := 384
  const O700 := 448

  /** File contents, each byte string once: the canonical text of a seed manifest as that
      manifest, and every byte string that is no such text as it is. */
  datatype Data = Bytes(bytes: seq<bv8>) | ManifestText(manifest: Manifest) {

    function Size(): nat {
      match this
      case Bytes(bytes) => |bytes|
      case ManifestText(m) => MANIFEST_FRAME + Digits(m.apparentBytes) + Digits(m.entries)
    }
  }

  /** The length of a manifest's canonical text without its two numbers. */
  const MANIFEST_FRAME := 160

  /** Decimal digits of a number. */
  function Digits(n: nat): nat {
    if n < 10 then 1 else 1 + Digits(n / 10)
  }

  /** SHA-256 values are free constructors: equal digests mean equal inputs. */
  datatype FileDigest = FileSha(data: Data)
  datatype ContentDigest = ContentSha(rows: seq<Row>)

  datatype Row =
    | DirectoryRow(path: string)
    | FileRow(path: string, executable: bool, sha256: FileDigest, size: nat)

  datatype Manifest = Manifest(apparentBytes: nat, contentDigest: ContentDigest, entries: nat)

  datatype Node =
    | File(mode: nat, links: nat, data: Data)
    | Dir(mode: nat, entries: seq<Entry>)
    | Symlink
    | Special

  datatype Entry = Entry(name: string, node: Node)

  /** The mode sets a scan may insist on; None means any mode. */
  datatype Policy = Policy(directoryModes: Option<set<nat>>, fileModes: Option<set<nat>>)

  predicate Allows(modes: Option<set<nat>>, mode: nat) {
    modes.Some? ==> mode in modes.value
  }

  /** mode & 0o111 is not zero. */
  predicate Executable(mode: nat) {
    mode / 64 % 2 == 1 || mode / 8 % 2 == 1 || mode % 2 == 1
  }

  predicate SafeName(name: string) {
    name != "" && name != "." && name != ".." && '/' !in name && '\0' !in name
  }

  function Join(prefix: string, name: string): string {
    if prefix == "" then name else prefix + "/" + name
  }

  /** Code-point order, as Python sorts names. */
  predicate Less(a: string, b: string) {
    |b| != 0 && (|a| == 0 || a[0] < b[0] || (a[0] == b[0] && Less(a[1..], b[1..])))
  }

  /** The order is total: of two names exactly one comes first, unless they are equal. */
  lemma {:induction false} LessIsTotal(a: string, b: string)
    ensures a == b || Less(a, b) || Less(b, a)
    ensures Less(a, b) ==> a != b && !Less(b, a)
  {
    if a != "" && b != "" && a[0] == b[0] {
      LessIsTotal(a[1..], b[1..]);
      assert a == [a[0]] + a[1..] && b == [b[0]] + b[1..];
    }
  }

  lemma {:induction false} LessIsTransitive(a: string, b: string, c: string)
    requires Less(a, b) && Less(b, c)
    ensures Less(a, c)
  {
    if a != "" && a[0] == b[0] && b[0] == c[0] {
      LessIsTransitive(a[1..], b[1..], c[1..]);
    }
  }

  /** By octal digits: someone may execute exactly if a digit for owner, group or others is odd. */
  lemma ExecutableByDigits(special: nat, owner: nat, group: nat, others: nat)
    requires owner < 8 && group < 8 && others < 8
    ensures Executable(512 * special + 64 * owner + 8 * group + others) <==>
      owner % 2 == 1 || group % 2 == 1 || others % 2 == 1
  {
    var mode := 512 * special + 64 * owner + 8 * group + others;
    assert mode / 64 == 8 * special + owner;
    assert mode / 8 == 8 * (8 * special + owner) + group;
    SameParity(special, owner);
    SameParity(8 * special + owner, group);
    SameParity(64 * special + 8 * owner + group, others);
  }

  lemma SameParity(eights: nat, digit: nat)
    ensures (8 * eights + digit) % 2 == digit % 2
  {
  }

  function Power(n: nat): nat {
    if n == 0 then 1 else 10 * Power(n - 1)
  }

  lemma {:induction false} DigitsAreExact(n: nat)
    ensures n < Power(Digits(n)) && (n > 0 ==> Power(Digits(n) - 1) <= n)
  {
    if n < 10 {
      assert Power(1) == 10 * Power(0);
    } else {
      DigitsAreExact(n / 10);
    }
  }

  /** A directory lists every name once, in ascending order. */
  ghost predicate Sorted(es: seq<Entry>) {
    forall i, j :: 0 <= i < j < |es| ==> Less(es[i].name, es[j].name)
  }

  ghost predicate WellFormed(es: seq<Entry>)
    decreases es
  {
    Sorted(es) && forall e :: e in es && e.node.Dir? ==> WellFormed(e.node.entries)
  }

  // ---------------------------------------------------------------- scanning

  /** What the scan demands of every entry below the root. */
  predicate Acceptable(es: seq<Entry>, p: Policy)
    decreases es
  {
    if es == [] then true else AcceptableEntry(es[0], p) && Acceptable(es[1..], p)
  }

  predicate AcceptableEntry(e: Entry, p: Policy)
    decreases e
  {
    SafeName(e.name) &&
    match e.node
    case File(mode, links, _) => links == 1 && Allows(p.fileModes, mode)
    case Dir(mode, entries) => Allows(p.directoryModes, mode) && Acceptable(entries, p)
    case _ => false
  }

  /** The rows of a directory: each entry before its children, names ascending. */
  function Rows(es: seq<Entry>, prefix: string): seq<Row>
    decreases es
  {
    if es == [] then [] else EntryRows(es[0], prefix) + Rows(es[1..], prefix)
  }

  function EntryRows(e: Entry, prefix: string): seq<Row>
    decreases e
  {
    match e.node
    case File(mode, _, data) => [FileRow(Join(prefix, e.name), Executable(mode), FileSha(data), data.Size())]
    case Dir(_, entries) => [DirectoryRow(Join(prefix, e.name))] + Rows(entries, Join(prefix, e.name))
    case _ => []
  }

  function Size(es: seq<Entry>): nat
    decreases es
  {
    if es == [] then 0 else EntrySize(es[0]) + Size(es[1..])
  }

  function EntrySize(e: Entry): nat
    decreases e
  {
    match e.node
    case File(_, _, data) => data.Size()
    case Dir(_, entries) => Size(entries)
    case _ => 0
  }

  /** The entries a root scan looks at. */
  function Visible(es: seq<Entry>, excluded: set<string>): seq<Entry> {
    if es == [] then []
    else (if es[0].name in excluded then [] else [es[0]]) + Visible(es[1..], excluded)
  }

  /** The closed form of a scan: the whole row list and byte total, or a refusal. */
  function ScanTree(root: Node, excluded: set<string>, rootModes: Option<set<nat>>, p: Policy)
    : Option<(seq<Row>, nat)>
  {
    if !root.Dir? || !Allows(rootModes, root.mode) then None
    else
      var es := Visible(root.entries, excluded);
      if Acceptable(es, p) && |Rows(es, "")| <= MAX_ENTRIES && Size(es) <= MAX_BYTES
      then Some((Rows(es, ""), Size(es)))
      else None
  }

  /** The running totals of a scan. */
  datatype Tally = Tally(rows: seq<Row>, bytes: nat, entries: nat)

  /** What visiting a directory turns a tally into, when nothing is refused. */
  function Visited(t: Tally, es: seq<Entry>, prefix: string): Tally {
    Tally(t.rows + Rows(es, prefix), t.bytes + Size(es), t.entries + |Rows(es, prefix)|)
  }

  predicate Bounded(t: Tally) {
    t.entries <= MAX_ENTRIES && t.bytes <= MAX_BYTES
  }

  /** Rows, size and acceptance all split at a cut of the listing. */
  lemma {:induction false} Split(a: seq<Entry>, b: seq<Entry>, prefix: string, p: Policy)
    ensures Rows(a + b, prefix) == Rows(a, prefix) + Rows(b, prefix)
    ensures Size(a + b) == Size(a) + Size(b)
    ensures Acceptable(a + b, p) == (Acceptable(a, p) && Acceptable(b, p))
  {
    if a == [] {
      assert a + b == b;
    } else {
      assert (a + b)[0] == a[0] && (a + b)[1..] == a[1..] + b;
      Split(a[1..], b, prefix, p);
    }
  }

  lemma SplitLast(es: seq<Entry>, i: nat, prefix: string, p: Policy)
    requires i < |es|
    ensures Rows(es[..i + 1], prefix) == Rows(es[..i], prefix) + EntryRows(es[i], prefix)
    ensures Size(es[..i + 1]) == Size(es[..i]) + EntrySize(es[i])
    ensures Acceptable(es[..i + 1], p) == (Acceptable(es[..i], p) && AcceptableEntry(es[i], p))
  {
    assert es[..i + 1] == es[..i] + [es[i]];
    Split(es[..i], [es[i]], prefix, p);
    assert Rows([es[i]], prefix) == EntryRows(es[i], prefix);
  }

  lemma SplitTotal(es: seq<Entry>, i: nat, prefix: string, p: Policy)
    requires i <= |es|
    ensures |Rows(es[..i], prefix)| <= |Rows(es, prefix)| && Size(es[..i]) <= Size(es)
    ensures Acceptable(es, p) ==> Acceptable(es[..i], p)
  {
    assert es == es[..i] + es[i..];
    Split(es[..i], es[i..], prefix, p);
  }

  /** What one entry turns a tally into, when nothing is refused. */
  function EntryVisited(t: Tally, e: Entry, prefix: string): Tally {
    Tally(t.rows + EntryRows(e, prefix), t.bytes + EntrySize(e), t.entries + |EntryRows(e, prefix)|)
  }

  lemma EntryHasRow(e: Entry, prefix: string, p: Policy)
    ensures AcceptableEntry(e, p) ==> |EntryRows(e, prefix)| >= 1
  {
  }

  /** The visit of one entry tests the entry and byte limits as it goes. */
  method VisitEntry(e: Entry, prefix: string, p: Policy, t: Tally) returns (r: Option<Tally>)
    requires Bounded(t)
    ensures r == if AcceptableEntry(e, p) && Bounded(EntryVisited(t, e, prefix))
                 then Some(EntryVisited(t, e, prefix)) else None
    decreases e
  {
    if !SafeName(e.name) {
      return None;
    }
    if t.entries == MAX_ENTRIES {
      EntryHasRow(e, prefix, p);
      return None;
    }
    var path := Join(prefix, e.name);
    match e.node {
      case File(mode, links, data) =>
        if links != 1 || !Allows(p.fileModes, mode) || t.bytes + data.Size() > MAX_BYTES {
          return None;
        }
        return Some(Tally(t.rows + [FileRow(path, Executable(mode), FileSha(data), data.Size())],
                          t.bytes + data.Size(), t.entries + 1));
      case Dir(mode, entries) =>
        if !Allows(p.directoryModes, mode) {
          return None;
        }
        assert t.rows + ([DirectoryRow(path)] + Rows(entries, path))
            == t.rows + [DirectoryRow(path)] + Rows(entries, path);
        r := Visit(entries, path, p, Tally(t.rows + [DirectoryRow(path)], t.bytes, t.entries + 1));
      case _ =>
        return None;
    }
  }

  /** The visit of one directory in listing order refuses exactly when the closed
      form does, although the limits are only ever tested on the running totals. */
  method Visit(es: seq<Entry>, prefix: string, p: Policy, t: Tally) returns (r: Option<Tally>)
    requires Bounded(t)
    ensures r == if Acceptable(es, p) && Bounded(Visited(t, es, prefix)) then Some(Visited(t, es, prefix)) else None
    decreases es
  {
    var tally := t;
    var i := 0;
    assert t.rows + [] == t.rows;
    while i < |es|
      invariant i <= |es| && Acceptable(es[..i], p) && Bounded(tally)
      invariant tally == Visited(t, es[..i], prefix)
    {
      SplitLast(es, i, prefix, p);
      SplitTotal(es, i + 1, prefix, p);
      var below := VisitEntry(es[i], prefix, p, tally);
      assert EntryVisited(tally, es[i], prefix) == Visited(t, es[..i + 1], prefix);
      if below.None? {
        return None;
      }
      tally := below.value;
      i := i + 1;
    }
    assert es[..i] == es;
    return Some(tally);
  }

  method VisibleEntries(es: seq<Entry>, excluded: set<string>) returns (kept: seq<Entry>)
    ensures kept == Visible(es, excluded)
  {
    kept := [];
    var i := |es|;
    while i > 0
      invariant 0 <= i <= |es| && kept == Visible(es[i..], excluded)
    {
      i := i - 1;
      assert es[i..][1..] == es[i + 1..];
      if es[i].name !in excluded {
        kept := [es[i]] + kept;
      }
    }
    assert es[0..] == es;
  }

  /** The scan of a root directory, computed entry by entry, is its closed form. */
  method ScanTreeFd(root: Node, excluded: set<string>, rootModes: Option<set<nat>>, p: Policy)
    returns (r: Option<(seq<Row>, nat)>)
    ensures r == ScanTree(root, excluded, rootModes, p)
  {
    if !root.Dir? || !Allows(rootModes, root.mode) {
      return None;
    }
    var es := VisibleEntries(root.entries, excluded);
    var t := Visit(es, "", p, Tally([], 0, 0));
    assert [] + Rows(es, "") == Rows(es, "");
    if t.None? {
      return None;
    }
    return Some((t.value.rows, t.value.bytes));
  }

  // -------------------------------------------------- rows determine the tree

  /** Everything a seed fixes about its entries: names, structure, contents and
      executable flags. Permission bits and link counts are forgotten. */
  function Erase(es: seq<Entry>): seq<Entry>
    decreases es
  {
    if es == [] then [] else [EraseEntry(es[0])] + Erase(es[1..])
  }

  function EraseEntry(e: Entry): Entry
    decreases e
  {
    match e.node
    case File(mode, _, data) => Entry(e.name, File(if Executable(mode) then 73 else 0, 1, data))
    case Dir(_, entries) => Entry(e.name, Dir(0, Erase(entries)))
    case _ => e
  }

  /** The path lies strictly below the directory at `top`. */
  predicate Below(path: string, top: string) {
    |path| > |top| && path[..|top|] == top && path[|top|] == '/'
  }

  lemma {:induction false} RowsAreBelow(es: seq<Entry>, prefix: string, p: Policy)
    requires prefix != "" && Acceptable(es, p)
    ensures forall r :: r in Rows(es, prefix) ==> Below(r.path, prefix)
    decreases es
  {
    if es != [] {
      EntryRowsAreBelow(es[0], prefix, p);
      RowsAreBelow(es[1..], prefix, p);
    }
  }

  lemma {:induction false} EntryRowsAreBelow(e: Entry, prefix: string, p: Policy)
    requires prefix != "" && AcceptableEntry(e, p)
    ensures forall r :: r in EntryRows(e, prefix) ==> Below(r.path, prefix)
    decreases e
  {
    var path := Join(prefix, e.name);
    assert Below(path, prefix);
    if e.node.Dir? {
      RowsAreBelow(e.node.entries, path, p);
      forall r | r in EntryRows(e, prefix)
        ensures Below(r.path, prefix)
      {
        if r != DirectoryRow(path) {
          assert Below(r.path, path);
          assert r.path[..|prefix|] == r.path[..|path|][..|prefix|];
        }
      }
    }
  }

  /** Rows of a sibling never lie below a directory of another name. */
  lemma SiblingNotBelow(path: string, prefix: string, name: string, other: string)
    requires SafeName(name) && SafeName(other) && name != other
    requires path == Join(prefix, other) || Below(path, Join(prefix, other))
    ensures !Below(path, Join(prefix, name))
  {
    var a, b := Join(prefix, name), Join(prefix, other);
    var start := if prefix == "" then 0 else |prefix| + 1;
    assert a[start..] == name && b[start..] == other;
    assert path[..|b|] == b;
    if |name| < |other| {
      assert path[|a|] == b[|a|] == other[|name|];
    } else if |name| > |other| {
      assert a[|b|] == name[|other|];
      if |path| > |a| {
        assert path[..|a|][|b|] == '/';
      }
    } else {
      assert a != b;
    }
  }

  lemma {:induction false} RestNotBelow(es: seq<Entry>, prefix: string, name: string, p: Policy)
    requires Acceptable(es, p) && SafeName(name) && forall e :: e in es ==> e.name != name
    ensures forall r :: r in Rows(es, prefix) ==> !Below(r.path, Join(prefix, name))
  {
    if es != [] {
      var e := es[0];
      var path := Join(prefix, e.name);
      if e.node.Dir? {
        RowsAreBelow(e.node.entries, path, p);
      }
      forall r | r in EntryRows(e, prefix)
        ensures !Below(r.path, Join(prefix, name))
      {
        SiblingNotBelow(r.path, prefix, name, e.name);
      }
      RestNotBelow(es[1..], prefix, name, p);
    }
  }

  /** How many rows at the front lie below `top`. */
  function Leading(rows: seq<Row>, top: string): nat {
    if rows == [] || !Below(rows[0].path, top) then 0 else 1 + Leading(rows[1..], top)
  }

  lemma {:induction false} LeadingIsCut(a: seq<Row>, b: seq<Row>, top: string)
    requires forall r :: r in a ==> Below(r.path, top)
    requires forall r :: r in b ==> !Below(r.path, top)
    ensures Leading(a + b, top) == |a|
  {
    if a == [] {
      assert a + b == b;
    } else {
      assert (a + b)[0] == a[0] && (a + b)[1..] == a[1..] + b;
      LeadingIsCut(a[1..], b, top);
    }
  }

  /** A list can be cut in only one way into rows below `top` and the others. */
  lemma UniqueCut(a: seq<Row>, b: seq<Row>, c: seq<Row>, d: seq<Row>, top: string)
    requires a + b == c + d
    requires forall r :: r in a || r in c ==> Below(r.path, top)
    requires forall r :: r in b || r in d ==> !Below(r.path, top)
    ensures a == c && b == d
  {
    LeadingIsCut(a, b, top);
    LeadingIsCut(c, d, top);
    assert a == (a + b)[..|a|] && c == (c + d)[..|c|];
    assert b == (a + b)[|a|..] && d == (c + d)[|c|..];
  }

  lemma SortedTail(es: seq<Entry>)
    requires WellFormed(es) && es != []
    ensures WellFormed(es[1..]) && (forall e :: e in es[1..] ==> e.name != es[0].name)
  {
    forall e | e in es[1..]
      ensures e.name != es[0].name
    {
      LessIsTotal(e.name, e.name);
    }
  }

  /** Equal row lists begin with the same name and kind of entry. */
  lemma SameFirstEntry(a: seq<Entry>, b: seq<Entry>, prefix: string, p: Policy, q: Policy)
    requires a != [] && b != [] && Acceptable(a, p) && Acceptable(b, q)
    requires Rows(a, prefix) == Rows(b, prefix)
    ensures a[0].name == b[0].name && a[0].node.Dir? == b[0].node.Dir?
    ensures a[0].node.File? ==> EraseEntry(a[0]) == EraseEntry(b[0]) && Rows(a[1..], prefix) == Rows(b[1..], prefix)
  {
    var x, y := a[0], b[0];
    EntryHasRow(x, prefix, p);
    EntryHasRow(y, prefix, q);
    assert EntryRows(x, prefix)[0] == Rows(a, prefix)[0] == Rows(b, prefix)[0] == EntryRows(y, prefix)[0];
    JoinInjective(prefix, x.name, y.name);
    if x.node.File? {
      assert Rows(a, prefix)[1..] == Rows(a[1..], prefix);
      assert Rows(b, prefix)[1..] == Rows(b[1..], prefix);
    }
  }

  /** The rows of a directory at the head are those of its children, then the rest. */
  lemma DirectoryCut(a: seq<Entry>, prefix: string, p: Policy)
    requires a != [] && WellFormed(a) && Acceptable(a, p) && a[0].node.Dir?
    ensures var path := Join(prefix, a[0].name);
            && path != "" && Rows(a, prefix) != []
            && Rows(a, prefix)[1..] == Rows(a[0].node.entries, path) + Rows(a[1..], prefix)
            && (forall r :: r in Rows(a[0].node.entries, path) ==> Below(r.path, path))
            && (forall r :: r in Rows(a[1..], prefix) ==> !Below(r.path, path))
  {
    var path := Join(prefix, a[0].name);
    RowsAreBelow(a[0].node.entries, path, p);
    SortedTail(a);
    RestNotBelow(a[1..], prefix, a[0].name, p);
    assert Rows(a, prefix) == [DirectoryRow(path)] + Rows(a[0].node.entries, path) + Rows(a[1..], prefix);
  }

  /** The row list of a scan fixes the tree: two well-formed directories with
      the same rows have the same names, structure, contents and flags. */
  lemma {:induction false} RowsDetermineTree(a: seq<Entry>, b: seq<Entry>, prefix: string, p: Policy, q: Policy)
    requires WellFormed(a) && WellFormed(b) && Acceptable(a, p) && Acceptable(b, q)
    requires Rows(a, prefix) == Rows(b, prefix)
    ensures Erase(a) == Erase(b)
    decreases a
  {
    if a != [] {
      SameFirstEntry(a, b, prefix, p, q);
      SortedTail(a);
      SortedTail(b);
      if a[0].node.Dir? {
        var path := Join(prefix, a[0].name);
        DirectoryCut(a, prefix, p);
        DirectoryCut(b, prefix, q);
        UniqueCut(Rows(a[0].node.entries, path), Rows(a[1..], prefix),
                  Rows(b[0].node.entries, path), Rows(b[1..], prefix), path);
        RowsDetermineTree(a[0].node.entries, b[0].node.entries, path, p, q);
      }
      RowsDetermineTree(a[1..], b[1..], prefix, p, q);
    }
  }

  lemma JoinInjective(prefix: string, a: string, b: string)
    requires Join(prefix, a) == Join(prefix, b)
    ensures a == b
  {
    if prefix != "" {
      assert a == Join(prefix, a)[|prefix| + 1..];
      assert b == Join(prefix, b)[|prefix| + 1..];
    }
  }

  /** Conversely the rows see nothing but what Erase keeps. */
  lemma {:induction false} TreeDeterminesRows(a: seq<Entry>, b: seq<Entry>, prefix: string)
    requires Erase(a) == Erase(b)
    ensures Rows(a, prefix) == Rows(b, prefix) && Size(a) == Size(b)
    decreases a
  {
    if a != [] {
      assert b != [];
      var x, y := a[0], b[0];
      assert Erase(a)[0] == EraseEntry(x) && Erase(b)[0] == EraseEntry(y);
      assert Erase(a)[1..] == Erase(a[1..]) && Erase(b)[1..] == Erase(b[1..]);
      TreeDeterminesRows(a[1..], b[1..], prefix);
      if x.node.Dir? {
        TreeDeterminesRows(x.node.entries, y.node.entries, Join(prefix, x.name));
      }
    }
  }
}
