/** Turning a primed candidate into a sealed seed, checking one, and
    cloning one (scripts/cold_cache_authority.py). */
module SeedObject {
  import opened Base
  import opened SeedTree

  const ANY := Policy(None, None)
  const SEALED := Policy(Some({O500}), Some({O400, O500}))
  const WRITABLE := Policy(Some({O700}), Some({O600, O700}))

  // ------------------------------------------------------------ normalisation

  /** The last position of `c`, or -1. */
  function LastIndex(s: string, c: char): (i: int)
    ensures -1 <= i < |s|
    ensures i >= 0 ==> s[i] == c
    ensures forall j :: i < j < |s| ==> s[j] != c
  {
    if s == "" then -1
    else if s[|s| - 1] == c then |s| - 1
    else LastIndex(s[..|s| - 1], c)
  }

  /** pathlib's suffix: a leading or trailing dot does not start one. */
  function Suffix(name: string): string {
    var i := LastIndex(name, '.');
    if 0 < i < |name| - 1 then name[i..] else ""
  }

  predicate VolatileFile(name: string) {
    name in VOLATILE_NAMES || Suffix(name) in VOLATILE_SUFFIXES
  }

  /** Recursive removal only handles directories, files and links. */
  predicate Removable(es: seq<Entry>)
    decreases es
  {
    es == [] || (!es[0].node.Special? && (es[0].node.Dir? ==> Removable(es[0].node.entries)) && Removable(es[1..]))
  }

  /** Drop volatile files and directories and make every directory writable. */
  function Normalize(es: seq<Entry>, prefix: string): Option<seq<Entry>>
    decreases es
  {
    if es == [] then Some([])
    else
      var head :- NormalizeEntry(es[0], prefix);
      var tail :- Normalize(es[1..], prefix);
      Some(head + tail)
  }

  function NormalizeEntry(e: Entry, prefix: string): Option<seq<Entry>>
    decreases e
  {
    match e.node
    case Dir(_, entries) =>
      if Join(prefix, e.name) in VOLATILE_DIRECTORIES then
        if Removable(entries) then Some([]) else None
      else
        var below :- Normalize(entries, Join(prefix, e.name));
        Some([Entry(e.name, Dir(O700, below))])
    case File(_, _, _) =>
      if e.name == SEED_MANIFEST then None
      else if VolatileFile(e.name) then Some([])
      else Some([e])
    case _ => None
  }

  /** Normalising a normalised candidate changes nothing and never refuses. */
  lemma {:induction false} NormalizeIdempotent(es: seq<Entry>, prefix: string)
    requires Normalize(es, prefix).Some?
    ensures Normalize(Normalize(es, prefix).value, prefix) == Normalize(es, prefix)
    decreases es
  {
    if es != [] {
      var head := NormalizeEntry(es[0], prefix).value;
      var tail := Normalize(es[1..], prefix).value;
      NormalizeIdempotent(es[1..], prefix);
      if head == [] {
        assert head + tail == tail;
      } else {
        if es[0].node.Dir? {
          NormalizeIdempotent(es[0].node.entries, Join(prefix, es[0].name));
        }
        assert NormalizeEntry(head[0], prefix) == Some(head);
        assert (head + tail)[0] == head[0] && (head + tail)[1..] == tail;
      }
    }
  }

  /** Whatever sorts before every listed name sorts before every name kept. */
  lemma {:induction false} NormalizeAfter(es: seq<Entry>, prefix: string, name: string)
    requires Normalize(es, prefix).Some? && forall e :: e in es ==> Less(name, e.name)
    ensures forall e :: e in Normalize(es, prefix).value ==> Less(name, e.name)
  {
    if es != [] {
      NormalizeAfter(es[1..], prefix, name);
    }
  }

  lemma {:induction false} NormalizeWellFormed(es: seq<Entry>, prefix: string)
    requires Normalize(es, prefix).Some? && WellFormed(es)
    ensures WellFormed(Normalize(es, prefix).value)
    decreases es
  {
    if es != [] {
      var head := NormalizeEntry(es[0], prefix).value;
      var tail := Normalize(es[1..], prefix).value;
      SortedTail(es);
      NormalizeWellFormed(es[1..], prefix);
      NormalizeAfter(es[1..], prefix, es[0].name);
      if head != [] && es[0].node.Dir? {
        NormalizeWellFormed(es[0].node.entries, Join(prefix, es[0].name));
      }
    }
  }

  /** No volatile file, volatile directory, link or nested manifest is left. */
  ghost predicate Normal(es: seq<Entry>, prefix: string)
    decreases es
  {
    forall e :: e in es ==>
      match e.node
      case File(_, _, _) => e.name != SEED_MANIFEST && !VolatileFile(e.name)
      case Dir(mode, entries) => mode == O700 && Join(prefix, e.name) !in VOLATILE_DIRECTORIES &&
        Normal(entries, Join(prefix, e.name))
      case _ => false
  }

  lemma {:induction false} NormalizeIsNormal(es: seq<Entry>, prefix: string)
    requires Normalize(es, prefix).Some?
    ensures Normal(Normalize(es, prefix).value, prefix)
    decreases es
  {
    if es != [] {
      NormalizeIsNormal(es[1..], prefix);
      if es[0].node.Dir? && Join(prefix, es[0].name) !in VOLATILE_DIRECTORIES {
        NormalizeIsNormal(es[0].node.entries, Join(prefix, es[0].name));
      }
    }
  }

  // ------------------------------------------------------ sealing and unsealing

  function FileMode(mode: nat, executable: nat, plain: nat): nat {
    if Executable(mode) then executable else plain
  }

  /** Set every mode below a root: directories to `directory`, files by flag. */
  function Chmod(es: seq<Entry>, directory: nat, executable: nat, plain: nat): seq<Entry>
    decreases es
  {
    if es == [] then []
    else [Entry(es[0].name, ChmodNode(es[0].node, directory, executable, plain))]
         + Chmod(es[1..], directory, executable, plain)
  }

  function ChmodNode(n: Node, directory: nat, executable: nat, plain: nat): Node
    decreases n
  {
    match n
    case File(mode, links, data) => File(FileMode(mode, executable, plain), links, data)
    case Dir(_, entries) => Dir(directory, Chmod(entries, directory, executable, plain))
    case _ => n
  }

  function SealChildren(es: seq<Entry>): seq<Entry> {
    Chmod(es, O500, O500, O400)
  }

  function MakeWritable(es: seq<Entry>): seq<Entry> {
    Chmod(es, O700, O700, O600)
  }

  /** Changing modes without changing executable flags keeps rows and size. */
  lemma {:induction false} ChmodKeepsRows(es: seq<Entry>, prefix: string, d: nat, x: nat, f: nat)
    requires Executable(x) && !Executable(f)
    ensures Rows(Chmod(es, d, x, f), prefix) == Rows(es, prefix)
    ensures Size(Chmod(es, d, x, f)) == Size(es)
    decreases es
  {
    if es != [] {
      var c := Chmod(es, d, x, f);
      assert c[1..] == Chmod(es[1..], d, x, f);
      ChmodKeepsRows(es[1..], prefix, d, x, f);
      if es[0].node.Dir? {
        ChmodKeepsRows(es[0].node.entries, Join(prefix, es[0].name), d, x, f);
      }
    }
  }

  lemma {:induction false} ChmodAcceptable(es: seq<Entry>, p: Policy, d: nat, x: nat, f: nat)
    requires Acceptable(es, p)
    ensures Acceptable(Chmod(es, d, x, f), Policy(Some({d}), Some({f, x})))
    decreases es
  {
    if es != [] {
      assert Chmod(es, d, x, f)[1..] == Chmod(es[1..], d, x, f);
      ChmodAcceptable(es[1..], p, d, x, f);
      if es[0].node.Dir? {
        ChmodAcceptable(es[0].node.entries, p, d, x, f);
      }
    }
  }

  lemma {:induction false} ChmodVisible(es: seq<Entry>, excluded: set<string>, d: nat, x: nat, f: nat)
    ensures Visible(Chmod(es, d, x, f), excluded) == Chmod(Visible(es, excluded), d, x, f)
  {
    if es != [] {
      assert Chmod(es, d, x, f)[1..] == Chmod(es[1..], d, x, f);
      ChmodVisible(es[1..], excluded, d, x, f);
      var v := Visible(es[1..], excluded);
      if es[0].name in excluded {
        assert [] + v == v && [] + Chmod(v, d, x, f) == Chmod(v, d, x, f);
      } else {
        assert ([es[0]] + v)[1..] == v;
      }
    }
  }

  /** Sealing twice, or sealing what was made writable, is sealing once. */
  lemma {:induction false} ChmodTwice(es: seq<Entry>, d: nat, x: nat, f: nat, d': nat, x': nat, f': nat)
    requires Executable(x) && !Executable(f)
    ensures Chmod(Chmod(es, d, x, f), d', x', f') == Chmod(es, d', x', f')
    decreases es
  {
    if es != [] {
      assert Chmod(es, d, x, f)[1..] == Chmod(es[1..], d, x, f);
      ChmodTwice(es[1..], d, x, f, d', x', f');
      if es[0].node.Dir? {
        ChmodTwice(es[0].node.entries, d, x, f, d', x', f');
      }
    }
  }

  // --------------------------------------------------------------- the manifest

  function ManifestOf(rows: seq<Row>, size: nat): Manifest {
    Manifest(size, ContentSha(rows), |rows|)
  }

  function Insert(es: seq<Entry>, e: Entry): seq<Entry> {
    if es == [] || Less(e.name, es[0].name) then [e] + es else [es[0]] + Insert(es[1..], e)
  }

  function Find(es: seq<Entry>, name: string): Option<Node> {
    if es == [] then None else if es[0].name == name then Some(es[0].node) else Find(es[1..], name)
  }

  /** Reading a canonical authority file demands one link and the exact mode. */
  function ReadManifest(es: seq<Entry>, mode: nat): Option<Manifest> {
    var node :- Find(es, SEED_MANIFEST);
    if node.File? && node.links == 1 && node.mode == mode && node.data.ManifestText?
    then Some(node.data.manifest) else None
  }

  lemma {:induction false} VisibleInsert(es: seq<Entry>, e: Entry)
    requires forall x :: x in es ==> x.name != e.name
    ensures Visible(Insert(es, e), {e.name}) == Visible(es, {e.name}) == es
    ensures Find(Insert(es, e), e.name) == Some(e.node)
  {
    VisibleAll(es, {e.name});
    if !(es == [] || Less(e.name, es[0].name)) {
      assert Insert(es, e)[1..] == Insert(es[1..], e);
      VisibleInsert(es[1..], e);
    } else {
      assert Insert(es, e)[1..] == es;
    }
  }

  lemma {:induction false} VisibleAll(es: seq<Entry>, excluded: set<string>)
    requires forall x :: x in es ==> x.name !in excluded
    ensures Visible(es, excluded) == es
  {
    if es != [] {
      VisibleAll(es[1..], excluded);
    }
  }

  lemma {:induction false} ChmodFind(es: seq<Entry>, name: string, d: nat, x: nat, f: nat)
    ensures Find(Chmod(es, d, x, f), name)
         == (match Find(es, name) case Some(n) => Some(ChmodNode(n, d, x, f)) case None => None)
  {
    if es != [] {
      assert Chmod(es, d, x, f)[1..] == Chmod(es[1..], d, x, f);
      ChmodFind(es[1..], name, d, x, f);
    }
  }

  // -------------------------------------------------------- prepare and validate

  /** Normalise, scan, write the manifest and seal everything below the root. */
  function Prepare(root: Node): Option<(Node, Manifest)> {
    if !root.Dir? then None
    else
      var es :- Normalize(root.entries, "");
      var (rows, size) :- ScanTree(Dir(root.mode, es), {}, None, ANY);
      var m := ManifestOf(rows, size);
      if Find(es, SEED_MANIFEST).Some? then None
      else Some((Dir(root.mode, SealChildren(Insert(es, Entry(SEED_MANIFEST, File(O400, 1, ManifestText(m)))))), m))
  }

  /** Every mode below the root is the sealed one, the manifest included. */
  predicate SealedModes(es: seq<Entry>)
    decreases es
  {
    es == [] ||
    (SealedModes(es[1..]) &&
     match es[0].node
     case File(mode, links, _) => links == 1 && mode == FileMode(mode, O500, O400)
     case Dir(mode, entries) => mode == O500 && SealedModes(entries)
     case _ => false)
  }

  function RootModes(recoverRoot: bool): set<nat> {
    if recoverRoot then {O500, O700} else {O500}
  }

  /** Check an object or candidate against a digest. */
  function Validate(root: Node, digest: ContentDigest, recoverRoot: bool): Option<Manifest> {
    if !root.Dir? || root.mode !in RootModes(recoverRoot) || !SealedModes(root.entries) then None
    else
      var m :- ReadManifest(root.entries, O400);
      var (rows, size) :- ScanTree(root, {SEED_MANIFEST}, Some(RootModes(recoverRoot)), SEALED);
      if m == ManifestOf(rows, size) && m.contentDigest == digest then Some(m) else None
  }

  /** The object after a recovering check: its root ends sealed. */
  function SealRoot(root: Node): Node
    requires root.Dir?
  {
    Dir(O500, root.entries)
  }

  lemma {:induction false} SealedAfterSealing(es: seq<Entry>, p: Policy)
    requires Acceptable(es, p)
    ensures SealedModes(SealChildren(es))
    decreases es
  {
    if es != [] {
      assert AcceptableEntry(es[0], p);
      assert SealChildren(es)[1..] == SealChildren(es[1..]);
      assert SealChildren(es)[0].node == ChmodNode(es[0].node, O500, O500, O400);
      assert Executable(O500) && !Executable(O400);
      SealedAfterSealing(es[1..], p);
      if es[0].node.Dir? {
        SealedAfterSealing(es[0].node.entries, p);
      }
    }
  }

  lemma {:induction false} InsertAcceptable(es: seq<Entry>, e: Entry, p: Policy)
    requires Acceptable(es, p) && AcceptableEntry(e, p)
    ensures Acceptable(Insert(es, e), p)
  {
    if !(es == [] || Less(e.name, es[0].name)) {
      assert Insert(es, e)[1..] == Insert(es[1..], e);
      InsertAcceptable(es[1..], e, p);
    } else {
      assert Insert(es, e)[1..] == es;
    }
  }

  lemma {:induction false} NotFound(es: seq<Entry>, name: string)
    requires Find(es, name).None?
    ensures forall e :: e in es ==> e.name != name
  {
    if es != [] {
      NotFound(es[1..], name);
    }
  }

  /** What the object check will find in a directory sealed with its manifest. */
  lemma SealedWithManifest(es: seq<Entry>, m: Manifest)
    requires Acceptable(es, ANY) && Find(es, SEED_MANIFEST).None?
    ensures var all := SealChildren(Insert(es, Entry(SEED_MANIFEST, File(O400, 1, ManifestText(m)))));
            && SealedModes(all)
            && ReadManifest(all, O400) == Some(m)
            && Visible(all, {SEED_MANIFEST}) == SealChildren(es)
            && Acceptable(SealChildren(es), SEALED)
            && Rows(SealChildren(es), "") == Rows(es, "")
            && Size(SealChildren(es)) == Size(es)
  {
    var e := Entry(SEED_MANIFEST, File(O400, 1, ManifestText(m)));
    NotFound(es, SEED_MANIFEST);
    VisibleInsert(es, e);
    assert AcceptableEntry(e, ANY);
    InsertAcceptable(es, e, ANY);
    SealedAfterSealing(Insert(es, e), ANY);
    ChmodFind(Insert(es, e), SEED_MANIFEST, O500, O500, O400);
    ChmodVisible(Insert(es, e), {SEED_MANIFEST}, O500, O500, O400);
    ChmodAcceptable(es, ANY, O500, O500, O400);
    ChmodKeepsRows(es, "", O500, O500, O400);
  }

  /** A prepared candidate whose root is private always passes the object check,
      under the digest of exactly the rows that were scanned. */
  lemma PreparedValidates(root: Node)
    requires Prepare(root).Some? && root.mode == O700
    ensures var (sealed, m) := Prepare(root).value;
            && sealed.Dir? && sealed.mode == O700 && Validate(sealed, m.contentDigest, true) == Some(m)
            && Normalize(root.entries, "").Some?
            && m.contentDigest == ContentSha(Rows(Normalize(root.entries, "").value, ""))
  {
    var es := Normalize(root.entries, "").value;
    VisibleAll(es, {});
    SealedWithManifest(es, Prepare(root).value.1);
  }

  lemma PreparedRows(root: Node)
    requires Prepare(root).Some?
    ensures root.Dir? && Normalize(root.entries, "").Some?
    ensures var es := Normalize(root.entries, "").value;
            Acceptable(es, ANY) && Prepare(root).value.1 == ManifestOf(Rows(es, ""), Size(es))
  {
    VisibleAll(Normalize(root.entries, "").value, {});
  }

  /** Content addressing is canonical: two candidates are prepared under one digest
      exactly when their normalised trees agree in names, structure, contents and flags. */
  lemma SameDigestSameTree(a: Node, b: Node)
    requires Prepare(a).Some? && Prepare(b).Some? && WellFormed(a.entries) && WellFormed(b.entries)
    ensures Prepare(a).value.1.contentDigest == Prepare(b).value.1.contentDigest <==>
            Erase(Normalize(a.entries, "").value) == Erase(Normalize(b.entries, "").value)
  {
    PreparedRows(a);
    PreparedRows(b);
    var x, y := Normalize(a.entries, "").value, Normalize(b.entries, "").value;
    NormalizeWellFormed(a.entries, "");
    NormalizeWellFormed(b.entries, "");
    if Rows(x, "") == Rows(y, "") {
      RowsDetermineTree(x, y, "", ANY, ANY);
    }
    if Erase(x) == Erase(y) {
      TreeDeterminesRows(x, y, "");
    }
  }

  /** A recovering check that passes leaves an object that passes the strict one. */
  lemma SealedRootValidates(root: Node, digest: ContentDigest)
    requires Validate(root, digest, true).Some?
    ensures Validate(SealRoot(root), digest, false) == Validate(root, digest, true)
    ensures Validate(SealRoot(root), digest, true) == Validate(root, digest, true)
  {
  }

  /** A check never accepts two digests for one seed. */
  lemma ValidateDigestUnique(root: Node, a: ContentDigest, b: ContentDigest, r: bool, s: bool)
    requires Validate(root, a, r).Some? && Validate(root, b, s).Some?
    ensures a == b
  {
  }

  lemma {:induction false} VisibleAfter(es: seq<Entry>, excluded: set<string>, name: string)
    requires forall e :: e in es ==> Less(name, e.name)
    ensures forall e :: e in Visible(es, excluded) ==> Less(name, e.name)
  {
    if es != [] {
      VisibleAfter(es[1..], excluded, name);
    }
  }

  lemma {:induction false} VisibleWellFormed(es: seq<Entry>, excluded: set<string>)
    requires WellFormed(es)
    ensures WellFormed(Visible(es, excluded))
  {
    if es != [] {
      SortedTail(es);
      VisibleWellFormed(es[1..], excluded);
      VisibleAfter(es[1..], excluded, es[0].name);
    }
  }

  lemma {:induction false} ChmodLength(es: seq<Entry>, d: nat, x: nat, f: nat)
    ensures |Chmod(es, d, x, f)| == |es|
    ensures forall i :: 0 <= i < |es| ==> Chmod(es, d, x, f)[i] == Entry(es[i].name, ChmodNode(es[i].node, d, x, f))
  {
    if es != [] {
      ChmodLength(es[1..], d, x, f);
    }
  }

  lemma {:induction false} ChmodWellFormed(es: seq<Entry>, d: nat, x: nat, f: nat)
    requires WellFormed(es)
    ensures WellFormed(Chmod(es, d, x, f))
    decreases es
  {
    var c := Chmod(es, d, x, f);
    ChmodLength(es, d, x, f);
    forall e | e in c && e.node.Dir?
      ensures WellFormed(e.node.entries)
    {
      var i :| 0 <= i < |c| && c[i] == e;
      assert es[i] in es;
      ChmodWellFormed(es[i].node.entries, d, x, f);
    }
  }

  lemma {:induction false} ChmodErase(es: seq<Entry>, d: nat, x: nat, f: nat)
    requires Executable(x) && !Executable(f)
    ensures Erase(Chmod(es, d, x, f)) == Erase(es)
    decreases es
  {
    if es != [] {
      assert Chmod(es, d, x, f)[1..] == Chmod(es[1..], d, x, f);
      ChmodErase(es[1..], d, x, f);
      if es[0].node.Dir? {
        ChmodErase(es[0].node.entries, d, x, f);
      }
    }
  }

  /** One digest means one tree: whatever two objects pass the check under the
      same digest have the same names, structure, contents and flags. */
  lemma DigestDeterminesObject(a: Node, b: Node, digest: ContentDigest, r: bool, s: bool)
    requires Validate(a, digest, r).Some? && Validate(b, digest, s).Some?
    requires WellFormed(a.entries) && WellFormed(b.entries)
    ensures Erase(Visible(a.entries, {SEED_MANIFEST})) == Erase(Visible(b.entries, {SEED_MANIFEST}))
  {
    VisibleWellFormed(a.entries, {SEED_MANIFEST});
    VisibleWellFormed(b.entries, {SEED_MANIFEST});
    RowsDetermineTree(Visible(a.entries, {SEED_MANIFEST}), Visible(b.entries, {SEED_MANIFEST}), "", SEALED, SEALED);
  }

  // ----------------------------------------------------------------- cloning

  /** Links and special files stop the walk that makes a clone writable. */
  predicate Unsealable(es: seq<Entry>)
    decreases es
  {
    es == [] ||
    (Unsealable(es[1..]) &&
     match es[0].node
     case File(_, links, _) => links == 1
     case Dir(_, entries) => Unsealable(entries)
     case _ => false)
  }

  /** Check the seed, take the copy the host made, unseal it and compare. */
  function CloneSeed(seed: Node, copy: Node, digest: ContentDigest): Option<Manifest> {
    var expected :- Validate(seed, digest, false);
    if !copy.Dir? || copy.mode != O500 || !Unsealable(copy.entries) then None
    else
      var clone := Dir(O700, MakeWritable(copy.entries));
      var m :- ReadManifest(clone.entries, O600);
      var (rows, size) :- ScanTree(clone, {SEED_MANIFEST}, Some({O700}), WRITABLE);
      if ManifestOf(rows, size) == expected && m == expected then Some(expected) else None
  }

  lemma {:induction false} SealedIsUnsealable(es: seq<Entry>)
    requires SealedModes(es)
    ensures Unsealable(es)
    decreases es
  {
    if es != [] {
      SealedIsUnsealable(es[1..]);
      if es[0].node.Dir? {
        SealedIsUnsealable(es[0].node.entries);
      }
    }
  }

  /** A faithful copy of a valid object is always accepted, with its manifest. */
  lemma FaithfulCopyAccepted(seed: Node, digest: ContentDigest)
    requires Validate(seed, digest, false).Some?
    ensures CloneSeed(seed, seed, digest) == Validate(seed, digest, false)
  {
    var es := seed.entries;
    SealedIsUnsealable(es);
    ChmodFind(es, SEED_MANIFEST, O700, O700, O600);
    ChmodVisible(es, {SEED_MANIFEST}, O700, O700, O600);
    ChmodAcceptable(Visible(es, {SEED_MANIFEST}), SEALED, O700, O700, O600);
    ChmodKeepsRows(Visible(es, {SEED_MANIFEST}), "", O700, O700, O600);
  }

  /** An accepted copy is the seed: same names, structure, contents and flags. */
  lemma AcceptedCopyFaithful(seed: Node, copy: Node, digest: ContentDigest)
    requires CloneSeed(seed, copy, digest).Some?
    requires WellFormed(seed.entries) && WellFormed(copy.entries)
    ensures Erase(Visible(copy.entries, {SEED_MANIFEST})) == Erase(Visible(seed.entries, {SEED_MANIFEST}))
  {
    var kept := Visible(copy.entries, {SEED_MANIFEST});
    VisibleWellFormed(seed.entries, {SEED_MANIFEST});
    VisibleWellFormed(copy.entries, {SEED_MANIFEST});
    ChmodVisible(copy.entries, {SEED_MANIFEST}, O700, O700, O600);
    ChmodWellFormed(kept, O700, O700, O600);
    ChmodErase(kept, O700, O700, O600);
    RowsDetermineTree(MakeWritable(kept), Visible(seed.entries, {SEED_MANIFEST}), "", WRITABLE, SEALED);
  }

  // ------------------------------------------------------- cloning, both directions

  lemma {:induction false} FoundIsListed(es: seq<Entry>, name: string)
    requires Find(es, name).Some?
    ensures exists e :: e in es && e.name == name
  {
    if es[0].name != name {
      FoundIsListed(es[1..], name);
    }
  }

  /** In a sorted directory what is found later sorts later. */
  lemma SortsLater(es: seq<Entry>, name: string)
    requires Sorted(es) && es != [] && Find(es[1..], name).Some?
    ensures !Less(name, es[0].name)
  {
    FoundIsListed(es[1..], name);
    var k :| 1 <= k < |es| && es[k].name == name;
    LessIsTotal(es[0].name, name);
  }

  /** A sorted directory is its other entries with this one put in its place. */
  lemma {:induction false} PutBack(es: seq<Entry>, name: string)
    requires WellFormed(es) && Find(es, name).Some?
    ensures es == Insert(Visible(es, {name}), Entry(name, Find(es, name).value))
  {
    SortedTail(es);
    var e, rest := es[0], es[1..];
    if e.name == name {
      VisibleAll(rest, {name});
      assert Visible(es, {name}) == [] + rest;
    } else {
      SortsLater(es, name);
      hide WellFormed, Less;
      PutBack(rest, name);
      var v := Visible(rest, {name});
      assert Visible(es, {name}) == [e] + v && ([e] + v)[1..] == v;
      assert es == [e] + rest;
    }
  }

  lemma {:induction false} EraseInsert(es: seq<Entry>, e: Entry)
    ensures Erase(Insert(es, e)) == Insert(Erase(es), EraseEntry(e))
  {
    if es == [] || Less(e.name, es[0].name) {
      assert Insert(es, e)[1..] == es;
    } else {
      assert Insert(es, e)[1..] == Insert(es[1..], e);
      assert Erase(es)[1..] == Erase(es[1..]);
      EraseInsert(es[1..], e);
    }
  }

  lemma {:induction false} EraseVisible(es: seq<Entry>, excluded: set<string>)
    ensures Erase(Visible(es, excluded)) == Visible(Erase(es), excluded)
  {
    if es != [] {
      EraseVisible(es[1..], excluded);
      assert Erase(es)[1..] == Erase(es[1..]);
      var v := Visible(es[1..], excluded);
      if es[0].name in excluded {
        assert Visible(es, excluded) == v;
      } else {
        assert Visible(es, excluded)[1..] == v;
      }
    }
  }

  lemma {:induction false} EraseFind(es: seq<Entry>, name: string)
    ensures Find(Erase(es), name)
         == (match Find(es, name) case Some(n) => Some(EraseEntry(Entry(name, n)).node) case None => None)
  {
    if es != [] {
      assert Erase(es)[1..] == Erase(es[1..]);
      EraseFind(es[1..], name);
    }
  }

  /** A tree that can be unsealed and looks like an acceptable one is acceptable. */
  lemma {:induction false} LooksAcceptable(a: seq<Entry>, b: seq<Entry>, p: Policy)
    requires Erase(a) == Erase(b) && Acceptable(b, p) && Unsealable(a)
    ensures Acceptable(a, ANY)
    decreases a
  {
    if a != [] {
      assert b != [];
      assert Erase(a)[0] == EraseEntry(a[0]) && Erase(b)[0] == EraseEntry(b[0]);
      assert Erase(a)[1..] == Erase(a[1..]) && Erase(b)[1..] == Erase(b[1..]);
      LooksAcceptable(a[1..], b[1..], p);
      if a[0].node.Dir? {
        LooksAcceptable(a[0].node.entries, b[0].node.entries, p);
      }
    }
  }

  lemma {:induction false} UnsealableVisible(es: seq<Entry>, excluded: set<string>)
    requires Unsealable(es)
    ensures Unsealable(Visible(es, excluded))
  {
    if es != [] {
      UnsealableVisible(es[1..], excluded);
      var v := Visible(es[1..], excluded);
      if es[0].name in excluded {
        assert Visible(es, excluded) == v;
      } else {
        assert Visible(es, excluded)[1..] == v;
      }
    }
  }

  lemma {:induction false} UnsealableFind(es: seq<Entry>, name: string)
    requires Unsealable(es) && Find(es, name).Some? && Find(es, name).value.File?
    ensures Find(es, name).value.links == 1
  {
    if es[0].name != name {
      UnsealableFind(es[1..], name);
    }
  }

  /** A copy that looks like the seed has a readable manifest once it is writable. */
  lemma ManifestIsCopied(seed: seq<Entry>, copy: seq<Entry>, m: Manifest)
    requires ReadManifest(seed, O400) == Some(m) && Unsealable(copy) && Erase(copy) == Erase(seed)
    ensures ReadManifest(MakeWritable(copy), O600) == Some(m)
  {
    EraseFind(seed, SEED_MANIFEST);
    EraseFind(copy, SEED_MANIFEST);
    ChmodFind(copy, SEED_MANIFEST, O700, O700, O600);
    UnsealableFind(copy, SEED_MANIFEST);
  }

  lemma LookalikeAccepted(seed: Node, copy: Node, digest: ContentDigest)
    requires Validate(seed, digest, false).Some?
    requires copy.Dir? && copy.mode == O500 && Unsealable(copy.entries) && Erase(copy.entries) == Erase(seed.entries)
    ensures CloneSeed(seed, copy, digest) == Validate(seed, digest, false)
  {
    var hidden := {SEED_MANIFEST};
    var a, b := Visible(copy.entries, hidden), Visible(seed.entries, hidden);
    ManifestIsCopied(seed.entries, copy.entries, Validate(seed, digest, false).value);
    EraseVisible(copy.entries, hidden);
    EraseVisible(seed.entries, hidden);
    UnsealableVisible(copy.entries, hidden);
    LooksAcceptable(a, b, SEALED);
    TreeDeterminesRows(a, b, "");
    ChmodVisible(copy.entries, hidden, O700, O700, O600);
    ChmodAcceptable(a, ANY, O700, O700, O600);
    ChmodKeepsRows(a, "", O700, O700, O600);
  }

  /** The manifests of a seed and of an accepted copy look the same. */
  lemma ManifestsLookAlike(seed: Node, copy: Node, digest: ContentDigest)
    requires CloneSeed(seed, copy, digest).Some?
    ensures var x, y := Find(seed.entries, SEED_MANIFEST), Find(copy.entries, SEED_MANIFEST);
            x.Some? && y.Some? && EraseEntry(Entry(SEED_MANIFEST, x.value)) == EraseEntry(Entry(SEED_MANIFEST, y.value))
  {
    ChmodFind(copy.entries, SEED_MANIFEST, O700, O700, O600);
  }

  /** Cloning, exactly: a copy is accepted, with the seed's manifest, if and only if the
      seed is valid, the copy's root has the sealed mode and nothing in it is linked,
      and it has the seed's names, structure, contents and flags, manifest included. */
  lemma CloneIsExact(seed: Node, copy: Node, digest: ContentDigest)
    requires seed.Dir? ==> WellFormed(seed.entries)
    requires copy.Dir? ==> WellFormed(copy.entries)
    ensures CloneSeed(seed, copy, digest).Some? <==>
            && Validate(seed, digest, false).Some? && copy.Dir? && copy.mode == O500
            && Unsealable(copy.entries) && Erase(copy.entries) == Erase(seed.entries)
    ensures CloneSeed(seed, copy, digest).Some? ==> CloneSeed(seed, copy, digest) == Validate(seed, digest, false)
  {
    if CloneSeed(seed, copy, digest).Some? {
      AcceptedCopyFaithful(seed, copy, digest);
      ManifestsLookAlike(seed, copy, digest);
      PutBack(seed.entries, SEED_MANIFEST);
      PutBack(copy.entries, SEED_MANIFEST);
      EraseInsert(Visible(seed.entries, {SEED_MANIFEST}),
        Entry(SEED_MANIFEST, Find(seed.entries, SEED_MANIFEST).value));
      EraseInsert(Visible(copy.entries, {SEED_MANIFEST}),
        Entry(SEED_MANIFEST, Find(copy.entries, SEED_MANIFEST).value));
    } else if Validate(seed, digest, false).Some? && copy.Dir? && copy.mode == O500
              && Unsealable(copy.entries) && Erase(copy.entries) == Erase(seed.entries) {
      LookalikeAccepted(seed, copy, digest);
    }
  }
}
