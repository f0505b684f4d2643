/** Scans and object checks, path by path: what they demand of every path of a tree
    and what they report of it (scripts/cold_cache_authority.py). */
module SeedPaths {
  import opened Base
  import opened SeedTree
  import opened SeedObject
  import opened SeedNormal

  /** Every path of the tree ends in a name and a shell that pass. */
  ghost predicate Every(es: seq<Entry>, ok: (string, Node) -> bool) {
    forall path: Path, x: Node :: Present(es, path, x) ==> ok(Last(path), x)
  }

  lemma EveryEntry(e: Entry, ok: (string, Node) -> bool)
    ensures Every([e], ok) <==> ok(e.name, Shell(e.node)) && (e.node.Dir? ==> Every(e.node.entries, ok))
  {
    PresentSplits(e, [], [e.name], Shell(e.node));
    if Every([e], ok) && e.node.Dir? {
      forall path: Path, x: Node | Present(e.node.entries, path, x)
        ensures ok(Last(path), x)
      {
        PresentBelow(e, path, x);
        assert Last([e.name] + path) == Last(path);
      }
    }
    if ok(e.name, Shell(e.node)) && (e.node.Dir? ==> Every(e.node.entries, ok)) {
      forall path: Path, x: Node | Present([e], path, x)
        ensures ok(Last(path), x)
      {
        PresentSplits(e, [], path, x);
        if |path| > 1 {
          assert Last(path) == Last(path[1..]);
        }
      }
    }
  }

  /** A directory passes if its first entry, everything below that and the rest do. */
  lemma EverySplits(es: seq<Entry>, ok: (string, Node) -> bool)
    requires es != []
    ensures var e := es[0];
            Every(es, ok) <==>
              && ok(e.name, Shell(e.node)) && (e.node.Dir? ==> Every(e.node.entries, ok)) && Every(es[1..], ok)
  {
    EveryEntry(es[0], ok);
    assert es == [es[0]] + es[1..];
    forall path: Path, x: Node
      ensures Present(es, path, x) <==> Present([es[0]], path, x) || Present(es[1..], path, x)
    {
      PresentJoins([es[0]], es[1..], path, x);
    }
    hide Present;
  }

  lemma EveryOfNone(ok: (string, Node) -> bool)
    ensures Every([], ok)
  {
  }

  // ------------------------------------------------------------------- acceptance

  /** What a scan demands at a path: a safe name, one link and an allowed mode. */
  predicate Passes(name: string, x: Node, p: Policy) {
    && SafeName(name)
    && ((x.File? && x.links == 1 && (p.fileModes.Some? ==> x.mode in p.fileModes.value)) ||
        (x.Dir? && (p.directoryModes.Some? ==> x.mode in p.directoryModes.value)))
  }

  /** A scan accepts a tree exactly if every path passes. */
  lemma {:induction false} AcceptableIsExact(es: seq<Entry>, p: Policy)
    ensures Acceptable(es, p) <==> Every(es, (name, x) => Passes(name, x, p))
    decreases es
  {
    var ok := (name, x) => Passes(name, x, p);
    hide Every;
    if es == [] {
      EveryOfNone(ok);
    } else {
      EverySplits(es, ok);
      AcceptableIsExact(es[1..], p);
      if es[0].node.Dir? {
        AcceptableIsExact(es[0].node.entries, p);
      }
    }
  }

  // ------------------------------------------------------------------------- rows

  /** The row of a path. */
  function RowAt(prefix: string, path: Path, x: Node): Row {
    if x.File? then FileRow(Relative(prefix, path), Executable(x.mode), FileSha(x.data), x.data.Size())
    else DirectoryRow(Relative(prefix, path))
  }

  ghost predicate HasRow(es: seq<Entry>, prefix: string, r: Row) {
    exists path: Path, x: Node :: Present(es, path, x) && (x.File? || x.Dir?) && r == RowAt(prefix, path, x)
  }

  lemma RelativeBelow(prefix: string, name: string, path: Path)
    ensures Relative(prefix, [name] + path) == Relative(Join(prefix, name), path)
  {
    assert ([name] + path)[1..] == path;
  }

  /** The paths of an entry are its own and those below it. */
  lemma EntryHasRows(e: Entry, prefix: string, r: Row)
    ensures HasRow([e], prefix, r) <==>
      || ((e.node.File? || e.node.Dir?) && r == RowAt(prefix, [e.name], Shell(e.node)))
      || (e.node.Dir? && HasRow(e.node.entries, Join(prefix, e.name), r))
  {
    hide Relative;
    PresentSplits(e, [], [e.name], Shell(e.node));
    if e.node.Dir? && HasRow(e.node.entries, Join(prefix, e.name), r) {
      var path: Path, x: Node :| Present(e.node.entries, path, x) && (x.File? || x.Dir?) &&
        r == RowAt(Join(prefix, e.name), path, x);
      PresentBelow(e, path, x);
      RelativeBelow(prefix, e.name, path);
      assert r == RowAt(prefix, [e.name] + path, x);
    }
    forall path: Path, x: Node | Present([e], path, x) && (x.File? || x.Dir?) && r == RowAt(prefix, path, x)
      ensures ((e.node.File? || e.node.Dir?) && r == RowAt(prefix, [e.name], Shell(e.node))) ||
        (e.node.Dir? && HasRow(e.node.entries, Join(prefix, e.name), r))
    {
      PresentSplits(e, [], path, x);
      if |path| == 1 {
        assert path == [e.name];
      } else {
        assert path == [e.name] + path[1..];
        RelativeBelow(prefix, e.name, path[1..]);
        assert r == RowAt(Join(prefix, e.name), path[1..], x);
      }
    }
  }

  /** The rows of a scan are exactly those of its paths. */
  lemma {:induction false} RowsAreExact(es: seq<Entry>, prefix: string, r: Row)
    ensures r in Rows(es, prefix) <==> HasRow(es, prefix, r)
    decreases es
  {
    if es != [] {
      var e := es[0];
      RowsAreExact(es[1..], prefix, r);
      if e.node.Dir? {
        RowsAreExact(e.node.entries, Join(prefix, e.name), r);
      }
      EntryHasRows(e, prefix, r);
      assert Relative(prefix, [e.name]) == Join(prefix, e.name);
      assert es == [e] + es[1..];
      forall path: Path, x: Node
        ensures Present(es, path, x) <==> Present([e], path, x) || Present(es[1..], path, x)
      {
        PresentJoins([e], es[1..], path, x);
      }
      hide Present, Relative;
    }
  }

  // --------------------------------------------------------------------- objects

  /** A file or directory as sealing leaves it. */
  predicate SealedShell(x: Node) {
    || (x.File? && x.links == 1 && x.mode == if Executable(x.mode) then O500 else O400)
    || x == Dir(O500, [])
  }

  lemma {:induction false} SealedModesIsExact(es: seq<Entry>)
    ensures SealedModes(es) <==> Every(es, (name, x) => SealedShell(x))
    decreases es
  {
    var ok := (name: string, x: Node) => SealedShell(x);
    hide Every;
    if es == [] {
      EveryOfNone(ok);
    } else {
      EverySplits(es, ok);
      SealedModesIsExact(es[1..]);
      if es[0].node.Dir? {
        SealedModesIsExact(es[0].node.entries);
      }
    }
  }

  /** In a directory that lists every name once, what is found is what stands there. */
  lemma {:induction false} FindIsPresent(es: seq<Entry>, name: string, x: Node)
    requires WellFormed(es) && x.File?
    ensures Find(es, name) == Some(x) <==> Present(es, [name], x)
  {
    if es != [] {
      SortedTail(es);
      FindIsPresent(es[1..], name, x);
      assert es == [es[0]] + es[1..];
      PresentSplits(es[0], es[1..], [name], x);
    }
  }

  /** What a manifest says of the tree beside it. */
  ghost predicate Describes(m: Manifest, es: seq<Entry>) {
    var seen := Visible(es, {SEED_MANIFEST});
    m.apparentBytes == Size(seen) && m.contentDigest.rows == Rows(seen, "") && m.entries == |Rows(seen, "")|
  }

  /** The object check, exactly: it passes with a manifest if and only if the root has the
      sealed mode, or a private one where that may be recovered, every path below it is a
      sealed file with one link or a sealed directory under a safe name, and the manifest
      that stands there has that digest and describes everything else within the limits. */
  lemma ValidateIsExact(root: Node, digest: ContentDigest, recoverRoot: bool, m: Manifest)
    requires root.Dir? ==> WellFormed(root.entries)
    ensures Validate(root, digest, recoverRoot) == Some(m) <==>
      && root.Dir? && (root.mode == O500 || (recoverRoot && root.mode == O700))
      && Every(root.entries, (name, x) => SafeName(name) && SealedShell(x))
      && Present(root.entries, [SEED_MANIFEST], File(O400, 1, ManifestText(m)))
      && m.contentDigest == digest && Describes(m, root.entries)
      && m.entries <= MAX_ENTRIES && m.apparentBytes <= MAX_BYTES
  {
    if root.Dir? {
      SealedModesIsExact(root.entries);
      FindIsPresent(root.entries, SEED_MANIFEST, File(O400, 1, ManifestText(m)));
      var seen := Visible(root.entries, {SEED_MANIFEST});
      if SealedModes(root.entries) && Find(root.entries, SEED_MANIFEST) == Some(File(O400, 1, ManifestText(m))) {
        FoundIsOnly(root.entries, SEED_MANIFEST);
        VisibleIsAcceptable(root.entries);
      }
      assert m.contentDigest == ContentSha(m.contentDigest.rows);
      EveryBoth(root.entries);
      hide Every, Present, SealedModes, Acceptable, Visible, Rows, Size, Find, WellFormed;
    }
  }

  lemma EveryBoth(es: seq<Entry>)
    ensures Every(es, (name, x) => SafeName(name) && SealedShell(x)) <==>
      Every(es, (name, x) => SealedShell(x)) && Every(es, (name, x) => SafeName(name))
  {
    hide Present, SafeName, SealedShell;
  }

  lemma {:induction false} FoundIsOnly(es: seq<Entry>, name: string)
    requires WellFormed(es) && Find(es, name).Some?
    ensures forall e :: e in es && e.name == name ==> e.node == Find(es, name).value
  {
    SortedTail(es);
    if es[0].name != name {
      FoundIsOnly(es[1..], name);
    }
  }

  /** Of a tree with sealed modes a scan demands no more than safe names. */
  lemma {:induction false} SealedIsAcceptable(es: seq<Entry>)
    requires SealedModes(es)
    ensures Acceptable(es, SEALED) <==> Every(es, (name, x) => SafeName(name))
    decreases es
  {
    var ok := (name: string, x: Node) => SafeName(name);
    hide Every;
    if es == [] {
      EveryOfNone(ok);
    } else {
      EverySplits(es, ok);
      SealedIsAcceptable(es[1..]);
      if es[0].node.Dir? {
        SealedIsAcceptable(es[0].node.entries);
      }
    }
  }

  /** Leaving out the manifest makes no difference, since its own name is safe. */
  lemma {:induction false} VisibleIsAcceptable(es: seq<Entry>)
    requires SealedModes(es) && forall e :: e in es && e.name == SEED_MANIFEST ==> e.node.File?
    ensures Acceptable(Visible(es, {SEED_MANIFEST}), SEALED) <==> Every(es, (name, x) => SafeName(name))
  {
    var ok := (name: string, x: Node) => SafeName(name);
    hide Every;
    if es == [] {
      EveryOfNone(ok);
    } else {
      EverySplits(es, ok);
      VisibleIsAcceptable(es[1..]);
      if es[0].node.Dir? {
        SealedIsAcceptable(es[0].node.entries);
      }
      assert SafeName(SEED_MANIFEST);
      var rest := Visible(es[1..], {SEED_MANIFEST});
      if es[0].name == SEED_MANIFEST {
        assert Visible(es, {SEED_MANIFEST}) == rest;
      } else {
        assert Visible(es, {SEED_MANIFEST}) == [es[0]] + rest;
      }
    }
  }

  // ------------------------------------------------------------------- preparation

  /** A shell with other modes: the executable flag of a file decides which it gets. */
  function Remoded(x: Node, directory: nat, executable: nat, plain: nat): Node {
    match x
    case File(mode, links, data) => File(if Executable(mode) then executable else plain, links, data)
    case Dir(_, _) => Dir(directory, [])
    case _ => x
  }

  ghost predicate HadShell(es: seq<Entry>, path: Path, y: Node, d: nat, x: nat, f: nat) {
    exists z: Node :: Present(es, path, z) && y == Remoded(z, d, x, f)
  }

  lemma HadShellIn(e: Entry, path: Path, y: Node, d: nat, x: nat, f: nat)
    requires path != []
    ensures HadShell([e], path, y, d, x, f) <==>
      && e.name == path[0]
      && if |path| == 1 then y == Remoded(Shell(e.node), d, x, f)
         else e.node.Dir? && HadShell(e.node.entries, path[1..], y, d, x, f)
  {
    forall z: Node
      ensures Present([e], path, z) <==> PresentIn(e, path, z)
    {
      PresentSplits(e, [], path, z);
    }
  }

  /** Changing modes keeps every path and changes nothing there but the mode. */
  lemma {:induction false} ChmodIsExact(es: seq<Entry>, path: Path, y: Node, d: nat, x: nat, f: nat)
    ensures Present(Chmod(es, d, x, f), path, y) <==> HadShell(es, path, y, d, x, f)
    decreases es
  {
    if es != [] && path != [] {
      var e, rest := es[0], es[1..];
      var changed := Entry(e.name, ChmodNode(e.node, d, x, f));
      ChmodIsExact(rest, path, y, d, x, f);
      if e.node.Dir? {
        ChmodIsExact(e.node.entries, path[1..], y, d, x, f);
      }
      HadShellIn(e, path, y, d, x, f);
      PresentSplits(changed, Chmod(rest, d, x, f), path, y);
      assert es == [e] + rest;
      forall z: Node
        ensures Present(es, path, z) <==> Present([e], path, z) || Present(rest, path, z)
      {
        PresentJoins([e], rest, path, z);
      }
      assert PresentIn(changed, path, y) <==> HadShell([e], path, y, d, x, f);
      hide Present, PresentIn;
    }
  }

  lemma {:induction false} InsertIsExact(es: seq<Entry>, e: Entry, path: Path, x: Node)
    ensures Present(Insert(es, e), path, x) <==> Present([e], path, x) || Present(es, path, x)
  {
    if es == [] || Less(e.name, es[0].name) {
      PresentJoins([e], es, path, x);
    } else {
      InsertIsExact(es[1..], e, path, x);
      PresentJoins([es[0]], Insert(es[1..], e), path, x);
      PresentJoins([es[0]], es[1..], path, x);
      assert es == [es[0]] + es[1..];
    }
  }

  /** Some path that survives normalisation would be sealed into this. */
  ghost predicate SealsInto(es: seq<Entry>, path: Path, y: Node) {
    exists x: Node :: Survives(es, "", path, x) && y == Remoded(x, O500, O500, O400)
  }

  /** What stands where in a prepared seed: its manifest, and every path that survives
      normalisation, sealed; nothing else. */
  lemma PreparedPaths(root: Node, path: Path, y: Node)
    requires Prepare(root).Some?
    ensures var (sealed, m) := Prepare(root).value;
            Present(sealed.entries, path, y) <==>
              (path == [SEED_MANIFEST] && y == File(O400, 1, ManifestText(m))) || SealsInto(root.entries, path, y)
  {
    var m := Prepare(root).value.1;
    var es := Normalize(root.entries, "").value;
    var e := Entry(SEED_MANIFEST, File(O400, 1, ManifestText(m)));
    ChmodIsExact(Insert(es, e), path, y, O500, O500, O400);
    forall z: Node
      ensures Present(Insert(es, e), path, z) <==>
        (path == [SEED_MANIFEST] && z == e.node) || Survives(root.entries, "", path, z)
    {
      InsertIsExact(es, e, path, z);
      NormalizeKeepsExactly(root.entries, "", path, z);
      if path != [] {
        PresentSplits(e, [], path, z);
      }
    }
    assert Remoded(e.node, O500, O500, O400) == e.node;
    hide Present, Survives, Prepare;
  }

  /** What stands in the way of preparing a normalised tree. */
  ghost predicate Preparable(es: seq<Entry>) {
    && Every(es, (name: string, x: Node) => SafeName(name) && (x.File? ==> x.links == 1))
    && !Present(es, [SEED_MANIFEST], Dir(O700, []))
    && |Rows(es, "")| <= MAX_ENTRIES && Size(es) <= MAX_BYTES
  }

  /** Of a normalised tree a scan demands safe names and single links. */
  lemma {:induction false} NormalIsAcceptable(es: seq<Entry>, prefix: string)
    requires Normal(es, prefix)
    ensures Acceptable(es, ANY) <==> Every(es, (name: string, x: Node) => SafeName(name) && (x.File? ==> x.links == 1))
    decreases es
  {
    var ok := (name: string, x: Node) => SafeName(name) && (x.File? ==> x.links == 1);
    hide Every;
    if es == [] {
      EveryOfNone(ok);
    } else {
      assert es[0] in es;
      EverySplits(es, ok);
      NormalIsAcceptable(es[1..], prefix);
      if es[0].node.Dir? {
        NormalIsAcceptable(es[0].node.entries, Join(prefix, es[0].name));
      }
    }
  }

  /** In a normalised tree only a directory can have the manifest's name. */
  lemma {:induction false} NormalHasNoManifest(es: seq<Entry>, prefix: string)
    requires Normal(es, prefix)
    ensures Find(es, SEED_MANIFEST).Some? <==> Present(es, [SEED_MANIFEST], Dir(O700, []))
  {
    if es != [] {
      assert es[0] in es;
      NormalHasNoManifest(es[1..], prefix);
      PresentSplits(es[0], es[1..], [SEED_MANIFEST], Dir(O700, []));
      assert es == [es[0]] + es[1..];
    }
  }

  /** Preparing, exactly: a candidate is refused if and only if it is no directory, holds what
      normalisation refuses, or keeps a path with an unsafe name or a second link, a
      directory under the manifest's name, or too much. */
  lemma PrepareIsExact(root: Node)
    ensures root.Dir? ==> (Normalize(root.entries, "").Some? <==> !Offending(root.entries, ""))
    ensures Prepare(root).Some? <==>
      root.Dir? && Normalize(root.entries, "").Some? && Preparable(Normalize(root.entries, "").value)
  {
    if root.Dir? {
      NormalizeRefusesExactly(root.entries, "");
      if Normalize(root.entries, "").Some? {
        var es := Normalize(root.entries, "").value;
        NormalizeIsNormal(root.entries, "");
        NormalIsAcceptable(es, "");
        NormalHasNoManifest(es, "");
        VisibleAll(es, {});
      }
      hide Every, Present, Offending, Normalize, Normal, Acceptable, Find, Rows, Size;
    }
  }
}
