/** What normalising a primed candidate keeps, drops and refuses, path by path
    (_normalize_fd in scripts/cold_cache_authority.py). */
module SeedNormal {
  import opened Base
  import opened SeedTree
  import opened SeedObject

  /** A path below a directory, name by name. */
  type Path = seq<string>

  /** What can be said of a node at its own path: everything but what lies below it. */
  function Shell(n: Node): Node {
    if n.Dir? then Dir(n.mode, []) else n
  }

  /** At this path below the entries stands a node with this shell. */
  ghost predicate Present(es: seq<Entry>, path: Path, x: Node)
    decreases |path|, 1
  {
    path != [] && exists e :: e in es && PresentIn(e, path, x)
  }

  ghost predicate PresentIn(e: Entry, path: Path, x: Node)
    requires path != []
    decreases |path|, 0
  {
    e.name == path[0] &&
    if |path| == 1 then Shell(e.node) == x else e.node.Dir? && Present(e.node.entries, path[1..], x)
  }

  /** The path as one string, below `prefix`. */
  function Relative(prefix: string, path: Path): string
    decreases |path|
  {
    if path == [] then prefix else Relative(Join(prefix, path[0]), path[1..])
  }

  function Last(path: Path): string
    requires path != []
  {
    path[|path| - 1]
  }

  /** No directory on the way to the path is a volatile one. */
  predicate Reached(prefix: string, path: Path) {
    forall k :: 0 < k < |path| ==> Relative(prefix, path[..k]) !in VOLATILE_DIRECTORIES
  }

  /** What must stand at a path after normalisation, in terms of what stood there before:
      a file unchanged unless its name is volatile, a directory writable unless it is a
      volatile one, nothing else, and nothing below a volatile directory. */
  ghost predicate Survives(es: seq<Entry>, prefix: string, path: Path, x: Node) {
    path != [] && Reached(prefix, path) &&
    match x
    case File(_, _, _) => Present(es, path, x) && !VolatileFile(Last(path))
    case Dir(mode, below) =>
      mode == O700 && below == [] && Relative(prefix, path) !in VOLATILE_DIRECTORIES && HadDirectory(es, path)
    case _ => false
  }

  ghost predicate HadDirectory(es: seq<Entry>, path: Path) {
    exists mode: nat :: Present(es, path, Dir(mode, []))
  }

  /** What normalisation refuses: a special file anywhere, and a link or a manifest that is
      not below a volatile directory. */
  ghost predicate Offends(es: seq<Entry>, prefix: string, path: Path, x: Node) {
    path != [] && Present(es, path, x) &&
    (x.Special? || (Reached(prefix, path) && (x.Symlink? || (x.File? && Last(path) == SEED_MANIFEST))))
  }

  // --------------------------------------------------------------- splitting paths

  lemma PresentSplits(e: Entry, es: seq<Entry>, path: Path, x: Node)
    requires path != []
    ensures Present([e] + es, path, x) <==> PresentIn(e, path, x) || Present(es, path, x)
    ensures Present([e], path, x) <==> PresentIn(e, path, x)
  {
    hide PresentIn;
    assert e in [e] + es && e in [e];
  }

  lemma ReachedBelow(prefix: string, path: Path)
    requires |path| > 1
    ensures Reached(prefix, path) <==>
      Join(prefix, path[0]) !in VOLATILE_DIRECTORIES && Reached(Join(prefix, path[0]), path[1..])
    ensures Relative(prefix, path) == Relative(Join(prefix, path[0]), path[1..])
  {
    var below := Join(prefix, path[0]);
    forall k | 0 < k < |path|
      ensures Relative(prefix, path[..k]) == Relative(below, path[1..][..k - 1])
    {
      assert path[..k][1..] == path[1..][..k - 1];
    }
    assert path[1..][..0] == [];
    if Reached(prefix, path) {
      forall k | 0 < k < |path| - 1
        ensures Relative(below, path[1..][..k]) !in VOLATILE_DIRECTORIES
      {
        assert Relative(prefix, path[..k + 1]) == Relative(below, path[1..][..k]);
      }
    }
    assert path[..1][0] == path[0] && Relative(prefix, path[..1]) == below;
  }

  // -------------------------------------------------------------------- one entry

  /** At its own path an entry leaves itself, if it is to be kept. */
  lemma EntrySurvivesHere(e: Entry, prefix: string, path: Path, x: Node)
    requires |path| == 1 && NormalizeEntry(e, prefix).Some?
    ensures Present(NormalizeEntry(e, prefix).value, path, x) <==> Survives([e], prefix, path, x)
  {
    hide Normalize, VolatileFile;
    var kept := NormalizeEntry(e, prefix).value;
    if kept != [] {
      assert kept == [kept[0]];
      PresentSplits(kept[0], [], path, x);
    }
    PresentSplits(e, [], path, x);
    if e.node.Dir? {
      PresentSplits(e, [], path, Dir(e.node.mode, []));
    }
    forall mode: nat
      ensures Present([e], path, Dir(mode, [])) <==> PresentIn(e, path, Dir(mode, []))
    {
      PresentSplits(e, [], path, Dir(mode, []));
    }
    assert path[1..] == [];
    assert Relative(prefix, path) == Join(prefix, path[0]);
  }

  /** Below its own path only a directory that is not volatile leaves anything. */
  lemma EntrySurvivesBelow(e: Entry, prefix: string, path: Path, x: Node)
    requires |path| > 1 && NormalizeEntry(e, prefix).Some?
    requires e.node.Dir? && Join(prefix, e.name) !in VOLATILE_DIRECTORIES ==>
      (Present(Normalize(e.node.entries, Join(prefix, e.name)).value, path[1..], x) <==>
        Survives(e.node.entries, Join(prefix, e.name), path[1..], x))
    ensures Present(NormalizeEntry(e, prefix).value, path, x) <==> Survives([e], prefix, path, x)
  {
    hide Normalize, VolatileFile, Reached, Relative;
    var kept := NormalizeEntry(e, prefix).value;
    if kept != [] {
      assert kept == [kept[0]];
      PresentSplits(kept[0], [], path, x);
    }
    PresentSplits(e, [], path, x);
    ReachedBelow(prefix, path);
    forall mode: nat
      ensures Present([e], path, Dir(mode, [])) <==> PresentIn(e, path, Dir(mode, []))
    {
      PresentSplits(e, [], path, Dir(mode, []));
    }
    assert Last(path) == Last(path[1..]);
    if e.node.Dir? {
      assert HadDirectory([e], path) <==> e.name == path[0] && HadDirectory(e.node.entries, path[1..]);
    }
  }

  /** The rest of a directory adds its own paths. */
  lemma SurvivesSplits(e: Entry, es: seq<Entry>, prefix: string, path: Path, x: Node)
    requires path != []
    ensures Survives([e] + es, prefix, path, x) <==> Survives([e], prefix, path, x) || Survives(es, prefix, path, x)
  {
    hide Present, VolatileFile, Reached, Relative;
    PresentSplits(e, es, path, x);
    forall mode: nat
      ensures Present([e] + es, path, Dir(mode, [])) <==>
        Present([e], path, Dir(mode, [])) || Present(es, path, Dir(mode, []))
    {
      PresentSplits(e, es, path, Dir(mode, []));
    }
  }

  lemma PresentJoins(a: seq<Entry>, b: seq<Entry>, path: Path, x: Node)
    ensures Present(a + b, path, x) <==> Present(a, path, x) || Present(b, path, x)
  {
    if path != [] {
      hide PresentIn;
      if Present(a, path, x) || Present(b, path, x) {
        var e :| (e in a || e in b) && PresentIn(e, path, x);
        assert e in a + b;
      }
    }
  }

  /** Normalisation, exactly: what stands at any path of the result is what must survive
      there, and nothing else. */
  lemma {:induction false} NormalizeKeepsExactly(es: seq<Entry>, prefix: string, path: Path, x: Node)
    requires Normalize(es, prefix).Some?
    ensures Present(Normalize(es, prefix).value, path, x) <==> Survives(es, prefix, path, x)
    decreases es
  {
    if es != [] && path != [] {
      var e, rest := es[0], es[1..];
      NormalizeKeepsExactly(rest, prefix, path, x);
      if |path| == 1 {
        EntrySurvivesHere(e, prefix, path, x);
      } else {
        if e.node.Dir? && Join(prefix, e.name) !in VOLATILE_DIRECTORIES {
          NormalizeKeepsExactly(e.node.entries, Join(prefix, e.name), path[1..], x);
        }
        EntrySurvivesBelow(e, prefix, path, x);
      }
      hide Present, Survives, NormalizeEntry;
      assert es == [e] + rest;
      SurvivesSplits(e, rest, prefix, path, x);
      PresentJoins(NormalizeEntry(e, prefix).value, Normalize(rest, prefix).value, path, x);
    }
  }

  // --------------------------------------------------------------------- refusals

  ghost predicate Offending(es: seq<Entry>, prefix: string) {
    exists path: Path, x: Node :: Offends(es, prefix, path, x)
  }

  ghost predicate HoldsSpecial(es: seq<Entry>) {
    exists path: Path :: Present(es, path, Special)
  }

  lemma OffendingSplits(e: Entry, es: seq<Entry>, prefix: string)
    ensures Offending([e] + es, prefix) <==> Offending([e], prefix) || Offending(es, prefix)
    ensures HoldsSpecial([e] + es) <==> HoldsSpecial([e]) || HoldsSpecial(es)
  {
    hide Present, Reached;
    forall path: Path, x: Node
      ensures Offends([e] + es, prefix, path, x) <==> Offends([e], prefix, path, x) || Offends(es, prefix, path, x)
    {
      PresentJoins([e], es, path, x);
    }
    forall path: Path
      ensures Present([e] + es, path, Special) <==> Present([e], path, Special) || Present(es, path, Special)
    {
      PresentJoins([e], es, path, Special);
    }
  }

  /** The paths below an entry are those of its directory with its name in front. */
  lemma PresentBelow(e: Entry, path: Path, x: Node)
    requires e.node.Dir? && path != []
    ensures Present([e], [e.name] + path, x) <==> Present(e.node.entries, path, x)
  {
    PresentSplits(e, [], [e.name] + path, x);
    assert ([e.name] + path)[1..] == path;
  }

  lemma OffendsBelow(e: Entry, prefix: string, path: Path, x: Node)
    requires e.node.Dir? && path != []
    ensures Offends([e], prefix, [e.name] + path, x) <==>
      if Join(prefix, e.name) in VOLATILE_DIRECTORIES then x == Special && Present(e.node.entries, path, x)
      else Offends(e.node.entries, Join(prefix, e.name), path, x)
  {
    hide Present, Reached;
    PresentBelow(e, path, x);
    ReachedBelow(prefix, [e.name] + path);
    assert ([e.name] + path)[1..] == path;
  }

  /** A directory offends through what lies below it. */
  lemma DirectoryOffends(e: Entry, prefix: string)
    requires e.node.Dir?
    ensures Offending([e], prefix) <==>
      if Join(prefix, e.name) in VOLATILE_DIRECTORIES then HoldsSpecial(e.node.entries)
      else Offending(e.node.entries, Join(prefix, e.name))
    ensures HoldsSpecial([e]) <==> HoldsSpecial(e.node.entries)
  {
    forall path: Path, x: Node | Offends([e], prefix, path, x) || (Present([e], path, x) && x.Special?)
      ensures |path| > 1 && path == [e.name] + path[1..]
    {
      PresentSplits(e, [], path, x);
    }
    hide Offends, Present;
    forall path: Path, x: Node | path != []
      ensures Offends([e], prefix, [e.name] + path, x) <==>
        if Join(prefix, e.name) in VOLATILE_DIRECTORIES then x == Special && Present(e.node.entries, path, x)
        else Offends(e.node.entries, Join(prefix, e.name), path, x)
      ensures Present([e], [e.name] + path, x) <==> Present(e.node.entries, path, x)
    {
      OffendsBelow(e, prefix, path, x);
      PresentBelow(e, path, x);
    }
  }

  lemma LeafOffends(e: Entry, prefix: string)
    requires !e.node.Dir?
    ensures Offending([e], prefix) <==> NormalizeEntry(e, prefix).None?
    ensures HoldsSpecial([e]) <==> e.node.Special?
  {
    PresentSplits(e, [], [e.name], e.node);
    forall path: Path, x: Node | Present([e], path, x)
      ensures path == [e.name] && x == e.node
    {
      PresentSplits(e, [], path, x);
    }
    assert Offends([e], prefix, [e.name], e.node) <==> NormalizeEntry(e, prefix).None?;
  }

  /** A recursive deletion is stopped exactly by a special file. */
  lemma {:induction false} RemovableIsExact(es: seq<Entry>)
    ensures Removable(es) <==> !HoldsSpecial(es)
    decreases es
  {
    hide HoldsSpecial, Offending;
    if es == [] {
      NothingPresent("");
    } else {
      RemovableIsExact(es[1..]);
      assert es == [es[0]] + es[1..];
      OffendingSplits(es[0], es[1..], "");
      if es[0].node.Dir? {
        RemovableIsExact(es[0].node.entries);
        DirectoryOffends(es[0], "");
      } else {
        LeafOffends(es[0], "");
      }
    }
  }

  lemma NothingPresent(prefix: string)
    ensures !HoldsSpecial([]) && !Offending([], prefix)
  {
  }

  /** Normalisation refuses exactly where it must: at a special file anywhere, and at a link
      or a nested manifest that is not below a volatile directory. */
  lemma {:induction false} NormalizeRefusesExactly(es: seq<Entry>, prefix: string)
    ensures Normalize(es, prefix).None? <==> Offending(es, prefix)
    decreases es
  {
    hide HoldsSpecial, Offending;
    if es == [] {
      NothingPresent(prefix);
    } else {
      NormalizeRefusesExactly(es[1..], prefix);
      assert es == [es[0]] + es[1..];
      OffendingSplits(es[0], es[1..], prefix);
      if es[0].node.Dir? {
        RemovableIsExact(es[0].node.entries);
        NormalizeRefusesExactly(es[0].node.entries, Join(prefix, es[0].name));
        DirectoryOffends(es[0], prefix);
      } else {
        LeafOffends(es[0], prefix);
      }
    }
  }

  /** A file name is volatile exactly if it is listed, or has something before `.lock` or `.lck`. */
  lemma VolatileIsExact(name: string)
    ensures VolatileFile(name) <==>
      name in VOLATILE_NAMES || exists stem: string :: stem != "" && (name == stem + ".lock" || name == stem + ".lck")
  {
    var i := LastIndex(name, '.');
    if 0 < i < |name| - 1 {
      assert name == name[..i] + name[i..];
    }
    forall stem: string | stem != "" && (name == stem + ".lock" || name == stem + ".lck")
      ensures Suffix(name) in VOLATILE_SUFFIXES
    {
      assert name[|stem|] == '.';
      assert forall j :: |stem| < j < |name| ==> name[j] != '.';
      assert i == |stem| && name[i..] == if name == stem + ".lock" then ".lock" else ".lck";
    }
  }
}
