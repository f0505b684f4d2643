/** The lock file that is published under two names through a third
    (_lock_file in scripts/cold_cache_authority.py). Calls run one at a time,
    under a lock on the directory, and may die between any two system calls. */
module LockPublication {
  import opened Base

  type Inode = nat

  /** The three names of one lock and the link counts of the inodes they name. */
  datatype Directory = Directory(
    candidate: Option<Inode>,
    primary: Option<Inode>,
    companion: Option<Inode>,
    links: map<Inode, nat>)

  datatype Result = Locked(inode: Inode) | Refused | Missing | Crashed

  function LinksOf(d: Directory, i: Inode): nat {
    if i in d.links then d.links[i] else 0
  }

  /** How many of the names are present. */
  function Names(d: Directory): nat {
    (if d.candidate.Some? then 1 else 0) + (if d.primary.Some? then 1 else 0) + (if d.companion.Some? then 1 else 0)
  }

  /** The directory after `k` of the four publication steps on inode `i`. */
  predicate AtStage(d: Directory, k: nat, i: Inode) {
    && k <= 4
    && d.candidate == (if 1 <= k <= 3 then Some(i) else None)
    && d.primary == (if 2 <= k then Some(i) else None)
    && d.companion == (if 3 <= k then Some(i) else None)
    && (k != 0 ==> LinksOf(d, i) == Names(d))
  }

  /** Link a further name to the inode, or create it with its first name. */
  function Advance(d: Directory, k: nat, i: Inode): Directory
    requires k < 4
  {
    match k
    case 0 => d.(candidate := Some(i), links := d.links[i := 1])
    case 1 => d.(primary := Some(i), links := d.links[i := LinksOf(d, i) + 1])
    case 2 => d.(companion := Some(i), links := d.links[i := LinksOf(d, i) + 1])
    case 3 => d.(candidate := None, links := d.links[i := if LinksOf(d, i) == 0 then 0 else LinksOf(d, i) - 1])
  }

  /** The directory after a call that makes at most `budget` changes. */
  function After(d: Directory, k: nat, i: Inode, budget: nat): Directory
    requires k <= 4
    decreases budget
  {
    if k == 4 || budget == 0 then d else After(Advance(d, k, i), k + 1, i, budget - 1)
  }

  /** The publication stage of a directory; None when it is not a stage at all. */
  function Stage(d: Directory): Option<(nat, Inode)> {
    if Names(d) == 0 then Some((0, 0))
    else
      var i := if d.candidate.Some? then d.candidate.value else if d.primary.Some? then d.primary.value
        else d.companion.value;
      var k := if d.candidate.None? then 4 else Names(d);
      if AtStage(d, k, i) then Some((k, i)) else None
  }

  /** Stage finds the stage exactly when there is one. */
  lemma StageIsExact(d: Directory, k: nat, i: Inode)
    ensures AtStage(d, k, i) && k > 0 ==> Stage(d) == Some((k, i))
    ensures AtStage(d, 0, i) ==> Stage(d) == Some((0, 0))
    ensures Stage(d).Some? ==> AtStage(d, Stage(d).value.0, Stage(d).value.1)
  {
  }

  class LockDirectory {
    var candidate: Option<Inode>
    var primary: Option<Inode>
    var companion: Option<Inode>
    var links: map<Inode, nat>

    function View(): Directory
      reads this
    {
      Directory(candidate, primary, companion, links)
    }

    constructor ()
      ensures View() == Directory(None, None, None, map[])
    {
      candidate, primary, companion, links := None, None, None, map[];
    }

    method LinkCount(i: Inode) returns (n: nat)
      ensures n == LinksOf(View(), i)
    {
      n := if i in links then links[i] else 0;
    }

    /** Take the lock, finishing an interrupted publication first. `spare` is the
        inode a creation would get; the process dies after `budget` changes.

        A directory that is no publication stage is refused untouched. Otherwise a
        creating call moves it forward one stage per change, on the inode already
        there, and locks the complete pair; it never refuses. */
    method LockFile(create: bool, spare: Inode, budget: nat) returns (r: Result)
      requires spare !in links
      modifies this
      ensures Stage(old(View())).None? ==> r == Refused && View() == old(View())
      ensures Stage(old(View())).Some? && !create ==>
                && View() == old(View())
                && r == (match Stage(View()).value.0 case 0 => Missing case 4 =>
                  Locked(Stage(View()).value.1) case _ => Refused)
      ensures Stage(old(View())).Some? && create ==>
                var k := Stage(old(View())).value.0;
                var i := if k == 0 then spare else Stage(old(View())).value.1;
                && View() == After(old(View()), k, i, budget)
                && AtStage(View(), if k + budget < 4 then k + budget else 4, i)
                && r == (if k + budget < 4 then Crashed else Locked(i))
      ensures View() == Apply(old(View()), Call(create, spare, budget))
      ensures LockedInode(old(View()), Call(create, spare, budget)) == if r.Locked? then Some(r.inode) else None
    {
      ghost var before := View();
      ghost var k0 := if candidate.None? && primary.None? && companion.None? then 0
                      else if candidate.None? then 4 else Names(View());
      var left := budget;
      if candidate.Some? {
        if !create {
          return Refused;
        }
        var i := candidate.value;
        var expected := 1 + (if primary.Some? then 1 else 0) + (if companion.Some? then 1 else 0);
        var count := LinkCount(i);
        if || count != expected
           || (primary.Some? && primary.value != i)
           || (companion.Some? && companion.value != i)
           || (companion.Some? && primary.None?)
        {
          return Refused;
        }
        assert Stage(before) == Some((k0, i)) && 1 <= k0 <= 3;
        if primary.None? {
          if left == 0 { return Crashed; }
          primary, links, left := Some(i), links[i := LinksOf(View(), i) + 1], left - 1;
        }
        assert After(before, k0, i, budget) == After(View(), if companion.None? then 2 else 3, i, left);
        if companion.None? {
          if left == 0 { return Crashed; }
          companion, links, left := Some(i), links[i := LinksOf(View(), i) + 1], left - 1;
        }
        assert After(before, k0, i, budget) == After(View(), 3, i, left);
        if left == 0 { return Crashed; }
        candidate, links := None, links[i := LinksOf(View(), i) - 1];
        assert After(before, k0, i, budget) == After(View(), 4, i, left - 1);
      } else if primary.Some? != companion.Some? {
        return Refused;
      } else if primary.None? {
        if !create {
          return Missing;
        }
        assert Stage(before) == Some((0, 0));
        if left == 0 { return Crashed; }
        candidate, links, left := Some(spare), links[spare := 1], left - 1;
        assert After(before, 0, spare, budget) == After(View(), 1, spare, left);
        if left == 0 { return Crashed; }
        primary, links, left := candidate, links[spare := LinksOf(View(), spare) + 1], left - 1;
        assert After(before, 0, spare, budget) == After(View(), 2, spare, left);
        if left == 0 { return Crashed; }
        companion, links, left := candidate, links[spare := LinksOf(View(), spare) + 1], left - 1;
        assert After(before, 0, spare, budget) == After(View(), 3, spare, left);
        if left == 0 { return Crashed; }
        candidate, links := None, links[spare := LinksOf(View(), spare) - 1];
        assert After(before, 0, spare, budget) == After(View(), 4, spare, left - 1);
      }
      var pair := LinkCount(primary.value);
      if primary.value != companion.value || pair != 2 {
        return Refused;
      }
      r := Locked(primary.value);
    }
  }

  // ------------------------------------------------------------ runs of calls

  /** One call: whether it may create, the inode it would get, when it dies. */
  datatype Call = Call(create: bool, spare: Inode, budget: nat)

  function Apply(d: Directory, c: Call): Directory {
    if Stage(d).None? || !c.create then d
    else After(d, Stage(d).value.0, if Stage(d).value.0 == 0 then c.spare else Stage(d).value.1, c.budget)
  }

  /** The inode a call locks, if it locks one. */
  function LockedInode(d: Directory, c: Call): Option<Inode> {
    if Stage(d).None? then None
    else
      var (k, i) := Stage(d).value;
      if c.create then (if k + c.budget >= 4 then Some(if k == 0 then c.spare else i) else None)
      else if k == 4 then Some(i) else None
  }

  function Run(d: Directory, calls: seq<Call>): Directory
    decreases calls
  {
    if calls == [] then d else Run(Apply(d, calls[0]), calls[1..])
  }

  /** Creation never reuses an inode the directory knows. */
  predicate FreshCalls(d: Directory, calls: seq<Call>)
    decreases calls
  {
    calls == [] || (calls[0].spare !in d.links && FreshCalls(Apply(d, calls[0]), calls[1..]))
  }

  const EMPTY := Directory(None, None, None, map[])

  /** Changes move a directory forward along the stages of one inode. */
  lemma {:induction false} AfterIsStage(d: Directory, k: nat, i: Inode, budget: nat)
    requires AtStage(d, k, i) && (k == 0 ==> i !in d.links)
    ensures AtStage(After(d, k, i, budget), if k + budget < 4 then k + budget else 4, i)
    decreases budget
  {
    if k < 4 && budget > 0 {
      assert AtStage(Advance(d, k, i), k + 1, i);
      AfterIsStage(Advance(d, k, i), k + 1, i, budget - 1);
    }
  }

  lemma ApplyIsStage(d: Directory, c: Call)
    requires Stage(d).Some? && c.spare !in d.links
    ensures Stage(Apply(d, c)).Some? && Stage(Apply(d, c)).value.0 >= Stage(d).value.0
    ensures Stage(d).value.0 > 0 ==> Stage(Apply(d, c)).value.1 == Stage(d).value.1
    ensures LockedInode(d, c).Some? ==> Stage(Apply(d, c)) == Some((4, LockedInode(d, c).value))
  {
    var (k, i) := Stage(d).value;
    if c.create {
      AfterIsStage(d, k, if k == 0 then c.spare else i, c.budget);
    }
  }

  /** Over any run of calls and crashes from an empty directory the names are
      always at one of the five stages, so no creating call is ever refused. */
  lemma {:induction false} RunIsStage(d: Directory, calls: seq<Call>)
    requires Stage(d).Some? && FreshCalls(d, calls)
    ensures Stage(Run(d, calls)).Some? && Stage(Run(d, calls)).value.0 >= Stage(d).value.0
    ensures Stage(d).value.0 > 0 ==> Stage(Run(d, calls)).value.1 == Stage(d).value.1
    decreases calls
  {
    if calls != [] {
      ApplyIsStage(d, calls[0]);
      RunIsStage(Apply(d, calls[0]), calls[1..]);
    }
  }

  /** Each of the five stages is left by some crash, so they are exactly the
      reachable states. */
  lemma EveryStageReachable(k: nat, i: Inode)
    requires k <= 4
    ensures FreshCalls(EMPTY, [Call(true, i, k)])
    ensures AtStage(Run(EMPTY, [Call(true, i, k)]), k, i)
  {
    var calls := [Call(true, i, k)];
    AfterIsStage(EMPTY, 0, i, k);
    assert calls[1..] == [];
    assert Run(EMPTY, calls) == Run(Apply(EMPTY, calls[0]), []);
  }

  /** Everyone who ever gets the lock gets it on the same inode, whatever crashed
      in between: the lock really excludes. */
  lemma LocksAgree(d: Directory, first: Call, between: seq<Call>, second: Call)
    requires Stage(d).Some? && FreshCalls(d, [first] + between + [second])
    requires LockedInode(d, first).Some?
    ensures LockedInode(Run(Apply(d, first), between), second) == LockedInode(d, first)
  {
    assert ([first] + between + [second])[1..] == between + [second];
    ApplyIsStage(d, first);
    FreshPrefix(Apply(d, first), between, [second]);
    RunIsStage(Apply(d, first), between);
  }

  lemma {:induction false} FreshPrefix(d: Directory, a: seq<Call>, b: seq<Call>)
    requires FreshCalls(d, a + b)
    ensures FreshCalls(d, a)
    decreases a
  {
    if a != [] {
      assert (a + b)[0] == a[0] && (a + b)[1..] == a[1..] + b;
      FreshPrefix(Apply(d, a[0]), a[1..], b);
    }
  }
}
