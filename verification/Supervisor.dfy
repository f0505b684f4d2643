/** The build supervisor of bootstrap/clew_bootstrap.py: every process group that
    is registered while a cancellation happens must be handed to termination. */
module Supervisor {
  import opened Base

  type Pid = nat
  type Thread = nat

  /** A process; two processes may get the same pid at different times. */
  datatype Process = Process(pid: Pid, serial: nat)

  /** The fields of the supervisor. */
  datatype Fields = Fields(cancelled: bool, processes: map<Pid, Process>, started: set<Pid>)

  /** What one collection hands to termination. */
  function Collected(f: Fields): set<Process> {
    set pid | pid in f.processes && pid !in f.started :: f.processes[pid]
  }

  function CollectedPids(f: Fields): set<Pid> {
    set p | p in Collected(f) :: p.pid
  }

  function AfterRegister(f: Fields, p: Process): Fields {
    f.(processes := f.processes[p.pid := p])
  }

  function AfterCollect(f: Fields): Fields {
    f.(started := f.started + CollectedPids(f))
  }

  /** Every process is filed under its own pid. */
  predicate Filed(f: Fields) {
    forall pid :: pid in f.processes ==> f.processes[pid].pid == pid
  }

  class BuildProcessSupervisor {
    var cancelled: bool
    var processes: map<Pid, Process>
    var started: set<Pid>

    function View(): Fields
      reads this
    {
      Fields(cancelled, processes, started)
    }

    constructor ()
      ensures View() == Fields(false, map[], {})
    {
      cancelled, processes, started := false, map[], {};
    }

    method RequestCancel()
      modifies this
      ensures View() == old(View()).(cancelled := true)
    {
      cancelled := true;
    }

    /** Register a process; when cancellation was already requested, cancel at once
        and report that the caller must stop. */
    method Register(p: Process) returns (raised: bool, batch: seq<Process>)
      requires Filed(View())
      modifies this
      ensures raised == old(cancelled) && Filed(View())
      ensures !raised ==> View() == AfterRegister(old(View()), p) && batch == []
      ensures raised ==> View() == AfterCollect(AfterRegister(old(View()), p))
      ensures raised ==> (set x | x in batch) == Collected(AfterRegister(old(View()), p)) && NoDuplicates(batch)
    {
      processes := processes[p.pid := p];
      raised := cancelled;
      batch := [];
      if raised {
        batch := Cancel();
      }
    }

    method Unregister(p: Process)
      modifies this
      ensures View() == old(View()).(processes := old(processes) - {p.pid})
    {
      processes := processes - {p.pid};
    }

    /** Hand over each registered process that no earlier collection handed over. */
    method Cancel() returns (batch: seq<Process>)
      requires Filed(View())
      modifies this
      ensures View() == AfterCollect(old(View()).(cancelled := true))
      ensures (set x | x in batch) == Collected(old(View())) && NoDuplicates(batch)
    {
      RequestCancel();
      batch := [];
      var todo := processes.Keys;
      var begun := started;
      while todo != {}
        invariant todo <= processes.Keys && begun == started == old(started) && processes == old(processes) && cancelled
        invariant forall x :: x in batch <==>
          x.pid in processes && x.pid !in todo && x.pid !in begun && processes[x.pid] == x
        invariant NoDuplicates(batch)
        decreases |todo|
      {
        var pid :| pid in todo;
        todo := todo - {pid};
        if pid !in begun {
          batch := batch + [processes[pid]];
        }
      }
      assert (set x | x in batch) == Collected(old(View()));
      started := started + set x | x in batch :: x.pid;
      assert (set x | x in batch :: x.pid) == CollectedPids(old(View()));
    }
  }

  predicate NoDuplicates(s: seq<Process>) {
    forall i, j :: 0 <= i < j < |s| ==> s[i] != s[j]
  }

  // ------------------------------------------------------------------ interleavings

  /** Where a thread is inside cancel: about to set the flag, or about to collect. */
  datatype Pc = Quiet | MustSet | MustCollect

  /** The supervisor, its threads, everything handed over so far and how often, and
      whether some collection has happened. */
  datatype State = State(f: Fields, pcs: map<Thread, Pc>, handed: multiset<Process>, collected: bool)

  datatype Event =
    | RequestCancel
    | Register(t: Thread, p: Process)
    | CallCancel(t: Thread)
    | SetFlag(t: Thread)
    | Collect(t: Thread)
    | Unregister(p: Process)

  function PcOf(st: State, t: Thread): Pc {
    if t in st.pcs then st.pcs[t] else Quiet
  }

  /** The atomic sections: what runs under the lock, and setting the event. */
  function Next(st: State, e: Event): Option<State> {
    match e
    case RequestCancel => Some(st.(f := st.f.(cancelled := true)))
    case Register(t, p) =>
      if PcOf(st, t) != Quiet then None
      else Some(st.(f := AfterRegister(st.f, p), pcs := st.pcs[t := if st.f.cancelled then MustSet else Quiet]))
    case CallCancel(t) =>
      if PcOf(st, t) != Quiet then None else Some(st.(pcs := st.pcs[t := MustSet]))
    case SetFlag(t) =>
      if PcOf(st, t) != MustSet then None
      else Some(st.(f := st.f.(cancelled := true), pcs := st.pcs[t := MustCollect]))
    case Collect(t) =>
      if PcOf(st, t) != MustCollect then None
      else Some(State(AfterCollect(st.f), st.pcs[t := Quiet], st.handed + multiset(Collected(st.f)), true))
    case Unregister(p) => Some(st.(f := st.f.(processes := st.f.processes - {p.pid})))
  }

  const FRESH := State(Fields(false, map[], {}), map[], multiset{}, false)

  ghost predicate Possible(st: State, events: seq<Event>)
    decreases events
  {
    events == [] || (Next(st, events[0]).Some? && Possible(Next(st, events[0]).value, events[1..]))
  }

  ghost function Run(st: State, events: seq<Event>): State
    requires Possible(st, events)
    decreases events
  {
    if events == [] then st else Run(Next(st, events[0]).value, events[1..])
  }

  ghost predicate Inv(st: State) {
    && Filed(st.f)
    && (forall t :: PcOf(st, t).MustCollect? ==> st.f.cancelled)
    && (st.collected ==> st.f.cancelled)
    && (forall p :: st.handed[p] <= 1)
    && (forall p :: p in st.handed ==> p.pid in st.f.started)
    && (forall p, q :: p in st.handed && q in st.handed && p.pid == q.pid ==> p == q)
    // A process that no collection has seen is owed one by some thread.
    && (st.collected ==> forall pid :: pid in st.f.processes && pid !in st.f.started ==>
      exists t :: PcOf(st, t) != Quiet)
  }

  lemma CollectKeepsHanded(st: State, t: Thread)
    requires Inv(st) && PcOf(st, t).MustCollect?
    ensures var st' := Next(st, Collect(t)).value;
            && (forall p :: st'.handed[p] <= 1)
            && (forall p :: p in st'.handed ==> p.pid in st'.f.started)
            && (forall p, q :: p in st'.handed && q in st'.handed && p.pid == q.pid ==> p == q)
  {
    var st' := Next(st, Collect(t)).value;
    var batch := Collected(st.f);
    forall p
      ensures st'.handed[p] == st.handed[p] + if p in batch then 1 else 0
      ensures p in batch ==> p.pid !in st.f.started && p.pid in CollectedPids(st.f)
    {
    }
  }

  lemma NextKeepsInv(st: State, e: Event)
    requires Inv(st) && Next(st, e).Some?
    ensures Inv(Next(st, e).value)
  {
    var st' := Next(st, e).value;
    match e {
      case Collect(t) =>
        CollectKeepsHanded(st, t);
        forall pid | pid in st.f.processes && pid !in st.f.started
          ensures pid in st'.f.started
        {
          assert st.f.processes[pid] in Collected(st.f);
        }
      case Register(t, p) =>
        assert st.f.cancelled ==> PcOf(st', t) != Quiet;
        forall u
          ensures u != t ==> PcOf(st', u) == PcOf(st, u)
        {
        }
      case SetFlag(t) => assert PcOf(st', t) != Quiet;
      case CallCancel(t) =>
        assert PcOf(st', t) != Quiet;
        assert forall u :: u != t ==> PcOf(st', u) == PcOf(st, u);
      case _ =>
        forall pid | st.collected && pid in st'.f.processes && pid !in st'.f.started
          ensures exists u :: PcOf(st', u) != Quiet
        {
          var u :| PcOf(st, u) != Quiet;
          assert PcOf(st', u) != Quiet;
        }
        assert forall u :: PcOf(st', u) == PcOf(st, u);
    }
  }

  lemma {:induction false} RunKeepsInv(st: State, events: seq<Event>)
    requires Inv(st) && Possible(st, events)
    ensures Inv(Run(st, events))
    decreases events
  {
    if events != [] {
      NextKeepsInv(st, events[0]);
      RunKeepsInv(Next(st, events[0]).value, events[1..]);
    }
  }

  /** Whatever the interleaving, no process is handed over twice; and once a
      collection has happened and no thread is inside cancel, every process still
      registered, whenever it was, has its pid among those whose termination began. */
  lemma NothingIsHandedTwice(events: seq<Event>)
    requires Possible(FRESH, events)
    ensures var st := Run(FRESH, events);
            && (forall p :: st.handed[p] <= 1)
            && (st.collected && (forall t :: PcOf(st, t) == Quiet) ==> st.f.processes.Keys <= st.f.started)
  {
    RunKeepsInv(FRESH, events);
  }

  /** The registration of `p` finds its pid free: termination has not begun for it,
      or began for `p` itself. This is what a caller could check beforehand. */
  predicate FreePid(st: State, p: Process) {
    p.pid !in st.f.started || p in st.handed
  }

  predicate Enlisted(f: Fields, p: Process) {
    p.pid in f.processes && f.processes[p.pid] == p
  }

  /** `p` has been handed over, or the next collection hands it over. */
  predicate Safe(st: State, p: Process) {
    p in st.handed || (Enlisted(st.f, p) && p.pid !in st.f.started)
  }

  /** An event of `p` itself, and one of another process that has the same pid. */
  predicate IsOwn(e: Event, p: Process) {
    (e.Register? || e.Unregister?) && e.p == p
  }

  predicate IsForeign(e: Event, p: Process) {
    (e.Register? || e.Unregister?) && e.p != p && e.p.pid == p.pid
  }

  /** Between events of its own, `p` is lost exactly by an event of another process with
      its pid before it is handed over, and never regained. */
  lemma SafeStep(st: State, e: Event, p: Process)
    requires Filed(st.f) && Next(st, e).Some? && !IsOwn(e, p)
    ensures Safe(Next(st, e).value, p) <==> Safe(st, p) && (p in st.handed || !IsForeign(e, p))
  {
    if e.Collect? {
      var st' := Next(st, e).value;
      assert p in st'.handed <==> p in st.handed || p in Collected(st.f);
      if Enlisted(st.f, p) && p.pid !in st.f.started {
        assert p in Collected(st.f);
      }
    }
  }

  lemma RegisterIsSafe(st: State, t: Thread, p: Process)
    requires Next(st, Register(t, p)).Some?
    ensures Safe(Next(st, Register(t, p)).value, p) <==> FreePid(st, p)
  {
  }

  /** No event of another process with the pid of `p` comes before `p` is handed over. */
  ghost predicate Undisturbed(st: State, events: seq<Event>, p: Process)
    requires Possible(st, events)
    decreases events
  {
    events == [] ||
    ((p in st.handed || !IsForeign(events[0], p)) && Undisturbed(Next(st, events[0]).value, events[1..], p))
  }

  lemma {:induction false} SafeRun(st: State, events: seq<Event>, p: Process)
    requires Inv(st) && Possible(st, events) && forall e :: e in events ==> !IsOwn(e, p)
    ensures Safe(Run(st, events), p) <==> Safe(st, p) && Undisturbed(st, events, p)
    decreases events
  {
    if events != [] {
      assert events[0] in events;
      NextKeepsInv(st, events[0]);
      SafeStep(st, events[0], p);
      hide Inv, Next, Safe;
      SafeRun(Next(st, events[0]).value, events[1..], p);
    }
  }

  /** Cancellation, exactly. Let `p` be registered, for the last time, and not unregistered
      since. Once some cancel has collected and no thread is inside cancel, `p` has been
      handed to termination exactly once if that registration found its pid free and no
      registration or unregistration of another process with its pid came in between;
      and not at all otherwise. */
  lemma CancellationIsExact(before: seq<Event>, t: Thread, p: Process, after: seq<Event>)
    requires Possible(FRESH, before) && Next(Run(FRESH, before), Register(t, p)).Some?
    requires Possible(Next(Run(FRESH, before), Register(t, p)).value, after)
    requires forall e :: e in after ==> !IsOwn(e, p)
    requires var st := Run(Next(Run(FRESH, before), Register(t, p)).value, after);
             st.collected && forall u :: PcOf(st, u) == Quiet
    ensures var found := Run(FRESH, before);
            var registered := Next(found, Register(t, p)).value;
            var st := Run(registered, after);
            && (st.handed[p] == 1 <==> FreePid(found, p) && Undisturbed(registered, after, p))
            && (st.handed[p] == 0 <==> !(FreePid(found, p) && Undisturbed(registered, after, p)))
  {
    var found := Run(FRESH, before);
    RunKeepsInv(FRESH, before);
    NextKeepsInv(found, Register(t, p));
    var registered := Next(found, Register(t, p)).value;
    RegisterIsSafe(found, t, p);
    hide Inv, Next, Safe;
    SafeRun(registered, after, p);
    RunKeepsInv(registered, after);
  }

  predicate IsRequest(e: Event) {
    e.RequestCancel? || e.SetFlag?
  }

  /** A request for cancellation is never forgotten, and nothing else makes one. */
  lemma {:induction false} RequestIsKept(st: State, events: seq<Event>)
    requires Possible(st, events)
    ensures Run(st, events).f.cancelled <==> st.f.cancelled || exists e :: e in events && IsRequest(e)
    decreases events
  {
    if events != [] {
      RequestIsKept(Next(st, events[0]).value, events[1..]);
      assert Next(st, events[0]).value.f.cancelled <==> st.f.cancelled || IsRequest(events[0]);
      assert forall e :: e in events <==> e == events[0] || e in events[1..];
    }
  }

  /** Over every interleaving: a registration makes its caller cancel exactly if a request
      came before it. The two sections of that cancel can then be taken, and they leave
      the process handed over, once, exactly if the registration found its pid free. */
  lemma LateRegistrationCancels(events: seq<Event>, t: Thread, p: Process)
    requires Possible(FRESH, events) && PcOf(Run(FRESH, events), t) == Quiet
    ensures var st := Run(FRESH, events);
            && Next(st, Register(t, p)).Some?
            && var registered := Next(st, Register(t, p)).value;
            && (PcOf(registered, t) == MustSet <==> exists e :: e in events && IsRequest(e))
            && (PcOf(registered, t) == Quiet <==> forall e :: e in events ==> !IsRequest(e))
            && (PcOf(registered, t) == MustSet ==>
                  && Next(registered, SetFlag(t)).Some?
                  && var flagged := Next(registered, SetFlag(t)).value;
                  && Next(flagged, Collect(t)).Some?
                  && var st' := Next(flagged, Collect(t)).value;
                  PcOf(st', t) == Quiet && (st'.handed[p] == 1 <==> FreePid(st, p)) &&
                  (st'.handed[p] == 0 <==> !FreePid(st, p)))
  {
    RequestIsKept(FRESH, events);
    RunKeepsInv(FRESH, events);
    var st := Run(FRESH, events);
    hide Run, Possible, Inv, Safe, FreePid;
    NextKeepsInv(st, Register(t, p));
    var registered := Next(st, Register(t, p)).value;
    RegisterIsSafe(st, t, p);
    if PcOf(registered, t) == MustSet {
      var flagged := Next(registered, SetFlag(t)).value;
      NextKeepsInv(registered, SetFlag(t));
      NextKeepsInv(flagged, Collect(t));
      InvFacts(registered, p);
      SafeStep(registered, SetFlag(t), p);
      CollectedIsHanded(flagged, t, p);
      InvFacts(Next(flagged, Collect(t)).value, p);
    }
  }

  lemma InvFacts(st: State, p: Process)
    requires Inv(st)
    ensures Filed(st.f) && st.handed[p] <= 1
  {
  }

  lemma CollectedIsHanded(st: State, t: Thread, p: Process)
    requires PcOf(st, t) == MustCollect && Filed(st.f)
    ensures p in Next(st, Collect(t)).value.handed <==> Safe(st, p)
  {
    assert p in Collected(st.f) <==> Enlisted(st.f, p) && p.pid !in st.f.started;
  }

  lemma NextKeepsLost(st: State, e: Event, p: Process)
    requires p.pid in st.f.started && p !in st.handed && Filed(st.f) && Next(st, e).Some?
    ensures var st' := Next(st, e).value; p.pid in st'.f.started && p !in st'.handed
  {
    assert p !in Collected(st.f);
  }

  /** A process registered under a pid whose termination already began is never
      handed over, in any continuation. */
  lemma {:induction false} ReusedPidIsLost(st: State, events: seq<Event>, p: Process)
    requires Inv(st) && Possible(st, events) && p.pid in st.f.started && p !in st.handed
    ensures p !in Run(st, events).handed && p.pid in Run(st, events).f.started
    decreases events
  {
    if events != [] {
      NextKeepsInv(st, events[0]);
      NextKeepsLost(st, events[0], p);
      hide Inv, Next;
      ReusedPidIsLost(Next(st, events[0]).value, events[1..], p);
    }
  }

  const OLD := Process(7, 0)
  const NEW := Process(7, 1)
  const AFTER_CANCEL := State(Fields(true, map[7 := OLD], {7}), map[0 := Quiet, 1 := Quiet], multiset{OLD}, true)

  lemma {:induction false} PossibleSplit(st: State, a: seq<Event>, b: seq<Event>)
    requires Possible(st, a) && Possible(Run(st, a), b)
    ensures Possible(st, a + b) && Run(st, a + b) == Run(Run(st, a), b)
    decreases a
  {
    if a == [] {
      assert a + b == b;
    } else {
      assert (a + b)[0] == a[0] && (a + b)[1..] == a[1..] + b;
      PossibleSplit(Next(st, a[0]).value, a[1..], b);
    }
  }

  lemma FirstCancel()
    ensures var events := [Register(0, OLD), CallCancel(1), SetFlag(1), Collect(1)];
            Possible(FRESH, events) && Run(FRESH, events) == AFTER_CANCEL
  {
    var events := [Register(0, OLD), CallCancel(1), SetFlag(1), Collect(1)];
    var s1 := Next(FRESH, events[0]).value;
    var s2 := Next(s1, events[1]).value;
    var s3 := Next(s2, events[2]).value;
    assert s3.f == Fields(true, map[7 := OLD], {});
    assert Collected(s3.f) == {OLD} by {
      assert 7 in s3.f.processes && s3.f.processes[7] == OLD;
      assert OLD in Collected(s3.f);
    }
    assert CollectedPids(s3.f) == {7};
    assert Next(s3, events[3]).value == AFTER_CANCEL;
    hide Next;
    FourSteps(FRESH, s1, s2, s3, AFTER_CANCEL, events[0], events[1], events[2], events[3]);
  }

  lemma OneMore(st: State, e: Event, mid: State, events: seq<Event>)
    requires Next(st, e) == Some(mid) && Possible(mid, events)
    ensures Possible(st, [e] + events) && Run(st, [e] + events) == Run(mid, events)
  {
    assert ([e] + events)[1..] == events;
  }

  lemma FourSteps(s0: State, s1: State, s2: State, s3: State, s4: State, a: Event, b: Event, c: Event, d: Event)
    requires Next(s0, a) == Some(s1) && Next(s1, b) == Some(s2) && Next(s2, c) == Some(s3) && Next(s3, d) == Some(s4)
    ensures Possible(s0, [a, b, c, d]) && Run(s0, [a, b, c, d]) == s4
  {
    hide Next;
    OneMore(s3, d, s4, []);
    OneMore(s2, c, s3, [d] + []);
    OneMore(s1, b, s2, [c] + ([d] + []));
    OneMore(s0, a, s1, [b] + ([c] + ([d] + [])));
    assert [a] + ([b] + ([c] + ([d] + []))) == [a, b, c, d];
  }

  lemma ReusedPid()
    ensures var events := [Unregister(OLD), Register(0, NEW), SetFlag(0), Collect(0)];
            && Possible(AFTER_CANCEL, events)
            && Run(AFTER_CANCEL, events).f.processes == map[7 := NEW]
            && Run(AFTER_CANCEL, events).handed == multiset{OLD}
  {
    var events := [Unregister(OLD), Register(0, NEW), SetFlag(0), Collect(0)];
    var s1 := Next(AFTER_CANCEL, events[0]).value;
    var s2 := Next(s1, events[1]).value;
    var s3 := Next(s2, events[2]).value;
    assert s3.f == Fields(true, map[7 := NEW], {7});
    assert Collected(s3.f) == {};
    var s4 := Next(s3, events[3]).value;
    assert s4.f.processes == map[7 := NEW] && s4.handed == multiset{OLD};
    hide Next;
    FourSteps(AFTER_CANCEL, s1, s2, s3, s4, events[0], events[1], events[2], events[3]);
  }

  /** One such run: pid 7 is cancelled, its process unregistered, the pid reused. */
  lemma ReusedPidExample()
    ensures var events := [Register(0, OLD), CallCancel(1), SetFlag(1), Collect(1)]
                        + [Unregister(OLD), Register(0, NEW), SetFlag(0), Collect(0)];
            && Possible(FRESH, events)
            && Run(FRESH, events).f.processes == map[7 := NEW]
            && NEW !in Run(FRESH, events).handed
  {
    FirstCancel();
    ReusedPid();
    PossibleSplit(FRESH, [Register(0, OLD), CallCancel(1), SetFlag(1), Collect(1)],
                  [Unregister(OLD), Register(0, NEW), SetFlag(0), Collect(0)]);
  }

  lemma Displaced()
    ensures var events := [Register(0, OLD), Register(1, NEW), Unregister(OLD), CallCancel(2)];
            && Possible(FRESH, events)
            && Run(FRESH, events) == State(Fields(false, map[], {}), map[0 := Quiet, 1 := Quiet, 2 := MustSet],
              multiset{}, false)
  {
    var events := [Register(0, OLD), Register(1, NEW), Unregister(OLD), CallCancel(2)];
    var s1 := Next(FRESH, events[0]).value;
    var s2 := Next(s1, events[1]).value;
    var s3 := Next(s2, events[2]).value;
    var s4 := Next(s3, events[3]).value;
    assert s1.f.processes == map[7 := OLD] && s2.f.processes == map[7 := NEW] && s3.f.processes == map[];
    assert s4.pcs == map[0 := Quiet, 1 := Quiet, 2 := MustSet];
    hide Next;
    FourSteps(FRESH, s1, s2, s3, s4, events[0], events[1], events[2], events[3]);
  }

  /** A run in which a pid is reused and no termination had begun for it: the old process
      has ended, the new one registers under its pid, and then the old one's own
      unregistration removes the new one's entry. Cancellation hands nothing over. */
  lemma DisplacedPidExample()
    ensures var events := [Register(0, OLD), Register(1, NEW), Unregister(OLD), CallCancel(2)] + [SetFlag(2),
      Collect(2)];
            && Possible(FRESH, events)
            && Run(FRESH, events).collected && (forall t :: PcOf(Run(FRESH, events), t) == Quiet)
            && NEW !in Run(FRESH, events).handed
  {
    Displaced();
    var st := Run(FRESH, [Register(0, OLD), Register(1, NEW), Unregister(OLD), CallCancel(2)]);
    var s1 := Next(st, SetFlag(2)).value;
    assert Collected(s1.f) == {};
    var s2 := Next(s1, Collect(2)).value;
    assert s2.handed == multiset{} && forall t :: PcOf(s2, t) == Quiet;
    hide Next;
    OneMore(s1, Collect(2), s2, []);
    OneMore(st, SetFlag(2), s1, [Collect(2)] + []);
    assert [SetFlag(2)] + ([Collect(2)] + []) == [SetFlag(2), Collect(2)];
    PossibleSplit(FRESH, [Register(0, OLD), Register(1, NEW), Unregister(OLD), CallCancel(2)],
      [SetFlag(2), Collect(2)]);
  }

  // ------------------------------------------------------------------- build stages

  /** A thread in run_build_stage. `enrolled` says whether its process was registered. */
  datatype Stage =
    | Spawned(p: Process)
    | Running(p: Process)
    | Cancelling(p: Process, enrolled: bool)
    | Leaving(p: Process, enrolled: bool)
    | Left(p: Process, enrolled: bool)

  type Stages = map<Thread, Stage>

  /** The supervisor, the stages of its threads and the processes that have ended. */
  datatype Build = Build(sup: State, stages: Stages, exited: set<Process>)

  datatype StageEvent =
    | Start(t: Thread, p: Process)
    | Enrol(t: Thread)
    | Fault(t: Thread)
    | CancelStep(t: Thread)
    | Exit(p: Process)
    | Finish(t: Thread)
    | Leave(t: Thread)
    | Outside(e: Event)

  predicate IsEnrolled(s: Stage) {
    s.Running? || (!s.Spawned? && s.enrolled)
  }

  /** Whether a stage can take this step. A process is started once, and gets a pid that no
      process which is still running has. */
  ghost predicate Allowed(b: Build, e: StageEvent) {
    match e
    case Start(t, p) =>
      && t !in b.stages
      && forall u :: u in b.stages ==>
           b.stages[u].p != p && (b.stages[u].p.pid == p.pid ==> b.stages[u].p in b.exited)
    case Enrol(t) => t in b.stages && b.stages[t].Spawned?
    case Fault(t) => t in b.stages && (b.stages[t].Spawned? || b.stages[t].Running?)
    case CancelStep(t) => t in b.stages && b.stages[t].Cancelling?
    case Exit(p) => true
    case Finish(t) => t in b.stages && b.stages[t].Running? && b.stages[t].p in b.exited
    case Leave(t) => t in b.stages && b.stages[t].Leaving?
    case Outside(ev) => !ev.Register? && !ev.Unregister? && (ev.RequestCancel? || ev.t !in b.stages)
  }

  /** The step of the supervisor that goes with it. */
  function SupStep(b: Build, e: StageEvent): Option<Event> {
    match e
    case Enrol(t) => if t in b.stages then Some(Register(t, b.stages[t].p)) else None
    case Fault(t) => Some(CallCancel(t))
    case CancelStep(t) => Some(if PcOf(b.sup, t) == MustSet then SetFlag(t) else Collect(t))
    case Leave(t) => if t in b.stages then Some(Unregister(b.stages[t].p)) else None
    case Outside(ev) => Some(ev)
    case _ => None
  }

  /** The stages after it. */
  function Moved(b: Build, e: StageEvent): Stages {
    match e
    case Start(t, p) => b.stages[t := Spawned(p)]
    case Enrol(t) =>
      if t in b.stages then
        b.stages[t := if b.sup.f.cancelled then Cancelling(b.stages[t].p, true) else Running(b.stages[t].p)]
      else b.stages
    case Fault(t) => if t in b.stages then b.stages[t := Cancelling(b.stages[t].p, b.stages[t].Running?)] else b.stages
    case CancelStep(t) =>
      if t in b.stages && b.stages[t].Cancelling? && PcOf(b.sup, t) != MustSet then
        b.stages[t := Leaving(b.stages[t].p, b.stages[t].enrolled)]
      else b.stages
    case Finish(t) => if t in b.stages then b.stages[t := Leaving(b.stages[t].p, true)] else b.stages
    case Leave(t) =>
      if t in b.stages && b.stages[t].Leaving? then b.stages[t := Left(b.stages[t].p, b.stages[t].enrolled)]
        else b.stages
    case _ => b.stages
  }

  /** One step of a stage, of its process, or of a thread that runs none. */
  ghost function NextBuild(b: Build, e: StageEvent): Option<Build> {
    var sup := match SupStep(b, e) case None => Some(b.sup) case Some(ev) => Next(b.sup, ev);
    if !Allowed(b, e) || sup.None? then None
    else Some(Build(sup.value, Moved(b, e), if e.Exit? then b.exited + {e.p} else b.exited))
  }

  /** The process of a stage that has enrolled it. */
  ghost predicate Owned(stages: Stages, p: Process) {
    exists t :: t in stages && stages[t].p == p && IsEnrolled(stages[t])
  }

  ghost predicate AllOwned(stages: Stages, sup: State) {
    && (forall p :: p in sup.handed ==> Owned(stages, p))
    && (forall pid :: pid in sup.f.processes ==> Owned(stages, sup.f.processes[pid]))
  }

  /** No two stages have the same process. */
  ghost predicate Distinct(stages: Stages) {
    forall t, u :: t in stages && u in stages && stages[t].p == stages[u].p ==> t == u
  }

  ghost predicate BuildInv(b: Build) {
    Inv(b.sup) && Distinct(b.stages) && AllOwned(b.stages, b.sup)
  }

  /** Stages only move on: no process loses its stage or its enrolment. */
  lemma StagesMoveOn(b: Build, e: StageEvent)
    requires Allowed(b, e)
    ensures forall t :: t in b.stages ==>
      && t in Moved(b, e) && Moved(b, e)[t].p == b.stages[t].p
      && (IsEnrolled(b.stages[t]) ==> IsEnrolled(Moved(b, e)[t]))
  {
  }

  lemma OwnersStay(stages: Stages, stages': Stages, p: Process)
    requires Owned(stages, p)
    requires forall t :: t in stages ==>
      t in stages' && stages'[t].p == stages[t].p && (IsEnrolled(stages[t]) ==> IsEnrolled(stages'[t]))
    ensures Owned(stages', p)
  {
    var t :| t in stages && stages[t].p == p && IsEnrolled(stages[t]);
    assert t in stages' && stages'[t].p == p && IsEnrolled(stages'[t]);
  }

  /** The supervisor lists and hands over only what was registered. */
  lemma SupKeepsOwned(stages: Stages, sup: State, e: Event)
    requires AllOwned(stages, sup) && Next(sup, e).Some? && (e.Register? ==> Owned(stages, e.p))
    ensures AllOwned(stages, Next(sup, e).value)
  {
    hide Owned;
    if e.Collect? {
      var sup' := Next(sup, e).value;
      forall p | p in sup'.handed
        ensures Owned(stages, p)
      {
        assert p in sup.handed || p in Collected(sup.f);
      }
    }
  }

  lemma MovedIsDistinct(b: Build, e: StageEvent)
    requires Allowed(b, e) && Distinct(b.stages)
    ensures Distinct(Moved(b, e))
  {
  }

  lemma EnrolledIsOwned(b: Build, e: StageEvent)
    requires Allowed(b, e) && e.Enrol?
    ensures Owned(Moved(b, e), b.stages[e.t].p)
  {
    assert IsEnrolled(Moved(b, e)[e.t]);
  }

  lemma NextBuildKeepsInv(b: Build, e: StageEvent)
    requires BuildInv(b) && NextBuild(b, e).Some?
    ensures BuildInv(NextBuild(b, e).value)
  {
    StagesMoveOn(b, e);
    MovedIsDistinct(b, e);
    if e.Enrol? {
      EnrolledIsOwned(b, e);
    }
    hide Inv, Next, Distinct, AllOwned, Owned, Moved;
    var ev := SupStep(b, e);
    if ev.Some? {
      NextKeepsInv(b.sup, ev.value);
      SupKeepsOwned(Moved(b, e), b.sup, ev.value);
    }
  }

  ghost predicate PossibleBuild(b: Build, events: seq<StageEvent>)
    decreases events
  {
    events == [] || (NextBuild(b, events[0]).Some? && PossibleBuild(NextBuild(b, events[0]).value, events[1..]))
  }

  ghost function RunBuild(b: Build, events: seq<StageEvent>): Build
    requires PossibleBuild(b, events)
    decreases events
  {
    if events == [] then b else RunBuild(NextBuild(b, events[0]).value, events[1..])
  }

  const NEW_BUILD := Build(FRESH, map[], {})

  /** The step loses `p`: it registers `p` under a pid whose termination has begun for
      another process, or, before `p` is handed over, it is the registration or the
      unregistration of another stage's process with the pid of `p`. */
  ghost predicate Loses(b: Build, e: StageEvent, p: Process) {
    && Allowed(b, e)
    && match SupStep(b, e)
       case None => false
       case Some(ev) =>
         || (ev.Register? && ev.p == p && !FreePid(b.sup, p))
         || (IsForeign(ev, p) && Enlisted(b.sup.f, p) && p !in b.sup.handed)
  }

  ghost predicate NeverLost(b: Build, events: seq<StageEvent>, p: Process)
    requires PossibleBuild(b, events)
    decreases events
  {
    events == [] || (!Loses(b, events[0], p) && NeverLost(NextBuild(b, events[0]).value, events[1..], p))
  }

  /** An enrolled process will be handed over, or its stage, once it leaves, has seen it
      end or handed over. */
  predicate GoodStage(sup: State, exited: set<Process>, s: Stage) {
    IsEnrolled(s) ==>
      if s.Leaving? || s.Left? then s.p in exited || s.p in sup.handed else Safe(sup, s.p)
  }

  ghost predicate InGoodHands(b: Build, p: Process) {
    forall t :: t in b.stages && b.stages[t].p == p ==> GoodStage(b.sup, b.exited, b.stages[t])
  }

  lemma HandedStays(sup: State, e: Event, p: Process)
    requires p in sup.handed && Next(sup, e).Some?
    ensures p in Next(sup, e).value.handed
  {
  }

  /** A collection hands over whatever is safe. */
  lemma CollectHandsOver(sup: State, t: Thread, p: Process)
    requires Next(sup, Collect(t)).Some? && Safe(sup, p)
    ensures p in Next(sup, Collect(t)).value.handed
  {
    if p !in sup.handed {
      assert p in Collected(sup.f);
    }
  }

  /** A supervisor step that is not of this process keeps its stage good. */
  lemma OtherStepKeepsGood(b: Build, ev: Event, s: Stage)
    requires Filed(b.sup.f) && Next(b.sup, ev).Some? && !IsOwn(ev, s.p) && GoodStage(b.sup, b.exited, s)
    requires !(IsForeign(ev, s.p) && Enlisted(b.sup.f, s.p) && s.p !in b.sup.handed)
    ensures GoodStage(Next(b.sup, ev).value, b.exited, s)
  {
    SafeStep(b.sup, ev, s.p);
    if s.p in b.sup.handed {
      HandedStays(b.sup, ev, s.p);
    }
    hide Next;
  }

  /** The stage that moves: its process is registered, given up, seen to end or left behind. */
  lemma MoverStaysGood(b: Build, e: StageEvent, t: Thread)
    requires Filed(b.sup.f) && NextBuild(b, e).Some? && t in Moved(b, e) && !Loses(b, e, Moved(b, e)[t].p)
    requires !e.Exit? && !e.Outside? && e.t == t && (t in b.stages ==> GoodStage(b.sup, b.exited, b.stages[t]))
    ensures var b' := NextBuild(b, e).value; GoodStage(b'.sup, b'.exited, b'.stages[t])
  {
    match e
    case Enrol(_) => RegisterIsSafe(b.sup, t, b.stages[t].p);
    case Fault(_) => SafeStep(b.sup, CallCancel(t), b.stages[t].p);
    case CancelStep(_) =>
      if PcOf(b.sup, t) == MustSet {
        SafeStep(b.sup, SetFlag(t), b.stages[t].p);
      } else if Safe(b.sup, b.stages[t].p) {
        CollectHandsOver(b.sup, t, b.stages[t].p);
      }
    case Leave(_) =>
      if b.stages[t].p in b.sup.handed {
        HandedStays(b.sup, Unregister(b.stages[t].p), b.stages[t].p);
      }
    case _ =>
    hide Next;
  }

  lemma GoodHandsStep(b: Build, e: StageEvent, p: Process)
    requires BuildInv(b) && NextBuild(b, e).Some? && InGoodHands(b, p) && !Loses(b, e, p)
    ensures InGoodHands(NextBuild(b, e).value, p)
  {
    var b' := NextBuild(b, e).value;
    forall t | t in b'.stages && b'.stages[t].p == p
      ensures GoodStage(b'.sup, b'.exited, b'.stages[t])
    {
      GoodHandsAt(b, e, p, t);
    }
  }

  lemma GoodHandsAt(b: Build, e: StageEvent, p: Process, t: Thread)
    requires Filed(b.sup.f) && Distinct(b.stages) && NextBuild(b, e).Some? && InGoodHands(b, p) && !Loses(b, e, p)
    requires t in Moved(b, e) && Moved(b, e)[t].p == p
    ensures var b' := NextBuild(b, e).value; GoodStage(b'.sup, b'.exited, b'.stages[t])
  {
    hide Next, Safe;
    if !e.Exit? && !e.Outside? && e.t == t {
      StagesMoveOn(b, e);
      MoverStaysGood(b, e, t);
    } else {
      assert t in b.stages && Moved(b, e)[t] == b.stages[t];
      var ev := SupStep(b, e);
      if ev.Some? {
        OtherStepKeepsGood(b, ev.value, b.stages[t]);
      }
    }
  }

  /** Once lost, a process that its stage has enrolled is never handed over. */
  lemma GoneStep(b: Build, e: StageEvent, p: Process)
    requires BuildInv(b) && NextBuild(b, e).Some? && Owned(b.stages, p) && !Safe(b.sup, p)
    ensures var b' := NextBuild(b, e).value; Owned(b'.stages, p) && !Safe(b'.sup, p)
  {
    var b' := NextBuild(b, e).value;
    StagesMoveOn(b, e);
    OwnersStay(b.stages, Moved(b, e), p);
    var ev := SupStep(b, e);
    if ev.Some? {
      if IsOwn(ev.value, p) {
        OwnIsLeave(b, e, p);
      } else {
        SafeStep(b.sup, ev.value, p);
      }
    }
    hide Inv, AllOwned, Distinct, Owned;
  }

  lemma OwnIsLeave(b: Build, e: StageEvent, p: Process)
    requires Allowed(b, e) && Distinct(b.stages) && Owned(b.stages, p)
    requires SupStep(b, e).Some? && IsOwn(SupStep(b, e).value, p)
    ensures SupStep(b, e).value == Unregister(p)
  {
    var t :| t in b.stages && b.stages[t].p == p && IsEnrolled(b.stages[t]);
    assert forall u :: u in b.stages && b.stages[u].p == p ==> u == t;
  }

  lemma LosesIsGone(b: Build, e: StageEvent, p: Process)
    requires BuildInv(b) && NextBuild(b, e).Some? && Loses(b, e, p)
    ensures var b' := NextBuild(b, e).value; Owned(b'.stages, p) && !Safe(b'.sup, p)
  {
    StagesMoveOn(b, e);
    var ev := SupStep(b, e).value;
    if ev.Register? && ev.p == p {
      EnrolledIsOwned(b, e);
      RegisterIsSafe(b.sup, ev.t, p);
    } else {
      assert Owned(b.stages, p);
      OwnersStay(b.stages, Moved(b, e), p);
      SafeStep(b.sup, ev, p);
    }
    hide Inv, AllOwned, Distinct, Owned, Next, Safe;
  }

  lemma {:induction false} RunGone(b: Build, events: seq<StageEvent>, p: Process)
    requires BuildInv(b) && PossibleBuild(b, events) && Owned(b.stages, p) && !Safe(b.sup, p)
    ensures var b' := RunBuild(b, events); BuildInv(b') && !Safe(b'.sup, p)
    decreases events
  {
    hide BuildInv, NextBuild, Owned, Safe;
    if events != [] {
      GoneStep(b, events[0], p);
      NextBuildKeepsInv(b, events[0]);
      RunGone(NextBuild(b, events[0]).value, events[1..], p);
    }
  }

  /** Over a run a process stays in good hands exactly if no step loses it. */
  lemma {:induction false} RunKeepsHands(b: Build, events: seq<StageEvent>, p: Process)
    requires BuildInv(b) && PossibleBuild(b, events) && InGoodHands(b, p)
    ensures var b' := RunBuild(b, events);
            BuildInv(b') && if NeverLost(b, events, p) then InGoodHands(b', p) else !Safe(b'.sup, p)
    decreases events
  {
    hide BuildInv, NextBuild, InGoodHands, Loses, Safe;
    if events != [] {
      var e, next := events[0], NextBuild(b, events[0]).value;
      NextBuildKeepsInv(b, e);
      if Loses(b, e, p) {
        LosesIsGone(b, e, p);
        RunGone(next, events[1..], p);
      } else {
        GoodHandsStep(b, e, p);
        RunKeepsHands(next, events[1..], p);
      }
    }
  }

  /** Build stages, exactly. Whatever the interleaving of stages, failures, cancellations,
      exits and reuse of pids of ended processes: when a thread has left
      run_build_stage and its process still runs, that process has been handed to
      termination exactly if it was registered and no step of the run lost it. */
  lemma StagesAreExact(events: seq<StageEvent>, t: Thread)
    requires PossibleBuild(NEW_BUILD, events)
    requires var b := RunBuild(NEW_BUILD, events);
             t in b.stages && b.stages[t].Left? && b.stages[t].p !in b.exited
    ensures var b := RunBuild(NEW_BUILD, events);
            var s := b.stages[t];
            s.p in b.sup.handed <==> s.enrolled && NeverLost(NEW_BUILD, events, s.p)
  {
    var b := RunBuild(NEW_BUILD, events);
    var s := b.stages[t];
    RunKeepsHands(NEW_BUILD, events, s.p);
    if s.p in b.sup.handed {
      assert Owned(b.stages, s.p);
      assert s.enrolled;
    }
    hide Inv, RunBuild, PossibleBuild, NeverLost;
  }

  /** A stage that registers its process runs on exactly if no cancellation was requested;
      otherwise it is inside cancel at once. A request from outside always gets through. */
  lemma EnrolmentIsExact(b: Build, t: Thread)
    requires t in b.stages && b.stages[t].Spawned? && PcOf(b.sup, t) == Quiet
    ensures NextBuild(b, Enrol(t)).Some?
    ensures var b', p := NextBuild(b, Enrol(t)).value, b.stages[t].p;
            && Enlisted(b'.sup.f, p) && b'.exited == b.exited
            && b'.stages == b.stages[t := if b.sup.f.cancelled then Cancelling(p, true) else Running(p)]
            && PcOf(b'.sup, t) == if b.sup.f.cancelled then MustSet else Quiet
    ensures NextBuild(b, Outside(RequestCancel)) ==
      Some(b.(sup := b.sup.(f := b.sup.f.(cancelled := true))))
  {
  }

  /** The two sections of a stage's cancel hand its process over exactly if it is safe. */
  lemma CancellingEnds(b: Build, t: Thread)
    requires t in b.stages && b.stages[t].Cancelling? && PcOf(b.sup, t) == MustSet && Filed(b.sup.f)
    ensures NextBuild(b, CancelStep(t)).Some?
    ensures var b1 := NextBuild(b, CancelStep(t)).value;
            && NextBuild(b1, CancelStep(t)).Some?
            && var b2 := NextBuild(b1, CancelStep(t)).value;
            && b2.stages == b.stages[t := Leaving(b.stages[t].p, b.stages[t].enrolled)]
            && (b.stages[t].p in b2.sup.handed <==> Safe(b.sup, b.stages[t].p))
            && b2.sup.f.cancelled && PcOf(b2.sup, t) == Quiet && b2.sup.f.processes == b.sup.f.processes
  {
    var p := b.stages[t].p;
    var b1 := NextBuild(b, CancelStep(t)).value;
    SafeStep(b.sup, SetFlag(t), p);
    assert b1.stages == b.stages && b1.sup == Next(b.sup, SetFlag(t)).value;
    CollectedIsHanded(b1.sup, t, p);
    hide Safe, Filed;
  }

  /** A stage that fails, whether or not its process was registered, cancels, and then leaves
      with the pid of its process unregistered: everybody else's cancellation is requested, and
      its own process has been handed over exactly if the supervisor still had it. */
  lemma FailureEnds(b: Build, t: Thread)
    requires t in b.stages && (b.stages[t].Spawned? || b.stages[t].Running?)
    requires PcOf(b.sup, t) == Quiet && Filed(b.sup.f)
    ensures NextBuild(b, Fault(t)).Some?
    ensures var b1, p := NextBuild(b, Fault(t)).value, b.stages[t].p;
            && NextBuild(b1, CancelStep(t)).Some?
            && var b2 := NextBuild(b1, CancelStep(t)).value;
            && NextBuild(b2, CancelStep(t)).Some?
            && var b3 := NextBuild(b2, CancelStep(t)).value;
            && NextBuild(b3, Leave(t)).Some?
            && var b4 := NextBuild(b3, Leave(t)).value;
            && b4.stages == b.stages[t := Left(p, b.stages[t].Running?)]
            && (p in b4.sup.handed <==> Safe(b.sup, p))
            && b4.sup.f.cancelled && b4.sup.f.processes == b.sup.f.processes - {p.pid}
  {
    var b1, p := NextBuild(b, Fault(t)).value, b.stages[t].p;
    assert b1.stages == b.stages[t := Cancelling(p, b.stages[t].Running?)];
    SafeStep(b.sup, CallCancel(t), p);
    CancellingEnds(b1, t);
    var b3 := NextBuild(NextBuild(b1, CancelStep(t)).value, CancelStep(t)).value;
    hide Safe, Filed;
    var b4 := NextBuild(b3, Leave(t)).value;
    assert b4.stages == b.stages[t := Left(p, b.stages[t].Running?)];
  }

  // ---------------------------------------------------------------- two lost processes

  ghost predicate Builds(events: seq<StageEvent>, b: Build) {
    PossibleBuild(NEW_BUILD, events) && RunBuild(NEW_BUILD, events) == b
  }

  lemma {:induction false} BuildSplits(b: Build, x: seq<StageEvent>, y: seq<StageEvent>)
    requires PossibleBuild(b, x) && PossibleBuild(RunBuild(b, x), y)
    ensures PossibleBuild(b, x + y) && RunBuild(b, x + y) == RunBuild(RunBuild(b, x), y)
    decreases x
  {
    hide NextBuild;
    if x == [] {
      assert x + y == y;
    } else {
      assert (x + y)[0] == x[0] && (x + y)[1..] == x[1..] + y;
      BuildSplits(NextBuild(b, x[0]).value, x[1..], y);
    }
  }

  lemma Then(events: seq<StageEvent>, b: Build, e: StageEvent, b': Build)
    requires Builds(events, b) && NextBuild(b, e) == Some(b')
    ensures Builds(events + [e], b')
  {
    hide NextBuild;
    assert [e][1..] == [];
    BuildSplits(NEW_BUILD, events, [e]);
  }

  /** A supervisor with nothing registered, handed over or begun. */
  function Bare(cancelled: bool, pcs: map<Thread, Pc>, collected: bool): State {
    State(Fields(cancelled, map[], {}), pcs, multiset{}, collected)
  }

  lemma CollectNothing(pcs: map<Thread, Pc>, t: Thread)
    requires t in pcs && pcs[t] == MustCollect
    ensures Next(Bare(true, pcs, false), Collect(t)) == Some(Bare(true, pcs[t := Quiet], true))
  {
    var st := Bare(true, pcs, false);
    assert Collected(st.f) == {} && CollectedPids(st.f) == {};
    var handed := st.handed + multiset(Collected(st.f));
    assert handed == st.handed;
    assert AfterCollect(st.f) == st.f;
  }

  /** A failing stage with nothing registered cancels nothing. */
  lemma FailsAlone(events: seq<StageEvent>, b: Build, t: Thread, p: Process, enrolled: bool)
    requires Builds(events, b) && t in b.stages && b.stages[t] == Cancelling(p, enrolled)
    requires t in b.sup.pcs && b.sup.pcs[t] == MustSet && b.sup == Bare(false, b.sup.pcs, false)
    ensures Builds(events + [CancelStep(t)] + [CancelStep(t)] + [Leave(t)],
                   Build(Bare(true, b.sup.pcs[t := Quiet], true), b.stages[t := Left(p, enrolled)], b.exited))
  {
    hide Builds;
    var pcs: map<Thread, Pc> := b.sup.pcs;
    var b1 := b.(sup := Bare(true, pcs[t := MustCollect], false));
    var b2 := Build(Bare(true, pcs[t := Quiet], true), b.stages[t := Leaving(p, enrolled)], b.exited);
    var b3 := b2.(stages := b.stages[t := Left(p, enrolled)]);
    CollectNothing(pcs[t := MustCollect], t);
    assert pcs[t := MustCollect][t := Quiet] == pcs[t := Quiet];
    assert b2.stages[t := Left(p, enrolled)] == b3.stages;
    assert b2.sup.f.processes - {p.pid} == map[];
    assert NextBuild(b, CancelStep(t)) == Some(b1);
    assert NextBuild(b1, CancelStep(t)) == Some(b2);
    assert NextBuild(b2, Leave(t)) == Some(b3);
    hide Next, NextBuild;
    Then(events, b, CancelStep(t), b1);
    Then(events + [CancelStep(t)], b1, CancelStep(t), b2);
    Then(events + [CancelStep(t)] + [CancelStep(t)], b2, Leave(t), b3);
  }

  /** A run in which a process escapes because its stage fails after starting it and before
      registering it: the stage's own cancellation does not see it. */
  lemma UnregisteredExample()
    ensures Builds([Start(0, OLD)] + [Fault(0)] + [CancelStep(0)] + [CancelStep(0)] + [Leave(0)],
                   Build(Bare(true, map[0 := Quiet], true), map[0 := Left(OLD, false)], {}))
  {
    var b1 := Build(FRESH, map[0 := Spawned(OLD)], {});
    var b2 := Build(Bare(false, map[0 := MustSet], false), map[0 := Cancelling(OLD, false)], {});
    assert Builds([], NEW_BUILD);
    hide Builds;
    assert NextBuild(NEW_BUILD, Start(0, OLD)) == Some(b1);
    assert Moved(b1, Fault(0)) == b2.stages && NextBuild(b1, Fault(0)).value.sup.pcs == b2.sup.pcs;
    Then([], NEW_BUILD, Start(0, OLD), b1);
    assert [] + [Start(0, OLD)] == [Start(0, OLD)];
    Then([Start(0, OLD)], b1, Fault(0), b2);
    FailsAlone([Start(0, OLD)] + [Fault(0)], b2, 0, OLD, false);
    assert b2.sup.pcs[0 := Quiet] == map[0 := Quiet] && b2.stages[0 := Left(OLD, false)] == map[0 := Left(OLD, false)];
  }

  function Listing(p: Process, pcs: map<Thread, Pc>): State {
    State(Fields(false, map[p.pid := p], {}), pcs, multiset{}, false)
  }

  function BothEnrolled(): seq<StageEvent> {
    [Start(0, OLD)] + [Enrol(0)] + [Exit(OLD)] + [Start(1, NEW)] + [Enrol(1)]
  }

  lemma BothAreEnrolled()
    ensures Builds(BothEnrolled(),
                   Build(Listing(NEW, map[0 := Quiet, 1 := Quiet]), map[0 := Running(OLD), 1 := Running(NEW)], {OLD}))
  {
    var b1 := Build(FRESH, map[0 := Spawned(OLD)], {});
    var b2 := Build(Listing(OLD, map[0 := Quiet]), map[0 := Running(OLD)], {});
    var b3 := b2.(exited := {OLD});
    var b4 := b3.(stages := map[0 := Running(OLD), 1 := Spawned(NEW)]);
    var b5 := Build(Listing(NEW, map[0 := Quiet, 1 := Quiet]), map[0 := Running(OLD), 1 := Running(NEW)], {OLD});
    assert Builds([], NEW_BUILD);
    hide Builds;
    assert NextBuild(NEW_BUILD, Start(0, OLD)) == Some(b1);
    assert Moved(b1, Enrol(0)) == b2.stages && NextBuild(b1, Enrol(0)).value.sup.pcs == b2.sup.pcs;
    assert b2.exited + {OLD} == {OLD};
    assert Moved(b3, Start(1, NEW)) == b4.stages;
    assert Moved(b4, Enrol(1)) == b5.stages && NextBuild(b4, Enrol(1)).value.sup.pcs == b5.sup.pcs;
    assert NextBuild(b4, Enrol(1)).value.sup.f.processes == b5.sup.f.processes;
    Then([], NEW_BUILD, Start(0, OLD), b1);
    assert [] + [Start(0, OLD)] == [Start(0, OLD)];
    Then([Start(0, OLD)], b1, Enrol(0), b2);
    Then([Start(0, OLD)] + [Enrol(0)], b2, Exit(OLD), b3);
    Then([Start(0, OLD)] + [Enrol(0)] + [Exit(OLD)], b3, Start(1, NEW), b4);
    Then([Start(0, OLD)] + [Enrol(0)] + [Exit(OLD)] + [Start(1, NEW)], b4, Enrol(1), b5);
  }

  lemma FirstHasLeft()
    ensures Builds(BothEnrolled() + [Finish(0)] + [Leave(0)],
                   Build(Bare(false, map[0 := Quiet, 1 := Quiet], false),
                     map[0 := Left(OLD, true), 1 := Running(NEW)], {OLD}))
  {
    BothAreEnrolled();
    hide Builds;
    var b5 := Build(Listing(NEW, map[0 := Quiet, 1 := Quiet]), map[0 := Running(OLD), 1 := Running(NEW)], {OLD});
    var b6 := b5.(stages := map[0 := Leaving(OLD, true), 1 := Running(NEW)]);
    var b7 := Build(Bare(false, map[0 := Quiet, 1 := Quiet], false), map[0 := Left(OLD, true), 1 := Running(NEW)],
      {OLD});
    assert Moved(b5, Finish(0)) == b6.stages;
    assert Moved(b6, Leave(0)) == b7.stages;
    assert b6.sup.f.processes - {OLD.pid} == map[];
    Then(BothEnrolled(), b5, Finish(0), b6);
    Then(BothEnrolled() + [Finish(0)], b6, Leave(0), b7);
  }

  /** A run in which a registered process escapes because its pid was that of an ended
      process whose stage leaves afterwards. */
  lemma ReusedStageExample()
    ensures Builds(BothEnrolled() + [Finish(0)] + [Leave(0)]
                   + [Fault(1)] + [CancelStep(1)] + [CancelStep(1)] + [Leave(1)],
                   Build(Bare(true, map[0 := Quiet, 1 := Quiet], true),
                     map[0 := Left(OLD, true), 1 := Left(NEW, true)], {OLD}))
  {
    FirstHasLeft();
    hide Builds, BothEnrolled;
    var events := BothEnrolled() + [Finish(0)] + [Leave(0)];
    var b := Build(Bare(false, map[0 := Quiet, 1 := Quiet], false), map[0 := Left(OLD, true), 1 := Running(NEW)],
      {OLD});
    var b' := Build(Bare(false, map[0 := Quiet, 1 := MustSet], false),
                    map[0 := Left(OLD, true), 1 := Cancelling(NEW, true)], {OLD});
    assert Moved(b, Fault(1)) == b'.stages;
    assert b.sup.pcs[1 := MustSet] == b'.sup.pcs;
    Then(events, b, Fault(1), b');
    FailsAlone(events + [Fault(1)], b', 1, NEW, true);
    assert b'.sup.pcs[1 := Quiet] == map[0 := Quiet, 1 := Quiet];
    assert b'.stages[1 := Left(NEW, true)] == map[0 := Left(OLD, true), 1 := Left(NEW, true)];
  }
}
