/** The owner of a cohort, from its candidate to COMPLETE, while any other controllers
    scan, repair, remove and die (scripts/cold_multicore_gate.py). */
module CohortOwners {
  import opened Base
  import opened Cohorts

  /** How many of its 22 steps an owner has behind it: three for cohort.json in the
      candidate, the rename, and three for each of the other receipts. */
  function Work(pc: Pc): nat
    requires pc.Creating? || pc.Owning?
  {
    if pc.Creating? then pc.s else pc.s + 1
  }

  const ALL := 22

  /** What the owner does next. */
  function OwnStep(pc: Pc, p: Pid): Event {
    if pc.Creating? && pc.s == 3 then RenameFinal(p) else WriteStep(p)
  }

  predicate IsOwner(pc: Pc) {
    pc.Creating? || pc.Owning?
  }

  /** The owner's own directory. */
  function DirOf(st: State, p: Pid): Dir
    requires IsOwner(PcOf(st, p)) && Target(PcOf(st, p)).value in st.dirs
  {
    st.dirs[Target(PcOf(st, p)).value]
  }

  lemma OwnerHasDirectory(st: State, p: Pid)
    requires Inv(st) && IsOwner(PcOf(st, p))
    ensures var pc := PcOf(st, p);
            && Target(pc).value in st.dirs && DirOf(st, p).owner == Some(p) && pc.s <= LAST
            && AtStage(DirOf(st, p).files, pc.s, DirOf(st, p).plan)
            && (pc.Creating? ==> pc.s <= 3)
            && (pc.Owning? ==> DirOf(st, p).plan.authority == pc.id.authority)
  {
    assert PointInv(st, p);
  }

  /** Until it is through, an owner can always take its next step, whatever others have done,
      and the step brings it one further on what it set out to write. */
  lemma OwnerAdvances(st: State, p: Pid)
    requires Inv(st) && IsOwner(PcOf(st, p)) && Work(PcOf(st, p)) < ALL
    ensures Next(st, OwnStep(PcOf(st, p), p)).Some?
    ensures var st' := Next(st, OwnStep(PcOf(st, p), p)).value;
            && IsOwner(PcOf(st', p)) && Work(PcOf(st', p)) == Work(PcOf(st, p)) + 1
            && Target(PcOf(st, p)).value in st.dirs && Target(PcOf(st', p)).value in st'.dirs
            && DirOf(st', p).plan == DirOf(st, p).plan
  {
    OwnerHasDirectory(st, p);
    hide Inv, Write, Admissible, Repair, ValidComplete;
  }

  /** Other controllers leave an owner and its directory alone. */
  lemma OthersLeaveOwner(st: State, e: Event, p: Pid)
    requires Inv(st) && IsOwner(PcOf(st, p)) && Next(st, e).Some? && e.pid != p
    ensures var st' := Next(st, e).value;
            && PcOf(st', p) == PcOf(st, p)
            && Target(PcOf(st, p)).value in st.dirs && Target(PcOf(st, p)).value in st'.dirs
            && DirOf(st', p).plan == DirOf(st, p).plan
  {
    OwnerHasDirectory(st, p);
    assert PointInv(st, e.pid);
    if PcOf(st, e.pid).Cleaning? {
      CleaningIsSafe(st, e.pid);
    }
    hide AtStage, Write, Admissible, Repair, ValidComplete, PlanOk;
  }

  /** A controller that has finished its scan becomes the owner of a new candidate exactly
      if the token and the cohort's name are free; nothing else is touched. */
  lemma OwnerStarts(st: State, p: Pid, token: Token, plan: Plan)
    requires PcOf(st, p).Scanning? && PcOf(st, p).scan.left == {} && PlanOk(plan)
    ensures var e := MakeCandidate(p, token, plan);
            if CandidateDir(token) in st.dirs || CohortDir(CohortSha(plan.authority)) in st.dirs
            then Next(st, e).None?
            else
              && Next(st, e).Some? && var st' := Next(st, e).value;
              && PcOf(st', p) == Creating(token, 0) && CandidateDir(token) in st'.dirs && DirOf(st', p).plan == plan
              && forall n :: n in st.dirs ==> n in st'.dirs && st'.dirs[n] == st.dirs[n]
  {
    hide PlanOk;
  }

  /** The owner's own part in a run is to go on with its cohort. */
  ghost predicate KeepsAtIt(events: seq<Event>, p: Pid) {
    forall e :: e in events && e.pid == p ==> e.WriteStep? || e.RenameFinal?
  }

  function Count(events: seq<Event>, p: Pid): nat {
    if events == [] then 0 else (if events[0].pid == p then 1 else 0) + Count(events[1..], p)
  }

  lemma OwnEventIsStep(st: State, e: Event, p: Pid)
    requires Inv(st) && IsOwner(PcOf(st, p)) && e.pid == p && (e.WriteStep? || e.RenameFinal?) && Next(st, e).Some?
    ensures e == OwnStep(PcOf(st, p), p) && Work(PcOf(st, p)) < ALL
  {
    OwnerHasDirectory(st, p);
    hide Inv, Write, AtStage, PlanOk;
  }

  /** Over every interleaving with any controllers and crashes of others: an owner that goes
      on with its cohort gets one step further with each event of its own and can always
      take the next one; after its last step the directory under the cohort's name holds
      what it set out to write and passes the completeness check. */
  lemma {:induction false} OwnerCompletes(st: State, events: seq<Event>, p: Pid)
    requires Inv(st) && IsOwner(PcOf(st, p)) && Possible(st, events) && KeepsAtIt(events, p)
    ensures var st' := Run(st, events);
            && IsOwner(PcOf(st', p)) && Work(PcOf(st', p)) == Work(PcOf(st, p)) + Count(events, p) <= ALL
            && Target(PcOf(st, p)).value in st.dirs && Target(PcOf(st', p)).value in st'.dirs
            && var plan := DirOf(st, p).plan;
            && DirOf(st', p).plan == plan
            && (Work(PcOf(st', p)) < ALL ==> Next(st', OwnStep(PcOf(st', p), p)).Some?)
            && (Work(PcOf(st', p)) == ALL ==>
                  && Target(PcOf(st', p)) == Some(CohortDir(CohortSha(plan.authority)))
                  && ValidComplete(DirOf(st', p).files, plan.authority))
    decreases events
  {
    OwnerHasDirectory(st, p);
    hide Next, Inv, ValidComplete, AtStage;
    if events == [] {
      if Work(PcOf(st, p)) < ALL {
        OwnerAdvances(st, p);
      } else {
        FinishedIsValid(DirOf(st, p).files, DirOf(st, p).plan);
      }
    } else {
      var e := events[0];
      NextKeepsInv(st, e);
      if e.pid == p {
        assert e in events;
        OwnEventIsStep(st, e, p);
        OwnerAdvances(st, p);
      } else {
        OthersLeaveOwner(st, e, p);
      }
      OwnerCompletes(Next(st, e).value, events[1..], p);
    }
  }

  /** An owner that closes its cohort gives up its lock on it and changes nothing else. */
  lemma OwnerLetsGo(st: State, p: Pid)
    requires Inv(st) && PcOf(st, p).Owning?
    ensures Next(st, Close(p)).Some?
    ensures var st', n := Next(st, Close(p)).value, CohortDir(PcOf(st, p).id);
            && PcOf(st', p) == Out && n in st.dirs && st'.dirs.Keys == st.dirs.Keys
            && st'.dirs[n] == st.dirs[n].(owner := None)
            && forall m :: m in st.dirs && m != n ==> st'.dirs[m] == st.dirs[m]
  {
    OwnerHasDirectory(st, p);
    LockedElsewhere(st, p, CohortDir(PcOf(st, p).id));
    hide AtStage, Inv;
  }

  /** No event makes a directory disappear with anything in it: a removal ends with an empty
      one, and a candidate is renamed with all it holds. */
  lemma NothingVanishes(st: State, e: Event, n: Name)
    requires Next(st, e).Some? && n in st.dirs && n !in Next(st, e).value.dirs
    ensures var st' := Next(st, e).value;
            || st.dirs[n].files == map[]
            || (e.RenameFinal? && PcOf(st', e.pid).Owning? && CohortDir(PcOf(st', e.pid).id) in st'.dirs &&
                st'.dirs[CohortDir(PcOf(st', e.pid).id)] == st.dirs[n])
  {
    hide AtStage, Admissible, Repair, ValidComplete, Write, PlanOk;
  }
}
