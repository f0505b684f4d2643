/** One publication, one collection and one reader of the trusted epochs, each run to its
    end from every state that runs can reach (scripts/trusted_seed_gc.py; readers enter
    through sealed_runtime_seed in bootstrap/clew_bootstrap.py). */
module EpochCalls {
  import opened Base
  import opened TrustedEpochs

  /** The state after events that can all happen. */
  ghost predicate Reaches(st: State, events: seq<Event>, st': State) {
    Possible(st, events) && Run(st, events) == st'
  }

  lemma ReachesOne(st: State, e: Event, events: seq<Event>, st': State)
    requires Next(st, e).Some? && Reaches(Next(st, e).value, events, st')
    ensures Reaches(st, [e] + events, st')
  {
    hide Next;
    assert ([e] + events)[1..] == events;
  }

  // ------------------------------------------------------------------ publication

  /** What publishing a candidate needs: no history without its locator, a free epoch name,
      and a candidate whose seed and capsule are whole and belong to the epoch. */
  ghost predicate Publishable(st: State, epoch: Epoch, id: string, tree: Option<string>) {
    && (st.current.Some? || forall n :: n in st.dirs ==> n.Candidate?)
    && EpochName(epoch) !in st.dirs && Candidate(id) in st.dirs
    && Whole(st.dirs[Candidate(id)], epoch)
    && (tree.Some? ==> st.dirs[Candidate(id)].seed.value.tree == tree.value)
  }

  /** The record of a new publication: this seed, one generation up, over the current one. */
  predicate FreshLocator(l: Locator, epoch: Epoch, seed: SeedFile, current: Option<Locator>) {
    && l.epoch == epoch && l.runtimeKey == seed.runtimeKey && l.seedDigest == seed.seedDigest
    && l.generation == (if current.None? then 1 else current.value.generation + 1)
    && l.rollback == (if current.None? then None else Some(RollbackOf(current.value)))
    && SelfConsistent(l)
  }

  const PLACING := [LinkRecord, RenameCandidate, WriteCurrent]

  /** The state that a publication of the candidate leaves. */
  ghost predicate Published(st: State, st': State, epoch: Epoch, id: string, l: Locator)
    requires Candidate(id) in st.dirs
  {
    && st'.current == Some(l) && st'.readers == st.readers && st'.pc == Restoring(Protected(l))
    && st'.dirs == (st.dirs - {Candidate(id)})[EpochName(epoch) :=
         st.dirs[Candidate(id)].(publication := Some(l))]
  }

  /** The first step refuses exactly if something is missing, and changes nothing then. */
  lemma StagingIsExact(st: State, epoch: Epoch, id: string, tree: Option<string>)
    requires Core(st) && st.pc.Holding? && epoch.Release?
    ensures Next(st, PublishCandidate(epoch, id, tree)).Some?
    ensures var st' := Next(st, PublishCandidate(epoch, id, tree)).value;
            && st'.(pc := Holding) == st
            && (st'.pc == Free <==> !Publishable(st, epoch, id, tree))
            && (Publishable(st, epoch, id, tree) ==>
                  && st'.pc.Staged? && st'.pc.epoch == epoch && st'.pc.id == id
                  && FreshLocator(st'.pc.locator, epoch, st.dirs[Candidate(id)].seed.value, st.current))
  {
    hide ReaderInv, LockInv;
  }

  /** The three steps after it place the candidate and make it current, unless the candidate
      already has another record. */
  lemma PlacingIsExact(st: State)
    requires Core(st) && st.pc.Staged?
    ensures var d, l, epoch, id := st.dirs[Candidate(st.pc.id)], st.pc.locator, st.pc.epoch, st.pc.id;
            if d.publication.None? || d.publication == Some(l)
            then exists st' :: Reaches(st, PLACING, st') && Published(st, st', epoch, id, l)
            else Reaches(st, PLACING[..2], st.(pc := Free))
  {
    hide HistoryAllows, ReaderInv, LockInv, ProtectedChecks;
    var d, l, epoch, id := st.dirs[Candidate(st.pc.id)], st.pc.locator, st.pc.epoch, st.pc.id;
    var st1 := Next(st, LinkRecord).value;
    var st2 := Next(st1, RenameCandidate).value;
    if d.publication.None? || d.publication == Some(l) {
      var st3 := Next(st2, WriteCurrent).value;
      assert st3.dirs == (st.dirs - {Candidate(id)})[EpochName(epoch) := d.(publication := Some(l))];
      assert Reaches(st3, [], st3);
      ReachesOne(st2, WriteCurrent, [], st3);
      ReachesOne(st1, RenameCandidate, [WriteCurrent], st3);
      ReachesOne(st, LinkRecord, [RenameCandidate] + ([WriteCurrent] + []), st3);
      assert PLACING == [LinkRecord] + ([RenameCandidate] + ([WriteCurrent] + []));
      assert Published(st, st3, epoch, id, l);
    } else {
      assert st1.dirs == st.dirs;
      assert Reaches(st2, [], st2);
      ReachesOne(st1, RenameCandidate, [], st2);
      ReachesOne(st, LinkRecord, [RenameCandidate] + [], st2);
      assert PLACING[..2] == [LinkRecord] + ([RenameCandidate] + []);
    }
  }

  lemma {:induction false} ReachesJoins(st: State, a: seq<Event>, st1: State, b: seq<Event>, st2: State)
    requires Reaches(st, a, st1) && Reaches(st1, b, st2)
    ensures Reaches(st, a + b, st2)
    decreases a
  {
    hide Next;
    if a == [] {
      assert a + b == b;
    } else {
      assert (a + b)[0] == a[0] && (a + b)[1..] == a[1..] + b;
      ReachesJoins(Next(st, a[0]).value, a[1..], st1, b, st2);
    }
  }

  lemma ReachesNext(st: State, e: Event)
    requires Next(st, e).Some?
    ensures Reaches(st, [e], Next(st, e).value)
  {
    hide Next;
    NoEvents(Next(st, e).value);
    ReachesOne(st, e, [], Next(st, e).value);
    assert [e] + [] == [e];
  }

  /** Publishing a candidate, exactly, in every state that a run of publishers, collectors,
      readers and crashes can reach. It is refused, and nothing changes, if and only if the
      candidate is not publishable or already has another record. Otherwise its steps can
      all be taken, and they end with current.json naming the epoch, the candidate's
      runtime key and seed digest, one generation up and with the old locator as its
      rollback, with the candidate's directory under the epoch's name, and with every
      other directory as it was. */
  lemma PublicationIsExact(events: seq<Event>, epoch: Epoch, id: string, tree: Option<string>)
    requires Possible(EMPTY, events) && Run(EMPTY, events).pc.Holding? && epoch.Release?
    ensures var st, e := Run(EMPTY, events), PublishCandidate(epoch, id, tree);
            if !Publishable(st, epoch, id, tree) then Reaches(st, [e], st.(pc := Free))
            else
              exists l ::
                var d := st.dirs[Candidate(id)];
                && FreshLocator(l, epoch, d.seed.value, st.current)
                && if d.publication.None? || d.publication == Some(l)
                   then exists st' :: Reaches(st, [e] + PLACING, st') && Published(st, st', epoch, id, l)
                   else Reaches(st, [e] + PLACING[..2], st.(pc := Free))
  {
    RunKeepsInv(EMPTY, events);
    hide Next, Publishable, Published, FreshLocator, Run, Possible, ReaderInv, CurrentInv;
    var st, e := Run(EMPTY, events), PublishCandidate(epoch, id, tree);
    StagingIsExact(st, epoch, id, tree);
    ReachesNext(st, e);
    if Publishable(st, epoch, id, tree) {
      var st1 := Next(st, e).value;
      NextKeepsInv(st, e);
      PlacingIsExact(st1);
      var d, l := st1.dirs[Candidate(id)], st1.pc.locator;
      if d.publication.None? || d.publication == Some(l) {
        var st' :| Reaches(st1, PLACING, st') && Published(st1, st', epoch, id, l);
        ReachesJoins(st, [e], st1, PLACING, st');
        PublishedAlike(st, st1, st', epoch, id, l);
      } else {
        ReachesJoins(st, [e], st1, PLACING[..2], st.(pc := Free));
      }
    }
  }

  lemma PublishedAlike(st: State, st1: State, st': State, epoch: Epoch, id: string, l: Locator)
    requires st1.(pc := st.pc) == st && Candidate(id) in st1.dirs && Published(st1, st', epoch, id, l)
    ensures Published(st, st', epoch, id, l)
  {
  }

  // -------------------------------------------------------------- taking turns

  /** Over every run the lifecycle lock can be taken exactly if nobody publishes or collects
      and no reader is between entering and verifying; death and the end of an operation
      give it back. */
  lemma AcquiringIsExact(events: seq<Event>)
    requires Possible(EMPTY, events)
    ensures var st := Run(EMPTY, events);
            && (Next(st, Acquire).Some? <==>
                  st.pc.Free? && forall r :: r in st.readers ==> !st.readers[r].Entering? && !st.readers[r].Leased?)
            && (Next(st, Acquire).Some? ==> Next(st, Acquire).value == st.(pc := Holding))
            && Next(st, Die) == Some(st.(pc := Free))
            && (st.pc.Holding? || st.pc.Restoring? || st.pc.Sweeping? ==> Next(st, Finish) == Some(st.(pc := Free)))
            && (Next(st, Finish).Some? ==> st.pc.Holding? || st.pc.Restoring? || st.pc.Sweeping?)
  {
  }

  /** A builder can put any directory of its own in a candidate's place, unless that candidate
      is being published, and fill a failed epoch once; a release epoch it never touches. */
  lemma BuildingIsExact(st: State, name: Name, dir: Dir)
    requires forall n :: n in st.dirs && n != name ==> st.dirs[n].inode != dir.inode
    ensures Next(st, Build(name, dir)) ==
      if || (name.Candidate? && !(st.pc.Staged? && st.pc.id == name.id) && !(st.pc.Recorded? && st.pc.id == name.id))
         || (name.EpochName? && name.epoch.Failed? && name !in st.dirs)
      then Some(st.(dirs := st.dirs[name := dir])) else None
  {
  }

  /** Withdrawing an epoch and putting it back is as if nothing had happened. */
  lemma WithdrawalIsUndone(st: State)
    requires Core(st) && st.pc.Locking? && st.pc.target.EpochName? && st.dirs[st.pc.target].locks == st.pc.held
    ensures Reaches(st, [Withdraw, PutBack], st.(pc := Sweeping(st.pc.kept)))
    ensures Reaches(st, [Skip], st.(pc := Sweeping(st.pc.kept)))
  {
    hide CurrentInv, ReaderInv, LockInv;
    var st1 := Next(st, Withdraw).value;
    var end := st.(pc := Sweeping(st.pc.kept));
    ReachesNext(st, Skip);
    assert Next(st1, PutBack).value.dirs == st.dirs;
    ReachesNext(st, Withdraw);
    ReachesNext(st1, PutBack);
    ReachesJoins(st, [Withdraw], st1, [PutBack], end);
    assert [Withdraw] + [PutBack] == [Withdraw, PutBack];
  }

  /** A deletion can stop after any of its parts; the rest is left to the next collection. */
  lemma DeletionCanStop(st: State, rest: Dir)
    requires st.pc.Deleting? && Tombstone(st.pc.epoch) in st.dirs && Shrunk(st.dirs[Tombstone(st.pc.epoch)], rest)
    ensures Reaches(st, [RemovePart(rest), Skip],
              st.(dirs := st.dirs[Tombstone(st.pc.epoch) := rest], pc := Sweeping(st.pc.kept)))
  {
    var st1 := Next(st, RemovePart(rest)).value;
    ReachesNext(st, RemovePart(rest));
    ReachesNext(st1, Skip);
    ReachesJoins(st, [RemovePart(rest)], st1, [Skip], Next(st1, Skip).value);
    assert [RemovePart(rest)] + [Skip] == [RemovePart(rest), Skip];
  }

  // -------------------------------------------------------------------- collection

  /** Collecting begins only with a current locator, and then keeps the named epochs and
      both that the locator protects. */
  lemma CollectionStarts(st: State, values: set<Epoch>)
    requires Core(st) && st.pc.Holding?
    ensures if st.current.None? then Reaches(st, [Collect(values)], st.(pc := Free))
            else
              var l := st.current.value;
              exists kept ::
                && Reaches(st, [Collect(values), CheckProtected], st.(pc := Sweeping(kept)))
                && forall e :: e in kept <==>
                     e in values || e == l.epoch || (l.rollback.Some? && e == l.rollback.value.epoch)
  {
    hide ReaderInv, LockInv, CurrentChecks, RollbackChecks;
    ReachesNext(st, Collect(values));
    if st.current.Some? {
      var st1 := Next(st, Collect(values)).value;
      ReachesNext(st1, CheckProtected);
      ReachesJoins(st, [Collect(values)], st1, [CheckProtected], Next(st1, CheckProtected).value);
      assert [Collect(values)] + [CheckProtected] == [Collect(values), CheckProtected];
      assert Reaches(st, [Collect(values), CheckProtected], st.(pc := Sweeping(values + Protected(st.current.value))));
    }
  }

  /** A kept epoch that was withdrawn gets its name back, unless the name is taken. */
  lemma RestoringIsExact(st: State, epoch: Epoch)
    requires st.pc.Restoring? && epoch in st.pc.kept && Tombstone(epoch) in st.dirs
    ensures Reaches(st, [Restore(epoch)],
              if EpochName(epoch) in st.dirs then st
              else st.(dirs := (st.dirs - {Tombstone(epoch)})[EpochName(epoch) := st.dirs[Tombstone(epoch)]]))
  {
    ReachesNext(st, Restore(epoch));
  }

  function TakeLocks(order: seq<LockName>): seq<Event> {
    if order == [] then [] else [TakeLock(order[0])] + TakeLocks(order[1..])
  }

  /** No reader with a lease has it on a lock file of this directory. */
  ghost predicate Idle(st: State, name: Name)
    requires name in st.dirs
  {
    forall r :: r in st.readers && (st.readers[r].Leased? || st.readers[r].Using?) ==>
      !(st.readers[r].inode == st.dirs[name].inode && st.readers[r].lock in st.dirs[name].locks)
  }

  lemma IdleIsNotBusy(st: State, name: Name)
    requires name in st.dirs
    ensures Idle(st, name) <==>
      forall lock :: lock in st.dirs[name].locks ==> !Busy(st, st.dirs[name].inode, lock)
  {
  }

  /** Locks that no reader holds are taken one after the other. */
  lemma {:induction false} LocksAreTaken(st: State, order: seq<LockName>)
    requires st.pc.Locking? && st.pc.target in st.dirs && Idle(st, st.pc.target)
    requires forall lock :: lock in order ==> lock in st.dirs[st.pc.target].locks
    ensures Reaches(st, TakeLocks(order),
              st.(pc := Locking(st.pc.target, st.pc.held + (set lock | lock in order), st.pc.kept)))
    decreases order
  {
    IdleIsNotBusy(st, st.pc.target);
    hide Reaches, Busy, Idle;
    if order == [] {
      assert st.pc.held + (set lock | lock in order) == st.pc.held;
      NoEvents(st);
    } else {
      var st1 := st.(pc := Locking(st.pc.target, st.pc.held + {order[0]}, st.pc.kept));
      assert Next(st, TakeLock(order[0])) == Some(st1);
      ReachesNext(st, TakeLock(order[0]));
      BusyAlike(st, st1);
      IdleIsNotBusy(st1, st1.pc.target);
      LocksAreTaken(st1, order[1..]);
      assert st.pc.held + (set lock | lock in order) == st1.pc.held + (set lock | lock in order[1..]);
      ReachesJoins(st, [TakeLock(order[0])], st1, TakeLocks(order[1..]),
        st1.(pc := Locking(st.pc.target, st1.pc.held + (set lock | lock in order[1..]), st.pc.kept)));
    }
  }

  lemma NoEvents(st: State)
    ensures Reaches(st, [], st)
  {
  }

  lemma BusyAlike(st: State, st1: State)
    requires st1.(pc := st.pc) == st
    ensures forall inode, lock :: Busy(st1, inode, lock) <==> Busy(st, inode, lock)
  {
  }

  /** The first lock that a reader holds ends the attempt, and nothing has changed. */
  lemma {:induction false} BusyLockIsMet(st: State, order: seq<LockName>) returns (k: nat)
    requires st.pc.Locking? && st.pc.target in st.dirs && !Idle(st, st.pc.target)
    requires forall lock :: lock in st.dirs[st.pc.target].locks && Busy(st, st.dirs[st.pc.target].inode, lock) ==>
      lock in order
    requires forall lock :: lock in order ==> lock in st.dirs[st.pc.target].locks
    ensures k <= |order| && Reaches(st, TakeLocks(order[..k]), st.(pc := Sweeping(st.pc.kept)))
    decreases order
  {
    IdleIsNotBusy(st, st.pc.target);
    hide Reaches, Busy, Idle;
    assert order != [];
    var first := order[0];
    ReachesNext(st, TakeLock(first));
    if Busy(st, st.dirs[st.pc.target].inode, first) {
      k := 1;
      assert order[..1] == [first] && [first][1..] == [] && TakeLocks([first]) == [TakeLock(first)];
    } else {
      var st1 := st.(pc := Locking(st.pc.target, st.pc.held + {first}, st.pc.kept));
      assert Next(st, TakeLock(first)) == Some(st1);
      BusyAlike(st, st1);
      IdleIsNotBusy(st1, st1.pc.target);
      var rest := BusyLockIsMet(st1, order[1..]);
      k := rest + 1;
      assert order[..k][0] == first && order[..k][1..] == order[1..][..rest];
      assert TakeLocks(order[..k]) == [TakeLock(first)] + TakeLocks(order[1..][..rest]);
      ReachesJoins(st, [TakeLock(first)], st1, TakeLocks(order[1..][..rest]), st1.(pc := Sweeping(st.pc.kept)));
    }
  }

  /** The steps that remove a directory whose locks are all held. */
  function Removal(name: Name): seq<Event> {
    if name.EpochName? then [Withdraw, StartDelete, RemoveDirectory] else [StartDelete, RemoveDirectory]
  }

  lemma LockedIsRemoved(st: State)
    requires st.pc.Locking? && st.pc.target in st.dirs && !st.pc.target.Candidate?
    requires st.pc.held == st.dirs[st.pc.target].locks
    requires st.pc.target.EpochName? ==> Tombstone(st.pc.target.epoch) !in st.dirs
    ensures Reaches(st, Removal(st.pc.target),
              st.(dirs := st.dirs - {st.pc.target}, pc := Sweeping(st.pc.kept)))
  {
    var name, kept := st.pc.target, st.pc.kept;
    var end := st.(dirs := st.dirs - {name}, pc := Sweeping(kept));
    if name.EpochName? {
      var st1 := Next(st, Withdraw).value;
      var st2 := Next(st1, StartDelete).value;
      assert Next(st2, RemoveDirectory).value.dirs == end.dirs;
      NoEvents(end);
      ReachesOne(st2, RemoveDirectory, [], end);
      ReachesOne(st1, StartDelete, [RemoveDirectory] + [], end);
      ReachesOne(st, Withdraw, [StartDelete] + ([RemoveDirectory] + []), end);
      assert Removal(name) == [Withdraw] + ([StartDelete] + ([RemoveDirectory] + []));
    } else {
      var st1 := Next(st, StartDelete).value;
      NoEvents(end);
      ReachesOne(st1, RemoveDirectory, [], end);
      ReachesOne(st, StartDelete, [RemoveDirectory] + [], end);
      assert Removal(name) == [StartDelete] + ([RemoveDirectory] + []);
    }
  }

  /** Collecting one directory, exactly: an epoch or tombstone that is not kept is removed,
      and nothing else, exactly if no reader holds a lock file of it; otherwise the attempt
      ends at the first such lock file and changes nothing. An epoch that already has a
      tombstone is left alone. */
  lemma CollectingIsExact(st: State, name: Name, order: seq<LockName>)
    requires st.pc.Sweeping? && name in st.dirs && !name.Candidate? && name.epoch !in st.pc.kept
    requires st.dirs[name].locks == set lock | lock in order
    ensures if name.EpochName? && Tombstone(name.epoch) in st.dirs then Reaches(st, [Pick(name)], st)
            else if Idle(st, name) then
              Reaches(st, [Pick(name)] + (TakeLocks(order) + Removal(name)), st.(dirs := st.dirs - {name}))
            else exists k: nat :: k <= |order| && Reaches(st, [Pick(name)] + TakeLocks(order[..k]), st)
  {
    ReachesNext(st, Pick(name));
    hide Reaches;
    if !(name.EpochName? && Tombstone(name.epoch) in st.dirs) {
      var st1 := st.(pc := Locking(name, {}, st.pc.kept));
      assert Next(st, Pick(name)) == Some(st1);
      BusyAlike(st, st1);
      if Idle(st, name) {
        LocksAreTaken(st1, order);
        var st2 := st1.(pc := Locking(name, st.dirs[name].locks, st.pc.kept));
        assert st1.pc.held + (set lock | lock in order) == st.dirs[name].locks;
        LockedIsRemoved(st2);
        ReachesJoins(st1, TakeLocks(order), st2, Removal(name), st.(dirs := st.dirs - {name}));
        ReachesJoins(st, [Pick(name)], st1, TakeLocks(order) + Removal(name), st.(dirs := st.dirs - {name}));
      } else {
        var k := BusyLockIsMet(st1, order);
        ReachesJoins(st, [Pick(name)], st1, TakeLocks(order[..k]), st);
      }
    }
  }

  // ----------------------------------------------------------------------- readers

  /** An epoch's lock files are held exactly by the readers that are in the epoch. */
  lemma IdleMeansNoReader(events: seq<Event>, epoch: Epoch)
    requires Possible(EMPTY, events) && EpochName(epoch) in Run(EMPTY, events).dirs
    ensures var st := Run(EMPTY, events);
            Idle(st, EpochName(epoch)) <==>
            forall r :: r in st.readers && HasLease(st.readers[r]) ==> st.readers[r].epoch != epoch
  {
    RunKeepsInv(EMPTY, events);
    var st := Run(EMPTY, events);
    hide Run, Possible, CurrentInv, PointInv, LockInv;
  }

  /** The epoch stands under its name with its seed file and this lock file. */
  predicate Leasable(st: State, epoch: Epoch, lock: LockName) {
    && epoch.Release? && EpochName(epoch) in st.dirs
    && st.dirs[EpochName(epoch)].seed.Some? && lock in st.dirs[EpochName(epoch)].locks
  }

  /** The state after a reader has looked for its lease. */
  function WithLease(st: State, r: Reader, epoch: Epoch, lock: LockName): State {
    st.(readers := st.readers[r :=
      if Leasable(st, epoch, lock) then Leased(epoch, st.dirs[EpochName(epoch)].inode, lock) else Out])
  }

  lemma LeasingIsExact(st: State, r: Reader, epoch: Epoch, lock: LockName)
    requires st.pc.Free? && ReaderOf(st, r).Out?
    ensures Reaches(st, [Enter(r), TakeLease(r, epoch, lock)], WithLease(st, r, epoch, lock))
  {
    hide SeedLocator, Reaches;
    var st1 := Next(st, Enter(r)).value;
    ReachesNext(st, Enter(r));
    ReachesNext(st1, TakeLease(r, epoch, lock));
    assert Next(st1, TakeLease(r, epoch, lock)).value.readers == WithLease(st, r, epoch, lock).readers;
    assert Next(st1, TakeLease(r, epoch, lock)) == Some(WithLease(st, r, epoch, lock));
    ReachesJoins(st, [Enter(r)], st1, [TakeLease(r, epoch, lock)], WithLease(st, r, epoch, lock));
    assert [Enter(r)] + [TakeLease(r, epoch, lock)] == [Enter(r), TakeLease(r, epoch, lock)];
  }

  /** A reader gets a release epoch exactly if it stands under its name with the lock file and
      is whole; otherwise it leaves again. */
  lemma ReadingIsExact(st: State, r: Reader, epoch: Epoch, lock: LockName)
    requires st.pc.Free? && ReaderOf(st, r).Out?
    ensures var lease, name := [Enter(r), TakeLease(r, epoch, lock)], EpochName(epoch);
            if Leasable(st, epoch, lock) then
              Reaches(st, lease + [Verify(r)],
                st.(readers := st.readers[r :=
                  if Whole(st.dirs[name], epoch) then Using(epoch, st.dirs[name].inode, lock) else Out]))
            else Reaches(st, lease, st.(readers := st.readers[r := Out]))
  {
    hide Reaches;
    LeasingIsExact(st, r, epoch, lock);
    var lease := [Enter(r), TakeLease(r, epoch, lock)];
    var st2 := WithLease(st, r, epoch, lock);
    if ReaderOf(st2, r).Leased? {
      var st3 := Next(st2, Verify(r)).value;
      ReachesNext(st2, Verify(r));
      ReachesJoins(st, lease, st2, [Verify(r)], st3);
      assert st3.readers == st.readers[r := st3.readers[r]];
    }
  }
}
