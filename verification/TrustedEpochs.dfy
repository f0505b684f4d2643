/** Trusted-seed epochs: publication, garbage collection, crashes and readers
    (scripts/trusted_seed_gc.py; readers enter through sealed_runtime_seed in
    bootstrap/clew_bootstrap.py). Publisher and collector hold the lifecycle lock
    exclusively; a reader takes it shared, then takes an epoch's lease shared. */
module TrustedEpochs {
  import opened Base

  type Reader = nat
  type LockName = string

  datatype Epoch = Release(revision: string) | Failed(revision: string, attempt: nat)

  datatype Name = EpochName(epoch: Epoch) | Tombstone(epoch: Epoch) | Candidate(id: string)

  /** The publication record without its digest; the digest is its SHA-256, taken
      as a free constructor. A rollback embeds the digest of what it replaces. */
  datatype Unsigned = Unsigned(epoch: Epoch, runtimeKey: string, seedDigest: string, generation: nat,
    rollback: Option<Rollback>)
  datatype PublicationDigest = PublicationSha(unsigned: Unsigned)
  datatype Rollback = Rollback(epoch: Epoch, generation: nat, publicationDigest: PublicationDigest,
    runtimeKey: string, seedDigest: string)

  /** current.json; publication.json holds the same fields under another schema. */
  datatype Locator = Locator(epoch: Epoch, runtimeKey: string, seedDigest: string, generation: nat,
                             rollback: Option<Rollback>, publicationDigest: PublicationDigest)

  datatype SeedFile = SeedFile(revision: string, tree: string, runtimeKey: string, seedDigest: string)

  /** An epoch directory: deletion removes its parts one at a time. */
  datatype Dir = Dir(inode: nat, seed: Option<SeedFile>, capsule: bool, publication: Option<Locator>,
    locks: set<LockName>)

  datatype SeedIdentity = SeedIdentity(epoch: Epoch, runtimeKey: string, seedDigest: string)

  // -------------------------------------------------------------------- locators

  function UnsignedOf(l: Locator): Unsigned {
    Unsigned(l.epoch, l.runtimeKey, l.seedDigest, l.generation, l.rollback)
  }

  function RollbackOf(l: Locator): Rollback {
    Rollback(l.epoch, l.generation, l.publicationDigest, l.runtimeKey, l.seedDigest)
  }

  /** The locator a publication of this seed writes after `prior`. */
  function CurrentLocator(id: SeedIdentity, prior: Option<Locator>): Locator {
    var generation := if prior.None? then 1 else if prior.value.epoch == id.epoch then prior.value.generation
      else prior.value.generation + 1;
    var rollback := if prior.None? then None else if prior.value.epoch == id.epoch then prior.value.rollback
      else Some(RollbackOf(prior.value));
    var unsigned := Unsigned(id.epoch, id.runtimeKey, id.seedDigest, generation, rollback);
    Locator(id.epoch, id.runtimeKey, id.seedDigest, generation, rollback, PublicationSha(unsigned))
  }

  /** What _read_current demands of current.json. */
  predicate Accepted(l: Locator) {
    && l.epoch.Release?
    && l.generation >= 1
    && (l.generation == 1 <==> l.rollback.None?)
    && (l.rollback.Some? ==>
          && l.rollback.value.epoch.Release?
          && l.rollback.value.generation >= 1
          && l.rollback.value.generation == l.generation - 1
          && l.rollback.value.epoch != l.epoch)
  }

  /** The record's digest is that of its other fields, as _read_publication demands. */
  predicate SelfConsistent(l: Locator) {
    l.publicationDigest == PublicationSha(UnsignedOf(l))
  }

  predicate MatchesSeed(epoch: Epoch, runtimeKey: string, seedDigest: string, id: SeedIdentity) {
    epoch == id.epoch && runtimeKey == id.runtimeKey && seedDigest == id.seedDigest
  }

  /** The epochs whose publication a record's digest chain fixes, oldest first. */
  function Lineage(u: Unsigned): seq<Epoch>
    decreases u
  {
    (if u.rollback.None? then [] else Lineage(u.rollback.value.publicationDigest.unsigned)) + [u.epoch]
  }

  /** Every locator publish writes is one _read_current accepts; the generation
      rises by exactly one when the epoch changes, and otherwise, if the seed is
      the one already current, the whole locator is unchanged. */
  lemma LocatorHistory(id: SeedIdentity, prior: Option<Locator>)
    requires id.epoch.Release? && (prior.Some? ==> Accepted(prior.value) && SelfConsistent(prior.value))
    ensures var l := CurrentLocator(id, prior);
            && Accepted(l) && SelfConsistent(l)
            && (prior.None? ==> l.generation == 1 && Lineage(UnsignedOf(l)) == [id.epoch])
            && (prior.Some? && prior.value.epoch != id.epoch ==>
                  && l.generation == prior.value.generation + 1
                  && l.rollback == Some(RollbackOf(prior.value))
                  && Lineage(UnsignedOf(l)) == Lineage(UnsignedOf(prior.value)) + [id.epoch])
            && (prior.Some? && MatchesSeed(prior.value.epoch, prior.value.runtimeKey, prior.value.seedDigest, id) ==>
              l == prior.value)
  {
    if prior.None? {
      assert [] + [id.epoch] == [id.epoch];
    }
  }

  // ----------------------------------------------------------------------- checks

  /** _seed_locator: seed.json and the capsule are whole and belong to the epoch. */
  function SeedLocator(d: Dir, epoch: Epoch, tree: Option<string>): Option<SeedIdentity> {
    if epoch.Release? && d.seed.Some? && d.capsule && d.seed.value.revision == epoch.revision
       && (tree.Some? ==> tree.value == d.seed.value.tree)
    then Some(SeedIdentity(epoch, d.seed.value.runtimeKey, d.seed.value.seedDigest))
    else None
  }

  /** The current epoch stands under its name with its seed and its exact record. */
  predicate CurrentChecks(dirs: map<Name, Dir>, l: Locator) {
    var name := EpochName(l.epoch);
    && name in dirs
    && SeedLocator(dirs[name], l.epoch, None).Some?
    && MatchesSeed(l.epoch, l.runtimeKey, l.seedDigest, SeedLocator(dirs[name], l.epoch, None).value)
    && dirs[name].publication == Some(l)
  }

  /** The rollback epoch stands under its name with a record of the same fields. */
  predicate RollbackChecks(dirs: map<Name, Dir>, r: Rollback) {
    var name := EpochName(r.epoch);
    && name in dirs
    && SeedLocator(dirs[name], r.epoch, None).Some?
    && MatchesSeed(r.epoch, r.runtimeKey, r.seedDigest, SeedLocator(dirs[name], r.epoch, None).value)
    && dirs[name].publication.Some?
    && RollbackOf(dirs[name].publication.value) == r
  }

  /** Every check publish and collect make before they act. */
  predicate ProtectedChecks(dirs: map<Name, Dir>, current: Option<Locator>) {
    current.Some? ==>
      && CurrentChecks(dirs, current.value)
      && (current.value.rollback.Some? ==> RollbackChecks(dirs, current.value.rollback.value))
  }

  /** Without current.json only a lone unfinished first publication may exist. */
  ghost predicate HistoryAllows(dirs: map<Name, Dir>, existing: Option<Epoch>) {
    || (forall n :: n in dirs ==> n.Candidate?)
    || (existing.Some? && EpochName(existing.value) in dirs &&
        forall n :: n in dirs ==> n.Candidate? || n == EpochName(existing.value))
  }

  // ------------------------------------------------------------------ the machine

  datatype Pc =
    | Free
    | Holding
    | Staged(epoch: Epoch, id: string, locator: Locator)
    | Recorded(epoch: Epoch, id: string, locator: Locator)
    | Placed(locator: Locator)
    | Restoring(kept: set<Epoch>)
    | Sweeping(kept: set<Epoch>)
    | Locking(target: Name, held: set<LockName>, kept: set<Epoch>)
    | Withdrawn(epoch: Epoch, held: set<LockName>, kept: set<Epoch>)
    | Deleting(epoch: Epoch, kept: set<Epoch>)

  datatype ReaderPc =
    | Out
    | Entering
    | Leased(epoch: Epoch, inode: nat, lock: LockName)
    | Using(epoch: Epoch, inode: nat, lock: LockName)

  datatype State = State(current: Option<Locator>, dirs: map<Name, Dir>, readers: map<Reader, ReaderPc>, pc: Pc)

  datatype Event =
    | Acquire
    | PublishCandidate(epoch: Epoch, id: string, tree: Option<string>)
    | LinkRecord
    | RenameCandidate
    | PublishExisting(epoch: Epoch, tree: Option<string>)
    | WriteCurrent
    | Collect(values: set<Epoch>)
    | Restore(epoch: Epoch)
    | CheckProtected
    | Pick(name: Name)
    | TakeLock(lock: LockName)
    | Skip
    | Withdraw
    | PutBack
    | StartDelete
    | RemovePart(rest: Dir)
    | RemoveDirectory
    | Finish
    | Die
    | Build(name: Name, dir: Dir)
    | Enter(reader: Reader)
    | TakeLease(reader: Reader, epoch: Epoch, lock: LockName)
    | Verify(reader: Reader)
    | Leave(reader: Reader)

  function ReaderOf(st: State, r: Reader): ReaderPc {
    if r in st.readers then st.readers[r] else Out
  }

  predicate HasLifecycle(p: ReaderPc) {
    p.Entering? || p.Leased?
  }

  predicate HasLease(p: ReaderPc) {
    p.Leased? || p.Using?
  }

  /** Some reader holds this lock file of this directory shared. */
  predicate Busy(st: State, inode: nat, lock: LockName) {
    exists r :: r in st.readers && HasLease(st.readers[r]) && st.readers[r].inode == inode && st.readers[r].lock == lock
  }

  function Protected(l: Locator): set<Epoch> {
    {l.epoch} + if l.rollback.Some? then {l.rollback.value.epoch} else {}
  }

  /** A partial deletion only removes parts of the directory. */
  predicate Shrunk(d: Dir, rest: Dir) {
    && rest.inode == d.inode
    && (rest.seed.None? || rest.seed == d.seed)
    && (rest.capsule ==> d.capsule)
    && (rest.publication.None? || rest.publication == d.publication)
    && rest.locks <= d.locks
  }

  function Rename(dirs: map<Name, Dir>, from: Name, to: Name): map<Name, Dir>
    requires from in dirs
  {
    (dirs - {from})[to := dirs[from]]
  }

  /** The state after an event, or None when the event cannot happen. A refused
      operation ends by releasing the lifecycle lock. */
  ghost function Next(st: State, e: Event): Option<State> {
    match e
    case Acquire =>
      if st.pc.Free? && forall r :: r in st.readers ==> !HasLifecycle(st.readers[r]) then Some(st.(pc := Holding))
        else None
    case PublishCandidate(epoch, id, tree) =>
      if !st.pc.Holding? || !epoch.Release? then None
      else if st.current.None? && !HistoryAllows(st.dirs, None) then Some(st.(pc := Free))
      else if !ProtectedChecks(st.dirs, st.current) then Some(st.(pc := Free))
      else if EpochName(epoch) in st.dirs || Candidate(id) !in st.dirs then Some(st.(pc := Free))
      else
        var identity := SeedLocator(st.dirs[Candidate(id)], epoch, tree);
        if identity.None? then Some(st.(pc := Free))
        else Some(st.(pc := Staged(epoch, id, CurrentLocator(identity.value, st.current))))
    case LinkRecord =>
      if !st.pc.Staged? || Candidate(st.pc.id) !in st.dirs then None
      else
        var d := st.dirs[Candidate(st.pc.id)];
        var d' := if d.publication.None? then d.(publication := Some(st.pc.locator)) else d;
        Some(st.(dirs := st.dirs[Candidate(st.pc.id) := d'], pc := Recorded(st.pc.epoch, st.pc.id, st.pc.locator)))
    case RenameCandidate =>
      if !st.pc.Recorded? || Candidate(st.pc.id) !in st.dirs then None
      else if st.dirs[Candidate(st.pc.id)].publication != Some(st.pc.locator) then Some(st.(pc := Free))
      else Some(st.(dirs := Rename(st.dirs, Candidate(st.pc.id), EpochName(st.pc.epoch)), pc := Placed(st.pc.locator)))
    case PublishExisting(epoch, tree) =>
      if !st.pc.Holding? || !epoch.Release? then None
      else if st.current.None? && !HistoryAllows(st.dirs, Some(epoch)) then Some(st.(pc := Free))
      else if !ProtectedChecks(st.dirs, st.current) then Some(st.(pc := Free))
      else if EpochName(epoch) !in st.dirs then Some(st.(pc := Free))
      else
        var identity := SeedLocator(st.dirs[EpochName(epoch)], epoch, tree);
        if identity.None? then Some(st.(pc := Free))
        else
          var locator := CurrentLocator(identity.value, st.current);
          if st.dirs[EpochName(epoch)].publication != Some(locator) then Some(st.(pc := Free))
          else Some(st.(pc := Placed(locator)))
    case WriteCurrent =>
      if !st.pc.Placed? then None
      else Some(st.(current := Some(st.pc.locator), pc := Restoring(Protected(st.pc.locator))))
    case Collect(values) =>
      if !st.pc.Holding? then None
      else if st.current.None? then Some(st.(pc := Free))
      else Some(st.(pc := Restoring(values + Protected(st.current.value))))
    case Restore(epoch) =>
      if !st.pc.Restoring? || epoch !in st.pc.kept || Tombstone(epoch) !in st.dirs then None
      else if EpochName(epoch) in st.dirs then Some(st)
      else Some(st.(dirs := Rename(st.dirs, Tombstone(epoch), EpochName(epoch))))
    case CheckProtected =>
      if !st.pc.Restoring? then None
      else if ProtectedChecks(st.dirs, st.current) then Some(st.(pc := Sweeping(st.pc.kept)))
      else Some(st.(pc := Free))
    case Pick(name) =>
      if !st.pc.Sweeping? || name !in st.dirs || name.Candidate? || name.epoch in st.pc.kept then None
      else if name.EpochName? && Tombstone(name.epoch) in st.dirs then Some(st)
      else Some(st.(pc := Locking(name, {}, st.pc.kept)))
    case TakeLock(lock) =>
      if !st.pc.Locking? || st.pc.target !in st.dirs || lock !in st.dirs[st.pc.target].locks then None
      else if Busy(st, st.dirs[st.pc.target].inode, lock) then Some(st.(pc := Sweeping(st.pc.kept)))
      else Some(st.(pc := Locking(st.pc.target, st.pc.held + {lock}, st.pc.kept)))
    case Skip =>
      if st.pc.Locking? || st.pc.Deleting? then Some(st.(pc := Sweeping(st.pc.kept))) else None
    case Withdraw =>
      if !st.pc.Locking? || !st.pc.target.EpochName? || st.pc.target !in st.dirs ||
        st.dirs[st.pc.target].locks != st.pc.held then None
      else
        var epoch := st.pc.target.epoch;
        Some(st.(dirs := Rename(st.dirs, EpochName(epoch), Tombstone(epoch)), pc :=
          Withdrawn(epoch, st.pc.held, st.pc.kept)))
    case PutBack =>
      if !st.pc.Withdrawn? || Tombstone(st.pc.epoch) !in st.dirs then None
      else if EpochName(st.pc.epoch) in st.dirs then Some(st.(pc := Sweeping(st.pc.kept)))
      else Some(st.(dirs := Rename(st.dirs, Tombstone(st.pc.epoch), EpochName(st.pc.epoch)), pc :=
        Sweeping(st.pc.kept)))
    case StartDelete =>
      if st.pc.Withdrawn? && Tombstone(st.pc.epoch) in st.dirs &&
        st.dirs[Tombstone(st.pc.epoch)].locks == st.pc.held then
        Some(st.(pc := Deleting(st.pc.epoch, st.pc.kept)))
      else if st.pc.Locking? && st.pc.target.Tombstone? && st.pc.target in st.dirs &&
        st.dirs[st.pc.target].locks == st.pc.held then
        Some(st.(pc := Deleting(st.pc.target.epoch, st.pc.kept)))
      else None
    case RemovePart(rest) =>
      if !st.pc.Deleting? || Tombstone(st.pc.epoch) !in st.dirs || !Shrunk(st.dirs[Tombstone(st.pc.epoch)], rest) then
        None
      else Some(st.(dirs := st.dirs[Tombstone(st.pc.epoch) := rest]))
    case RemoveDirectory =>
      if !st.pc.Deleting? then None
      else Some(st.(dirs := st.dirs - {Tombstone(st.pc.epoch)}, pc := Sweeping(st.pc.kept)))
    case Finish =>
      if st.pc.Holding? || st.pc.Restoring? || st.pc.Sweeping? then Some(st.(pc := Free)) else None
    case Die => Some(st.(pc := Free))
    case Build(name, dir) =>
      // A builder only ever fills candidate and failed-epoch directories, and
      // leaves a candidate alone once it is being published.
      if exists n :: n in st.dirs && n != name && st.dirs[n].inode == dir.inode then None
      else if name.Candidate? && !((st.pc.Staged? || st.pc.Recorded?) && st.pc.id == name.id) then
        Some(st.(dirs := st.dirs[name := dir]))
      else if name.EpochName? && name.epoch.Failed? && name !in st.dirs then Some(st.(dirs := st.dirs[name := dir]))
      else None
    case Enter(r) =>
      if ReaderOf(st, r).Out? && st.pc.Free? then Some(st.(readers := st.readers[r := Entering])) else None
    case TakeLease(r, epoch, lock) =>
      if !ReaderOf(st, r).Entering? then None
      else if !epoch.Release? || EpochName(epoch) !in st.dirs || st.dirs[EpochName(epoch)].seed.None? ||
        lock !in st.dirs[EpochName(epoch)].locks then
        Some(st.(readers := st.readers[r := Out]))
      else Some(st.(readers := st.readers[r := Leased(epoch, st.dirs[EpochName(epoch)].inode, lock)]))
    case Verify(r) =>
      var p := ReaderOf(st, r);
      if !p.Leased? then None
      else if EpochName(p.epoch) in st.dirs && SeedLocator(st.dirs[EpochName(p.epoch)], p.epoch, None).Some? then
        Some(st.(readers := st.readers[r := Using(p.epoch, p.inode, p.lock)]))
      else Some(st.(readers := st.readers[r := Out]))
    case Leave(r) => Some(st.(readers := st.readers[r := Out]))
  }

  // ------------------------------------------------------------------- invariants

  /** current.json is acceptable and consistent, and both epochs it protects pass
      every check that publish and collect make of them. */
  predicate CurrentInv(st: State) {
    && (st.current.Some? ==> Accepted(st.current.value) && SelfConsistent(st.current.value))
    && ProtectedChecks(st.dirs, st.current)
  }

  /** A reader's epoch stands under its own name, is the directory whose lease the
      reader holds, and once verified is whole. */
  ghost predicate ReaderInv(st: State) {
    forall r :: r in st.readers && HasLease(st.readers[r]) ==>
      var p := st.readers[r];
      && EpochName(p.epoch) in st.dirs
      && st.dirs[EpochName(p.epoch)].inode == p.inode
      && p.lock in st.dirs[EpochName(p.epoch)].locks
      && (p.Using? ==> SeedLocator(st.dirs[EpochName(p.epoch)], p.epoch, None).Some?)
  }

  /** Names are distinct directories. */
  ghost predicate InodeInv(st: State) {
    forall a, b :: a in st.dirs && b in st.dirs && st.dirs[a].inode == st.dirs[b].inode ==> a == b
  }

  /** The digest chain is as long as the generation says. */
  predicate ChainInv(st: State) {
    st.current.Some? ==> |Lineage(UnsignedOf(st.current.value))| == st.current.value.generation
  }

  ghost predicate LockInv(st: State) {
    !st.pc.Free? ==> forall r :: r in st.readers ==> !HasLifecycle(st.readers[r])
  }

  /** A publication under way: what it is about to make current. */
  ghost predicate NextLocator(st: State, dir: Dir, epoch: Epoch, l: Locator) {
    && epoch.Release? && l.epoch == epoch
    && SeedLocator(dir, epoch, None).Some?
    && l == CurrentLocator(SeedLocator(dir, epoch, None).value, st.current)
  }

  ghost predicate PointInv(st: State) {
    match st.pc
    case Free => true
    case Holding => true
    case Staged(epoch, id, l) => EpochName(epoch) !in st.dirs && Candidate(id) in st.dirs &&
      NextLocator(st, st.dirs[Candidate(id)], epoch, l)
    case Recorded(epoch, id, l) =>
      EpochName(epoch) !in st.dirs && Candidate(id) in st.dirs && NextLocator(st, st.dirs[Candidate(id)], epoch, l)
    case Placed(l) =>
      && EpochName(l.epoch) in st.dirs
      && NextLocator(st, st.dirs[EpochName(l.epoch)], l.epoch, l)
      && st.dirs[EpochName(l.epoch)].publication == Some(l)
    case Restoring(kept) => st.current.Some? && Protected(st.current.value) <= kept
    case Sweeping(kept) => st.current.Some? && Protected(st.current.value) <= kept
    case Locking(target, held, kept) =>
      && st.current.Some? && Protected(st.current.value) <= kept
      && target in st.dirs && !target.Candidate? && target.epoch !in kept
      && (target.EpochName? ==> Tombstone(target.epoch) !in st.dirs && forall lock :: lock in held ==>
        !Busy(st, st.dirs[target].inode, lock))
    case Withdrawn(epoch, held, kept) =>
      && st.current.Some? && Protected(st.current.value) <= kept
      && epoch !in kept
    case Deleting(epoch, kept) =>
      && st.current.Some? && Protected(st.current.value) <= kept && epoch !in kept
  }

  ghost predicate Core(st: State) {
    CurrentInv(st) && ReaderInv(st) && LockInv(st) && PointInv(st)
  }

  ghost predicate Inv(st: State) {
    Core(st) && InodeInv(st) && ChainInv(st)
  }

  predicate IsReaderEvent(e: Event) {
    e.Enter? || e.TakeLease? || e.Verify? || e.Leave?
  }

  predicate IsPublishEvent(e: Event) {
    e.PublishCandidate? || e.LinkRecord? || e.RenameCandidate? || e.PublishExisting? || e.WriteCurrent?
  }

  lemma ReaderEventKeepsCore(st: State, e: Event)
    requires Core(st) && IsReaderEvent(e) && Next(st, e).Some?
    ensures Core(Next(st, e).value)
  {
    hide Accepted, SelfConsistent, HistoryAllows, SeedLocator, CurrentLocator;
  }

  /** Staging and placing an epoch changes no directory that is protected. */
  lemma StageEventKeepsCore(st: State, e: Event)
    requires Core(st) && IsPublishEvent(e) && !e.WriteCurrent? && Next(st, e).Some?
    ensures Core(Next(st, e).value)
  {
    hide Accepted, SelfConsistent;
  }

  /** Writing current.json makes the old current epoch the rollback. */
  lemma WriteCurrentKeepsCore(st: State)
    requires Core(st) && Next(st, WriteCurrent).Some?
    ensures Core(Next(st, WriteCurrent).value)
  {
    var l := st.pc.locator;
    var id := SeedLocator(st.dirs[EpochName(l.epoch)], l.epoch, None).value;
    LocatorHistory(id, st.current);
    var st' := Next(st, WriteCurrent).value;
    if st.current.Some? && st.current.value.epoch != l.epoch {
      assert RollbackChecks(st.dirs, RollbackOf(st.current.value));
    }
    assert CurrentInv(st') && ReaderInv(st');
  }

  predicate IsRenameEvent(e: Event) {
    e.Restore? || e.Withdraw? || e.PutBack?
  }

  /** Withdrawing, restoring and putting back never move a protected epoch or an
      epoch with a reader in it. */
  lemma RenameEventKeepsCore(st: State, e: Event)
    requires Core(st) && IsRenameEvent(e) && Next(st, e).Some?
    ensures Core(Next(st, e).value)
  {
    hide CurrentLocator, Accepted, SelfConsistent;
    if e.Withdraw? {
      NoReaderWhenLocked(st);
    }
  }

  /** Once every lock file of an epoch is held, no reader is inside it. */
  lemma NoReaderWhenLocked(st: State)
    requires Core(st) && st.pc.Locking? && st.pc.target.EpochName? && st.dirs[st.pc.target].locks == st.pc.held
    ensures forall r :: r in st.readers && HasLease(st.readers[r]) ==> st.readers[r].epoch != st.pc.target.epoch
  {
  }

  lemma DeleteEventKeepsCore(st: State, e: Event)
    requires Core(st) && (e.StartDelete? || e.RemovePart? || e.RemoveDirectory?) && Next(st, e).Some?
    ensures Core(Next(st, e).value)
  {
    hide CurrentLocator, Accepted, SelfConsistent;
  }

  lemma OtherEventKeepsCore(st: State, e: Event)
    requires Core(st) && !IsReaderEvent(e) && !IsPublishEvent(e) && !IsRenameEvent(e)
    requires !e.StartDelete? && !e.RemovePart? && !e.RemoveDirectory? && Next(st, e).Some?
    ensures Core(Next(st, e).value)
  {
    hide CurrentLocator, Accepted, SelfConsistent;
  }

  lemma NextKeepsCore(st: State, e: Event)
    requires Core(st) && Next(st, e).Some?
    ensures Core(Next(st, e).value)
  {
    hide Next, Core;
    if IsReaderEvent(e) {
      ReaderEventKeepsCore(st, e);
    } else if e.WriteCurrent? {
      WriteCurrentKeepsCore(st);
    } else if IsPublishEvent(e) {
      StageEventKeepsCore(st, e);
    } else if IsRenameEvent(e) {
      RenameEventKeepsCore(st, e);
    } else if e.StartDelete? || e.RemovePart? || e.RemoveDirectory? {
      DeleteEventKeepsCore(st, e);
    } else {
      OtherEventKeepsCore(st, e);
    }
  }

  lemma NextKeepsInodes(st: State, e: Event)
    requires InodeInv(st) && Next(st, e).Some?
    ensures InodeInv(Next(st, e).value)
  {
    hide ProtectedChecks, HistoryAllows, SeedLocator, CurrentLocator, Busy;
  }

  lemma NextKeepsInv(st: State, e: Event)
    requires Inv(st) && Next(st, e).Some?
    ensures Inv(Next(st, e).value)
  {
    hide Core, InodeInv, Next;
    NextKeepsCore(st, e);
    NextKeepsInodes(st, e);
    NextIsHistoryStep(st, e);
  }

  // ------------------------------------------------------------------- whole runs

  const EMPTY := State(None, map[], map[], Free)

  ghost predicate Possible(st: State, events: seq<Event>)
    decreases events
  {
    events == [] || (Next(st, events[0]).Some? && Possible(Next(st, events[0]).value, events[1..]))
  }

  ghost function Run(st: State, events: seq<Event>): State
    requires Possible(st, events)
    decreases events
  {
    if events == [] then st else Run(Next(st, events[0]).value, events[1..])
  }

  lemma {:induction false} RunKeepsInv(st: State, events: seq<Event>)
    requires Inv(st) && Possible(st, events)
    ensures Inv(Run(st, events))
    decreases events
  {
    hide Next, Inv;
    if events != [] {
      NextKeepsInv(st, events[0]);
      RunKeepsInv(Next(st, events[0]).value, events[1..]);
    }
  }

  /** The directory has the seed file of this release epoch and its capsule. */
  predicate Whole(d: Dir, epoch: Epoch) {
    epoch.Release? && d.seed.Some? && d.seed.value.revision == epoch.revision && d.capsule
  }

  /** The epoch stands whole under its own name, with this runtime key and seed digest. */
  predicate Standing(dirs: map<Name, Dir>, epoch: Epoch, runtimeKey: string, seedDigest: string) {
    var name := EpochName(epoch);
    && name in dirs && Whole(dirs[name], epoch)
    && dirs[name].seed.value.runtimeKey == runtimeKey && dirs[name].seed.value.seedDigest == seedDigest
  }

  /** In every state any run of publishers, collectors, readers and crashes can
      reach, the current epoch and its rollback stand whole under their own names,
      with the keys and digests of the locator and with their own records, so those
      checks never refuse; the rollback is the generation before; and current.json
      is one that reading accepts. */
  lemma ProtectedAlwaysStand(events: seq<Event>)
    requires Possible(EMPTY, events)
    ensures var st := Run(EMPTY, events);
            && ProtectedChecks(st.dirs, st.current)
            && (st.current.Some? ==>
                  var l := st.current.value;
                  && Accepted(l) && SelfConsistent(l) && l.generation >= 1
                  && Standing(st.dirs, l.epoch, l.runtimeKey, l.seedDigest)
                  && st.dirs[EpochName(l.epoch)].publication == Some(l)
                  && (l.rollback.None? <==> l.generation == 1)
                  && (l.rollback.Some? ==>
                        var r := l.rollback.value;
                        && r.epoch != l.epoch && r.generation + 1 == l.generation
                        && Standing(st.dirs, r.epoch, r.runtimeKey, r.seedDigest)
                        && st.dirs[EpochName(r.epoch)].publication.Some?
                        && var past := st.dirs[EpochName(r.epoch)].publication.value;
                        && past.epoch == r.epoch && past.generation == r.generation
                        && past.publicationDigest == r.publicationDigest
                        && past.runtimeKey == r.runtimeKey && past.seedDigest == r.seedDigest))
            && (st.pc.Restoring? ==> Next(st, CheckProtected) == Some(st.(pc := Sweeping(st.pc.kept))))
  {
    RunKeepsInv(EMPTY, events);
    hide Run, Possible, ReaderInv, PointInv, LockInv;
  }

  /** No event withdraws, deletes or alters either protected epoch. */
  lemma ProtectedUntouched(st: State, e: Event)
    requires Core(st) && st.current.Some? && Next(st, e).Some?
    ensures var dirs' := Next(st, e).value.dirs;
            var l := st.current.value;
            && EpochName(l.epoch) in dirs' && dirs'[EpochName(l.epoch)] == st.dirs[EpochName(l.epoch)]
            && (l.rollback.Some? ==>
                  var name := EpochName(l.rollback.value.epoch);
                  name in dirs' && dirs'[name] == st.dirs[name])
  {
    hide CurrentLocator, SelfConsistent;
  }

  /** Over every run: a reader with a lease is in a directory that stands under
      its epoch's own name, still has the lock file the lease is on, and is whole
      once the reader has verified it. It is no tombstone, and in particular not
      the directory a collector has withdrawn or is deleting. While anybody publishes or
      collects, no reader is between entering and verifying. */
  lemma ReadersAreSafe(events: seq<Event>, r: Reader)
    requires Possible(EMPTY, events)
    ensures var st := Run(EMPTY, events);
            var p := ReaderOf(st, r);
            && (p.Leased? || p.Using? ==>
                  && EpochName(p.epoch) in st.dirs
                  && st.dirs[EpochName(p.epoch)].inode == p.inode
                  && p.lock in st.dirs[EpochName(p.epoch)].locks
                  && (p.Using? ==> Whole(st.dirs[EpochName(p.epoch)], p.epoch))
                  && (forall e :: Tombstone(e) in st.dirs ==> st.dirs[Tombstone(e)].inode != p.inode))
            && (!st.pc.Free? ==> p.Out? || p.Using?)
  {
    RunKeepsInv(EMPTY, events);
  }

  /** How current.json may change in one step. */
  ghost predicate HistoryStep(before: Option<Locator>, after: Option<Locator>) {
    || after == before
    || (&& after.Some?
        && after.value.generation == (if before.None? then 1 else before.value.generation + 1)
        && after.value.rollback == (if before.None? then None else Some(RollbackOf(before.value)))
        && Lineage(UnsignedOf(after.value)) == (if before.None? then []
          else Lineage(UnsignedOf(before.value))) + [after.value.epoch])
  }

  lemma NextIsHistoryStep(st: State, e: Event)
    requires Core(st) && Next(st, e).Some?
    ensures HistoryStep(st.current, Next(st, e).value.current)
  {
    hide HistoryAllows, Busy, ReaderInv, LockInv;
    if e.WriteCurrent? {
      var l := st.pc.locator;
      LocatorHistory(SeedLocator(st.dirs[EpochName(l.epoch)], l.epoch, None).value, st.current);
      assert [] + [l.epoch] == [l.epoch];
    }
  }

  function LineageOf(current: Option<Locator>): seq<Epoch> {
    if current.None? then [] else Lineage(UnsignedOf(current.value))
  }

  /** History is never rewritten: over every run the chain of publications that
      current.json commits to only grows, and the generation is its length. */
  lemma {:induction false} HistoryOnlyGrows(st: State, events: seq<Event>)
    requires Inv(st) && Possible(st, events)
    ensures LineageOf(st.current) <= LineageOf(Run(st, events).current)
    ensures var l := Run(st, events).current; l.Some? ==> l.value.generation == |LineageOf(l)|
    decreases events
  {
    hide Next;
    if events != [] {
      NextKeepsInv(st, events[0]);
      NextIsHistoryStep(st, events[0]);
      HistoryOnlyGrows(Next(st, events[0]).value, events[1..]);
    }
  }

  /** Along every run current.json stays as it is or its generation has risen. */
  lemma {:induction false} GenerationRises(st: State, events: seq<Event>)
    requires Inv(st) && Possible(st, events)
    ensures var now := Run(st, events).current;
            || now == st.current
            || (now.Some? && now.value.generation > (if st.current.None? then 0 else st.current.value.generation))
    decreases events
  {
    hide Next;
    if events != [] {
      NextKeepsInv(st, events[0]);
      NextIsHistoryStep(st, events[0]);
      GenerationRises(Next(st, events[0]).value, events[1..]);
    }
  }

  /** Over every run: publishing an epoch directory that already exists and then writing
      the locator makes current.json the very record that the directory holds. It is
      possible exactly when the directory is whole, is for the expected tree and holds the
      record due now, and, without a locator, when there is no other epoch or tombstone. */
  lemma ExistingEpochNeedsItsRecord(events: seq<Event>, epoch: Epoch, tree: Option<string>)
    requires Possible(EMPTY, events)
    requires var st := Run(EMPTY, events); st.pc.Holding? && epoch.Release? && EpochName(epoch) in st.dirs
    ensures var st := Run(EMPTY, events);
            var d := st.dirs[EpochName(epoch)];
            && Next(st, PublishExisting(epoch, tree)).Some?
            && var st' := Next(st, PublishExisting(epoch, tree)).value;
            && (Next(st', WriteCurrent).Some? <==>
                  && (st.current.Some? || forall n :: n in st.dirs ==> n.Candidate? || n == EpochName(epoch))
                  && Whole(d, epoch) && (tree.Some? ==> d.seed.value.tree == tree.value)
                  && d.publication ==
                       Some(CurrentLocator(SeedIdentity(epoch, d.seed.value.runtimeKey, d.seed.value.seedDigest),
                         st.current)))
            && (Next(st', WriteCurrent).Some? ==> Next(st', WriteCurrent).value.current == d.publication)
            && (Next(st', WriteCurrent).None? ==> st' == st.(pc := Free))
  {
    RunKeepsInv(EMPTY, events);
    hide Run, Possible, ReaderInv, CurrentLocator;
  }

  /** A publisher died after placing its epoch. After any further events, as long as its
      epoch directory stands as it was, a retry without a candidate arrives at the
      identical locator exactly if current.json has not moved on since or has come to
      hold that very locator; in every other case it is refused and changes nothing. */
  lemma RetryIsIdentical(st: State, events: seq<Event>)
    requires Inv(st) && st.pc.Placed? && Possible(st, events)
    requires var st' := Run(st, events);
             var name := EpochName(st.pc.locator.epoch);
             && st'.pc.Holding? && name in st'.dirs && st'.dirs[name] == st.dirs[name]
             && (st'.current.Some? || forall n :: n in st'.dirs ==> n.Candidate? || n == name)
    ensures var l, st' := st.pc.locator, Run(st, events);
            Next(st', PublishExisting(l.epoch, None)) ==
              Some(st'.(pc := if st'.current == st.current || st'.current == Some(l) then Placed(l) else Free))
  {
    RunKeepsInv(st, events);
    GenerationRises(st, events);
    var st' := Run(st, events);
    hide Run, Possible, ReaderInv;
  }

}
