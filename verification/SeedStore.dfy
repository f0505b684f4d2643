/** The cold-cache seed store under crashes and exceptions: any number of keys, their
    processes, one shared object directory and one lifecycle lock
    (scripts/cold_cache_authority.py). */
module SeedStore {
  import opened Base
  import opened SeedTree
  import opened SeedObject
  import opened SeedProtocol
  import SeedPublish

  // ----------------------------------------------------------- the whole store

  datatype Store = Store(slots: map<Key, Slot>, objects: Objects, lifecycle: Option<Key>)

  datatype Event = Advance(key: Key, input: Input) | Raise(key: Key) | Crash(key: Key)

  function SlotOf(st: Store, key: Key): Slot {
    if key in st.slots then st.slots[key] else EMPTY
  }

  /** A step may take the lifecycle lock only while nobody holds it. */
  ghost predicate Enabled(st: Store, e: Event) {
    match e
    case Crash(_) => true
    case Raise(_) => true
    case Advance(key, input) =>
      var s := SlotOf(st, key);
      !Holding(s.pc) && Holding(Step(s, st.objects, input).0.pc) ==> st.lifecycle.None?
  }

  /** What an event makes of its key's slot and of the objects. A crash frees the locks
      of the dead process and changes nothing else. */
  ghost function Effect(s: Slot, objects: Objects, e: Event): (Slot, Objects) {
    match e
    case Crash(_) => (s.(pc := Idle), objects)
    case Raise(_) => (Raised(s), objects)
    case Advance(_, input) => Step(s, objects, input)
  }

  ghost function Apply(st: Store, e: Event): Store {
    var (s', objects') := Effect(SlotOf(st, e.key), st.objects, e);
    Store(st.slots[e.key := s'], objects',
          if Holding(s'.pc) then Some(e.key) else if st.lifecycle == Some(e.key) then None else st.lifecycle)
  }

  ghost predicate StoreInv(st: Store) {
    && ObjectsInv(st.objects)
    && (forall key :: SlotInv(SlotOf(st, key), st.objects))
    && (forall key :: Holding(SlotOf(st, key).pc) <==> st.lifecycle == Some(key))
  }

  /** The steps of one key never disturb another key's promises. */
  lemma OtherSlotUndisturbed(s: Slot, before: Objects, after: Objects)
    requires SlotInv(s, before) && Grown(before, after) && (before == after || !Holding(s.pc))
    ensures SlotInv(s, after)
  {
    if s.locator.Some? {
      GrowthKeepsObjects(before, after, s.locator.value.digest);
    }
  }

  /** Objects change only under the lifecycle lock. */
  lemma ObjectsChangeUnderLock(s: Slot, objects: Objects, input: Input)
    requires !Holding(s.pc)
    ensures Step(s, objects, input).1 == objects
  {
  }

  /** An exception never takes the lifecycle lock. */
  lemma RaiseTakesNoLock(s: Slot)
    ensures Holding(Raised(s).pc) ==> Holding(s.pc)
  {
  }

  lemma EffectKeepsSlot(s: Slot, objects: Objects, e: Event)
    requires SlotInv(s, objects) && ObjectsInv(objects)
    ensures var (s', objects') := Effect(s, objects, e);
            && SlotInv(s', objects') && ObjectsInv(objects') && Grown(objects, objects')
            && (!Holding(s.pc) ==> objects' == objects)
            && (!e.Advance? && Holding(s'.pc) ==> Holding(s.pc))
  {
    hide Step, Raised, Validate;
    match e
    case Crash(_) =>
    case Raise(_) =>
      RaiseKeepsSlot(s, objects);
      RaiseTakesNoLock(s);
    case Advance(_, input) =>
      StepKeepsSlot(s, objects, input);
      if !Holding(s.pc) {
        ObjectsChangeUnderLock(s, objects, input);
      }
  }

  lemma ApplyKeepsStore(st: Store, e: Event)
    requires StoreInv(st) && Enabled(st, e)
    ensures StoreInv(Apply(st, e)) && Grown(st.objects, Apply(st, e).objects)
  {
    var s := SlotOf(st, e.key);
    var st' := Apply(st, e);
    EffectKeepsSlot(s, st.objects, e);
    hide Step, Raised, Validate;
    forall key
      ensures SlotInv(SlotOf(st', key), st'.objects)
    {
      if key != e.key {
        OtherSlotUndisturbed(SlotOf(st, key), st.objects, st'.objects);
      }
    }
  }

  ghost predicate Possible(st: Store, events: seq<Event>)
    decreases events
  {
    events == [] || (Enabled(st, events[0]) && Possible(Apply(st, events[0]), events[1..]))
  }

  ghost function Run(st: Store, events: seq<Event>): Store
    decreases events
  {
    if events == [] then st else Run(Apply(st, events[0]), events[1..])
  }

  const EMPTY_STORE := Store(map[], map[], None)

  lemma {:induction false} RunKeepsStore(st: Store, events: seq<Event>)
    requires StoreInv(st) && Possible(st, events)
    ensures StoreInv(Run(st, events))
    decreases events
  {
    if events != [] {
      ApplyKeepsStore(st, events[0]);
      RunKeepsStore(Apply(st, events[0]), events[1..]);
    }
  }

  /** What every reader of the store relies on, over every run of any number of
      processes, keys and crashes: a locator names an object whose scanned rows
      have that digest and whose root and contents are sealed; and a recovery
      started in any such state is exact. */
  lemma StoreIsSafe(events: seq<Event>, key: Key, inputs: nat -> Input, sizes: Sizes)
    requires Possible(EMPTY_STORE, events) && Host(inputs, sizes)
    ensures var st := Run(EMPTY_STORE, events);
            var s := SlotOf(st, key);
            && (s.locator.Some? ==> Sealed(st.objects, s.locator.value.digest))
            && ObjectsInv(st.objects) && SlotInv(s.(pc := RecoverWait), st.objects)
            && (Recover(s.(pc := RecoverWait), st.objects, inputs, 0).0.pc == Done(Refused) <==>
                  Blocked(s) || Stuck(s, st.objects, sizes))
  {
    RunKeepsStore(EMPTY_STORE, events);
    var st := Run(EMPTY_STORE, events);
    var s := SlotOf(st, key);
    assert SlotInv(s, st.objects);
    hide Run, Possible, Recover, Clear, HasCandidate, Validate;
    RecoveryIsExact(s.(pc := RecoverWait), st.objects, inputs, sizes);
  }

  /** A process waits only for the lifecycle lock, and only while another key's process has it:
      one that has taken it and not yet given it back. Priming takes no lock. */
  lemma OnlyTheHolderBlocks(st: Store, key: Key, input: Input)
    requires StoreInv(st)
    ensures Enabled(st, Crash(key)) && Enabled(st, Raise(key))
    ensures var pc := SlotOf(st, key).pc;
            Enabled(st, Advance(key, input)) <==>
              st.lifecycle.None? || st.lifecycle == Some(key) || !(pc.RecoverWait? || pc.PublishWait?)
    ensures var pc := SlotOf(st, key).pc;
            st.lifecycle != Some(key) <==>
              || pc.Idle? || pc.RecoverWait? || pc.Recovered? || pc.Priming? || pc.PublishWait? || pc.Discarding?
              || pc.Done?
  {
    hide SlotInv, Validate, Prepare, Deletable, Discard;
  }

  lemma StoreReached(events: seq<Event>, key: Key)
    requires Possible(EMPTY_STORE, events)
    ensures var st := Run(EMPTY_STORE, events); SlotInv(SlotOf(st, key), st.objects) && ObjectsInv(st.objects)
  {
    RunKeepsStore(EMPTY_STORE, events);
  }

  /** A publication that nothing interrupts, from any state that a run of any processes can
      reach: it answers with a digest exactly if its candidate is a private directory that
      can be prepared, under that digest, and, where another key has placed the same tree
      before, can be deleted as well. Prepared, it is published in either case: the locator
      names its sealed object and no pending record is left. */
  lemma PublicationSucceeds(events: seq<Event>, key: Key, inputs: nat -> Input, sizes: Sizes)
    requires Possible(EMPTY_STORE, events) && SlotOf(Run(EMPTY_STORE, events), key).pc.Preparing?
    requires Host(inputs, sizes) && inputs(0).act == Proceed
    ensures var st := Run(EMPTY_STORE, events);
            var s := SlotOf(st, key);
            var (s', objects') := SeedPublish.PublishSeed(s, st.objects, inputs);
            var seed := SeedPublish.Prepared(s, s.pc.name);
            && s'.pending.None?
            && (s'.pc == Done(Refused) || s'.candidates == map[])
            && (seed.None? ==> s'.pc == Done(Refused) && s'.locator.None? && objects' == st.objects)
            && (seed.Some? ==>
                  var d := seed.value.1.contentDigest;
                  && s'.locator == Some(Record(d, 1)) && Sealed(objects', d)
                  && s'.pc == Done(if d in st.objects ==> Deletable(seed.value.0, sizes) then Found(d) else Refused))
  {
    StoreReached(events, key);
    hide *;
    var st := Run(EMPTY_STORE, events);
    var s := SlotOf(st, key);
    SeedPublish.KeptPublication(s, st.objects, inputs, sizes);
  }

  /** What a run may do to published state: objects keep their entries, locators
      keep their digest, and a commitment whose object is in place is never undone. */
  ghost predicate Extends(st: Store, st': Store) {
    && Grown(st.objects, st'.objects)
    && (forall key, d :: Committed(SlotOf(st, key), d) && d in st.objects ==> Committed(SlotOf(st', key), d))
    && (forall key :: SlotOf(st, key).locator.Some? ==>
          && SlotOf(st', key).locator.Some?
          && SlotOf(st', key).locator.value.digest == SlotOf(st, key).locator.value.digest)
  }

  /** A commitment is undone only by recovery, and only without an object for it. */
  lemma EffectKeepsCommitment(s: Slot, objects: Objects, e: Event, d: Digest)
    requires SlotInv(s, objects) && ObjectsInv(objects)
    ensures var s' := Effect(s, objects, e).0;
            && (Committed(s, d) && d in objects ==> Committed(s', d))
            && (Committed(s, d) ==> (Committed(s', d) <==> !(e.Advance? && Abandons(s))))
            && (s.locator.Some? ==> s'.locator.Some? && s'.locator.value.digest == s.locator.value.digest)
  {
    hide Step, Raised, Validate;
    match e
    case Crash(_) =>
    case Raise(_) => RaiseKeepsSlot(s, objects);
    case Advance(_, input) => StepKeepsCommitment(s, objects, input, d);
  }

  lemma ApplyExtends(st: Store, e: Event)
    requires StoreInv(st) && Enabled(st, e)
    ensures Extends(st, Apply(st, e))
  {
    hide Validate, Effect, PointInv;
    ApplyKeepsStore(st, e);
    var s, st' := SlotOf(st, e.key), Apply(st, e);
    forall d
      ensures Committed(s, d) && d in st.objects ==> Committed(SlotOf(st', e.key), d)
      ensures s.locator.Some? ==>
        SlotOf(st', e.key).locator.Some? && SlotOf(st', e.key).locator.value.digest == s.locator.value.digest
    {
      EffectKeepsCommitment(s, st.objects, e, d);
    }
    if s.locator.Some? {
      EffectKeepsCommitment(s, st.objects, e, s.locator.value.digest);
    }
    assert forall key :: key != e.key ==> SlotOf(st', key) == SlotOf(st, key);
  }

  /** Objects and locators are write-once over every run, and a commitment whose object
      is in place is permanent. */
  lemma {:induction false} RunExtends(st: Store, events: seq<Event>)
    requires StoreInv(st) && Possible(st, events)
    ensures Extends(st, Run(st, events))
    decreases events
  {
    if events != [] {
      ApplyKeepsStore(st, events[0]);
      ApplyExtends(st, events[0]);
      RunExtends(Apply(st, events[0]), events[1..]);
    }
  }

  // ------------------------------------------------------------- the commit point

  /** What the key has committed still has its tree, and nobody is removing it. */
  ghost predicate Kept(s: Slot, objects: Objects) {
    s.pending.Some? && s.locator.None? ==>
      || s.pending.value.digest in objects
      || (HasCandidate(s.candidates, s.pending.value.digest) && !s.pc.Failing? && !s.pc.RecoverAbandon?)
  }

  /** An exception now would remove the only tree of a committed digest: the pending
      record is written and the object is not yet in place. */
  predicate Exposed(s: Slot, objects: Objects) {
    (s.pc.PublishUnlinkPending? || s.pc.PublishSearch? || s.pc.PublishRename?) && s.pc.d !in objects
  }

  /** Every step keeps the tree, and an exception does exactly outside that window. */
  lemma EffectKeepsTree(s: Slot, objects: Objects, e: Event)
    requires SlotInv(s, objects) && ObjectsInv(objects) && Kept(s, objects)
    ensures var (s', objects') := Effect(s, objects, e);
            Kept(s', objects') <==> !(e.Raise? && Exposed(s, objects))
  {
    hide Validate, Prepare;
    match e
    case Crash(_) =>
    case Raise(_) => hide ValidCandidate;
    case Advance(_, input) =>
      if InRecovery(s.pc) {
        RecoverKeepsTree(s, objects, input);
      } else {
        hide ValidCandidate;
      }
  }

  lemma RecoverKeepsTree(s: Slot, objects: Objects, input: Input)
    requires SlotInv(s, objects) && ObjectsInv(objects) && Kept(s, objects) && InRecovery(s.pc)
    ensures var (s', objects') := RecoverStep(s, objects, input); Kept(s', objects')
  {
    hide Validate, Prepare;
    if s.pc.RecoverSearch? {
      OneMatch(s, objects, s.pc.d);
    }
    hide ValidCandidate;
  }

  /** No event of the run raises while the key is exposed. */
  ghost predicate NeverExposed(st: Store, events: seq<Event>, key: Key)
    decreases events
  {
    events == [] ||
    (!(events[0] == Raise(key) && Exposed(SlotOf(st, key), st.objects)) &&
      NeverExposed(Apply(st, events[0]), events[1..], key))
  }

  lemma ApplyKeepsTree(st: Store, e: Event, key: Key, d: Digest)
    requires StoreInv(st) && Enabled(st, e) && Kept(SlotOf(st, key), st.objects)
    requires !(e == Raise(key) && Exposed(SlotOf(st, key), st.objects))
    ensures var st' := Apply(st, e);
            && Kept(SlotOf(st', key), st'.objects)
            && (Committed(SlotOf(st, key), d) ==> Committed(SlotOf(st', key), d))
  {
    hide Validate, Effect;
    ApplyKeepsStore(st, e);
    assert SlotInv(SlotOf(st, key), st.objects);
    if e.key == key {
      EffectKeepsTree(SlotOf(st, key), st.objects, e);
      EffectKeepsCommitment(SlotOf(st, key), st.objects, e, d);
    } else {
      assert SlotOf(Apply(st, e), key) == SlotOf(st, key);
    }
  }

  lemma {:induction false} RunKeepsTree(st: Store, events: seq<Event>, key: Key, d: Digest)
    requires StoreInv(st) && Possible(st, events) && Kept(SlotOf(st, key), st.objects) && NeverExposed(st, events, key)
    ensures var st' := Run(st, events);
            && Kept(SlotOf(st', key), st'.objects)
            && (Committed(SlotOf(st, key), d) ==> Committed(SlotOf(st', key), d))
    decreases events
  {
    hide Kept, Exposed, Committed, StoreInv, Enabled, Apply;
    if events != [] {
      ApplyKeepsTree(st, events[0], key, d);
      ApplyKeepsStore(st, events[0]);
      RunKeepsTree(Apply(st, events[0]), events[1..], key, d);
    }
  }

  /** The commit point. Let a digest be committed at some moment of a run. After any
      further steps of any processes, exceptions, crashes and interrupted recoveries:
      - the next recovery to run to its end publishes exactly that digest if and only if
        no record of the key has two names, the digest is still committed and its tree
        is still there as locator, object or candidate; and it answers with it if and
        only if, moreover, it has no candidate to delete that cannot be deleted;
      - the digest is still committed and its tree there if its object was in place at
        that moment, and also if no exception of the key ever fell between writing its
        pending record and placing its object. */
  lemma CommitPointIsDurable(
    events: seq<Event>, more: seq<Event>, key: Key, d: Digest, inputs: nat -> Input, sizes: Sizes)
    requires Possible(EMPTY_STORE, events) && Possible(Run(EMPTY_STORE, events), more) && Host(inputs, sizes)
    requires Committed(SlotOf(Run(EMPTY_STORE, events), key), d)
    ensures var st := Run(Run(EMPTY_STORE, events), more);
            var s := SlotOf(st, key).(pc := RecoverWait);
            && ObjectsInv(st.objects) && SlotInv(s, st.objects)
            && var (s', objects') := Recover(s, st.objects, inputs, 0);
            && (s'.locator == Some(Record(d, 1)) && s'.pending.None? && Sealed(objects', d) <==>
                  !Blocked(s) && Committed(s, d) && Backed(s, st.objects, d))
            && (s'.pc == Done(Found(d)) <==>
                  !Blocked(s) && !Stuck(s, st.objects, sizes) && Committed(s, d) && Backed(s, st.objects, d))
    ensures || d in Run(EMPTY_STORE, events).objects
            || (NeverExposed(EMPTY_STORE, events, key) && NeverExposed(Run(EMPTY_STORE, events), more, key))
            ==> var st := Run(Run(EMPTY_STORE, events), more);
                Committed(SlotOf(st, key), d) && Backed(SlotOf(st, key), st.objects, d)
  {
    EmptyStoreIsFine(key);
    hide *;
    var mid := Run(EMPTY_STORE, events);
    RunKeepsStore(EMPTY_STORE, events);
    RunKeepsStore(mid, more);
    StoreRecovers(Run(mid, more), key, d, inputs, sizes);
    if d in mid.objects {
      ObjectKeepsCommitment(mid, more, key, d);
    }
    if NeverExposed(EMPTY_STORE, events, key) && NeverExposed(mid, more, key) {
      RunKeepsTree(EMPTY_STORE, events, key, d);
      RunKeepsTree(mid, more, key, d);
      KeptIsBacked(SlotOf(Run(mid, more), key), Run(mid, more).objects, d);
    }
  }

  lemma EmptyStoreIsFine(key: Key)
    ensures StoreInv(EMPTY_STORE) && Kept(SlotOf(EMPTY_STORE, key), EMPTY_STORE.objects)
  {
  }

  /** Recovery of any key of a store that keeps its promises. */
  lemma StoreRecovers(st: Store, key: Key, d: Digest, inputs: nat -> Input, sizes: Sizes)
    requires StoreInv(st) && Host(inputs, sizes)
    ensures var s := SlotOf(st, key).(pc := RecoverWait);
            && ObjectsInv(st.objects) && SlotInv(s, st.objects)
            && var (s', objects') := Recover(s, st.objects, inputs, 0);
            && (s'.locator == Some(Record(d, 1)) && s'.pending.None? && Sealed(objects', d) <==>
                  !Blocked(s) && Committed(s, d) && Backed(s, st.objects, d))
            && (s'.pc == Done(Found(d)) <==>
                  !Blocked(s) && !Stuck(s, st.objects, sizes) && Committed(s, d) && Backed(s, st.objects, d))
  {
    var s := SlotOf(st, key);
    assert SlotInv(s, st.objects);
    assert SlotInv(s.(pc := RecoverWait), st.objects);
    RecoveryIsExact(s.(pc := RecoverWait), st.objects, inputs, sizes);
    hide Recover, SlotInv, Backed, Stuck, Sealed, ObjectsInv;
  }

  lemma ObjectKeepsCommitment(mid: Store, more: seq<Event>, key: Key, d: Digest)
    requires StoreInv(mid) && Possible(mid, more) && Committed(SlotOf(mid, key), d) && d in mid.objects
    ensures var st := Run(mid, more); Committed(SlotOf(st, key), d) && Backed(SlotOf(st, key), st.objects, d)
  {
    RunExtends(mid, more);
    hide StoreInv, Run, Possible, HasCandidate;
  }

  lemma KeptIsBacked(s: Slot, objects: Objects, d: Digest)
    requires Kept(s, objects) && Committed(s, d)
    ensures Backed(s, objects, d)
  {
    hide HasCandidate;
  }

  // -------------------------------------------------------------------- torn records

  /** The process is between linking a record and unlinking its temporary name. */
  predicate HalfWritten(pc: Pc) {
    pc.PublishUnlinkPending? || pc.PublishUnlinkLocator? || pc.RecoverUnlinkTemporary?
  }

  /** A record has two names and nobody is about to remove one. */
  predicate Torn(s: Slot) {
    Blocked(s) && !HalfWritten(s.pc)
  }

  lemma StepKeepsTorn(s: Slot, objects: Objects, input: Input)
    requires SlotInv(s, objects) && ObjectsInv(objects)
    ensures Torn(Step(s, objects, input).0) <==> Torn(s)
  {
    hide Validate, Prepare, Valid, Sealed, ValidCandidate, Own, Deletable, Leftover, Weight;
    if InRecovery(s.pc) {
      hide PublishStep;
    } else {
      hide RecoverStep;
    }
  }

  /** Only a crash tears a record, only in that window, and nothing ever mends it. */
  lemma EffectTears(s: Slot, objects: Objects, e: Event)
    requires SlotInv(s, objects) && ObjectsInv(objects)
    ensures Torn(Effect(s, objects, e).0) <==> Torn(s) || (e.Crash? && HalfWritten(s.pc))
  {
    hide Validate, ValidCandidate, Valid, Sealed;
    match e
    case Crash(_) =>
    case Raise(_) =>
    case Advance(_, input) =>
      hide Step;
      StepKeepsTorn(s, objects, input);
  }

  /** No crash of the key falls between linking a record and unlinking its temporary name. */
  ghost predicate NeverTorn(st: Store, events: seq<Event>, key: Key)
    decreases events
  {
    events == [] ||
    (!(events[0] == Crash(key) && HalfWritten(SlotOf(st, key).pc)) && NeverTorn(Apply(st, events[0]), events[1..], key))
  }

  /** Over every run: a key has a record with two names, other than one being written right
      now, exactly if one of its processes died between linking and unlinking. */
  lemma {:induction false} TornIsExact(st: Store, events: seq<Event>, key: Key)
    requires StoreInv(st) && Possible(st, events)
    ensures Torn(SlotOf(Run(st, events), key)) <==> Torn(SlotOf(st, key)) || !NeverTorn(st, events, key)
    decreases events
  {
    hide StoreInv, Enabled, Torn, HalfWritten, Apply;
    if events != [] {
      ApplyTears(st, events[0], key);
      ApplyKeepsStore(st, events[0]);
      TornIsExact(Apply(st, events[0]), events[1..], key);
    }
  }

  lemma ApplyTears(st: Store, e: Event, key: Key)
    requires StoreInv(st) && Enabled(st, e)
    ensures Torn(SlotOf(Apply(st, e), key)) <==>
            Torn(SlotOf(st, key)) || (e == Crash(key) && HalfWritten(SlotOf(st, key).pc))
  {
    hide Effect, Torn, HalfWritten;
    assert SlotInv(SlotOf(st, key), st.objects);
    if e.key == key {
      EffectTears(SlotOf(st, key), st.objects, e);
    }
  }

  /** With records written atomically and no exception in the exposed window, the pending
      record is the commit point without exception: after any run in which the key's
      process is not in the middle of writing a record, whatever digest is committed is
      the one that the next recovery publishes. */
  lemma PendingRecordCommits(events: seq<Event>, key: Key, d: Digest, inputs: nat -> Input, sizes: Sizes)
    requires Possible(EMPTY_STORE, events) && Host(inputs, sizes)
    requires NeverTorn(EMPTY_STORE, events, key) && NeverExposed(EMPTY_STORE, events, key)
    requires var s := SlotOf(Run(EMPTY_STORE, events), key); !HalfWritten(s.pc) && Committed(s, d)
    ensures var st := Run(EMPTY_STORE, events);
            var s := SlotOf(st, key).(pc := RecoverWait);
            && ObjectsInv(st.objects) && SlotInv(s, st.objects)
            && var (s', objects') := Recover(s, st.objects, inputs, 0);
            s'.locator == Some(Record(d, 1)) && s'.pending.None? && Sealed(objects', d)
  {
    EmptyStoreIsFine(key);
    var st := Run(EMPTY_STORE, events);
    var s := SlotOf(st, key);
    TornIsExact(EMPTY_STORE, events, key);
    assert !Blocked(s);
    hide *;
    RunKeepsStore(EMPTY_STORE, events);
    RunKeepsTree(EMPTY_STORE, events, key, d);
    KeptIsBacked(s, st.objects, d);
    StoreRecovers(st, key, d, inputs, sizes);
  }

  // -------------------------------------------------------------------- readers

  /** resolve_seed: read the locator, then check its object strictly. */
  function Resolve(st: Store, key: Key): Option<Manifest> {
    var s := SlotOf(st, key);
    if !Readable(s.locator) || s.locator.value.digest !in st.objects then None
    else Validate(st.objects[s.locator.value.digest], s.locator.value.digest, false)
  }

  /** Over every run, a reader succeeds exactly when the locator is there with
      one link; it never meets a missing, altered or unsealed object. */
  lemma ResolveIsExact(events: seq<Event>, key: Key)
    requires Possible(EMPTY_STORE, events)
    ensures var st := Run(EMPTY_STORE, events);
            var locator := SlotOf(st, key).locator;
            && (Resolve(st, key).Some? <==> locator.Some? && locator.value.links == 1)
            && (Resolve(st, key).Some? ==> Resolve(st, key).value.contentDigest == locator.value.digest)
  {
    RunKeepsStore(EMPTY_STORE, events);
  }
}
