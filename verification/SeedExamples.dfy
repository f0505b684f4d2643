/** Runs of the seed store from the empty store in which recovery refuses or loses what
    was committed (scripts/cold_cache_authority.py). */
module SeedExamples {
  import opened Base
  import opened SeedTree
  import opened SeedObject
  import opened SeedProtocol
  import opened SeedStore

  // ------------------------------------------------------------------- two runs

  ghost predicate Reaches(events: seq<Event>, st: Store) {
    Possible(EMPTY_STORE, events) && Run(EMPTY_STORE, events) == st
  }

  lemma {:induction false} RunSplits(st: Store, a: seq<Event>, b: seq<Event>)
    requires Possible(st, a) && Possible(Run(st, a), b)
    ensures Possible(st, a + b) && Run(st, a + b) == Run(Run(st, a), b)
    decreases a
  {
    hide Enabled, Apply;
    if a == [] {
      assert a + b == b;
    } else {
      assert (a + b)[0] == a[0] && (a + b)[1..] == a[1..] + b;
      RunSplits(Apply(st, a[0]), a[1..], b);
    }
  }

  lemma Extend(events: seq<Event>, st: Store, e: Event)
    requires Reaches(events, st) && Enabled(st, e)
    ensures Reaches(events + [e], Apply(st, e))
  {
    hide Enabled, Apply;
    assert [e][1..] == [];
    RunSplits(EMPTY_STORE, events, [e]);
  }

  /** A store in which one key has been used and no object is in place. */
  function OneKey(key: Key, s: Slot): Store {
    Store(map[key := s], map[], if Holding(s.pc) then Some(key) else None)
  }

  const GO := Input(Proceed, "", Symlink, (n: Node) => 0)

  /** The owner of the only key takes a step that touches no object. */
  lemma OneKeyStep(events: seq<Event>, key: Key, s: Slot, s': Slot)
    requires Reaches(events, OneKey(key, s)) && Step(s, map[], GO) == (s', map[])
    ensures Reaches(events + [Advance(key, GO)], OneKey(key, s'))
  {
    hide Step, Reaches;
    Extend(events, OneKey(key, s), Advance(key, GO));
    assert map[key := s][key := s'] == map[key := s'];
  }

  /** An empty candidate can be prepared. */
  lemma EmptyPrepares()
    ensures Prepare(Dir(O700, [])).Some?
    ensures Prepare(Dir(O700, [])).value.0.Dir?
  {
  }

  function SealedEmpty(): Node {
    EmptyPrepares();
    Prepare(Dir(O700, [])).value.0
  }

  function EmptyDigest(): Digest {
    EmptyPrepares();
    Prepare(Dir(O700, [])).value.1.contentDigest
  }

  /** The key's owner right after it linked the pending record of an empty seed. */
  function Linked(): Slot {
    Slot(map["" := SealedEmpty()], Some(Record(EmptyDigest(), 2)), None, PublishUnlinkPending("", EmptyDigest()))
  }

  function Steps(key: Key, n: nat): seq<Event> {
    if n == 0 then [] else Steps(key, n - 1) + [Advance(key, GO)]
  }

  lemma FirstStep(key: Key)
    ensures Reaches(Steps(key, 1), OneKey(key, Slot(map[], None, None, RecoverWait)))
  {
    hide RecoverStep, PublishStep;
    assert Reaches([], EMPTY_STORE);
    Extend([], EMPTY_STORE, Advance(key, GO));
    assert Apply(EMPTY_STORE, Advance(key, GO)) == OneKey(key, Slot(map[], None, None, RecoverWait));
    assert Steps(key, 1) == [] + [Advance(key, GO)];
  }

  lemma RecoveredIsReached(key: Key)
    ensures Reaches(Steps(key, 5), OneKey(key, Slot(map[], None, None, Recovered)))
  {
    hide Reaches, PublishStep, OneKey;
    var first := Slot(map[], None, None, RecoverWait);
    FirstStep(key);
    OneKeyStep(Steps(key, 1), key, first, first.(pc := RecoverReadLocator));
    OneKeyStep(Steps(key, 2), key, first.(pc := RecoverReadLocator), first.(pc := RecoverReadPending));
    OneKeyStep(Steps(key, 3), key, first.(pc := RecoverReadPending), first.(pc := Sweep(Nothing)));
    OneKeyStep(Steps(key, 4), key, first.(pc := Sweep(Nothing)), first.(pc := Recovered));
  }

  lemma PrimingIsReached(key: Key)
    ensures Reaches(Steps(key, 6), OneKey(key, Slot(map["" := Dir(O700, [])], None, None, Priming(""))))
  {
    RecoveredIsReached(key);
    hide Reaches;
    OneKeyStep(Steps(key, 5), key, Slot(map[], None, None, Recovered),
               Slot(map["" := Dir(O700, [])], None, None, Priming("")));
  }

  lemma PreparedIsReached(key: Key)
    ensures Reaches(Steps(key, 9),
              OneKey(key, Slot(map["" := SealedEmpty()], None, None, PublishReadLocator("", EmptyDigest()))))
  {
    PrimingIsReached(key);
    EmptyPrepares();
    hide Reaches, Prepare;
    var root := Dir(O700, []);
    var s := Slot(map["" := root], None, None, Priming(""));
    OneKeyStep(Steps(key, 6), key, s, s.(pc := PublishWait("")));
    OneKeyStep(Steps(key, 7), key, s.(pc := PublishWait("")), s.(pc := Preparing("")));
    var s' := Slot(map["" := SealedEmpty()], None, None, PublishReadLocator("", EmptyDigest()));
    assert map["" := root]["" := SealedEmpty()] == map["" := SealedEmpty()];
    OneKeyStep(Steps(key, 8), key, s.(pc := Preparing("")), s');
  }

  lemma LinkedIsReached(key: Key)
    ensures Reaches(Steps(key, 12), OneKey(key, Linked()))
  {
    PreparedIsReached(key);
    hide Reaches, SealedEmpty, EmptyDigest;
    var d := EmptyDigest();
    var s := Slot(map["" := SealedEmpty()], None, None, PublishReadLocator("", d));
    OneKeyStep(Steps(key, 9), key, s, s.(pc := PublishReadPending("", d)));
    OneKeyStep(Steps(key, 10), key, s.(pc := PublishReadPending("", d)), s.(pc := PublishLinkPending("", d)));
    OneKeyStep(Steps(key, 11), key, s.(pc := PublishLinkPending("", d)), Linked());
  }

  /** A run in which the key is blocked: its owner dies between linking the pending
      record and unlinking its temporary name, and recovery refuses. */
  lemma BlockedKeyExample(key: Key, inputs: nat -> Input, sizes: Sizes)
    requires Host(inputs, sizes)
    ensures Possible(EMPTY_STORE, Steps(key, 12) + [Crash(key)])
    ensures var st := Run(EMPTY_STORE, Steps(key, 12) + [Crash(key)]);
            var s := SlotOf(st, key).(pc := RecoverWait);
            && ObjectsInv(st.objects) && SlotInv(s, st.objects)
            && Recover(s, st.objects, inputs, 0).0.pc == Done(Refused)
  {
    DeadIsReached(key);
    var events := Steps(key, 12) + [Crash(key)];
    RunKeepsStore(EMPTY_STORE, events);
    var st := Run(EMPTY_STORE, events);
    assert st == OneKey(key, Linked().(pc := Idle));
    hide Run, Possible, Steps, EmptyDigest, SealedEmpty, Recover, Stuck, Backed, Validate;
    assert SlotInv(SlotOf(st, key), st.objects);
    RecoveryIsExact(Linked().(pc := RecoverWait), st.objects, inputs, sizes);
  }

  lemma DeadIsReached(key: Key)
    ensures Reaches(Steps(key, 12) + [Crash(key)], OneKey(key, Linked().(pc := Idle)))
  {
    LinkedIsReached(key);
    hide Reaches, Steps, SealedEmpty, EmptyDigest;
    Extend(Steps(key, 12), OneKey(key, Linked()), Crash(key));
    assert Apply(OneKey(key, Linked()), Crash(key)).slots == map[key := Linked().(pc := Idle)];
  }

  /** The key's slot after an exception has removed the candidate of its pending record. */
  function Lost(): Slot {
    Slot(map[], Some(Record(EmptyDigest(), 1)), None, Done(Refused))
  }

  lemma SealedEmptyIsDeletable()
    ensures Deletable(SealedEmpty(), GO.sizes)
  {
    EmptyPrepares();
    assert Normalize([], "") == Some([]);
    var e := Entry(SEED_MANIFEST, File(O400, 1, ManifestText(Prepare(Dir(O700, [])).value.1)));
    assert Insert([], e) == [e] + [] == [e];
    assert SealChildren([e]) == [Entry(SEED_MANIFEST, ChmodNode(e.node, O500, O500, O400))] + SealChildren([e][1..]);
    assert SealedEmpty().entries[1..] == [];
  }

  lemma LostIsReached(key: Key)
    ensures Reaches(Steps(key, 12) + [Raise(key)] + [Advance(key, GO)], OneKey(key, Lost()))
  {
    LinkedIsReached(key);
    SealedEmptyIsDeletable();
    hide Deletable, Reaches, Steps, SealedEmpty, EmptyDigest;
    Extend(Steps(key, 12), OneKey(key, Linked()), Raise(key));
    var s := Slot(map["" := SealedEmpty()], Some(Record(EmptyDigest(), 1)), None, Failing(""));
    assert Apply(OneKey(key, Linked()), Raise(key)).slots == map[key := s];
    assert Apply(OneKey(key, Linked()), Raise(key)) == OneKey(key, s);
    assert s.candidates - {""} == map[];
    OneKeyStep(Steps(key, 12) + [Raise(key)], key, s, Lost());
  }

  /** A run in which a commitment is lost: an exception right after the pending record
      is linked removes the candidate, the record stays, and recovery then drops it
      and answers nothing. */
  lemma LostCommitmentExample(key: Key, inputs: nat -> Input, sizes: Sizes)
    requires Host(inputs, sizes)
    ensures Possible(EMPTY_STORE, Steps(key, 12) + [Raise(key)] + [Advance(key, GO)])
    ensures var st := Run(EMPTY_STORE, Steps(key, 12) + [Raise(key)] + [Advance(key, GO)]);
            var s := SlotOf(st, key).(pc := RecoverWait);
            && Committed(s, EmptyDigest()) && !Blocked(s)
            && ObjectsInv(st.objects) && SlotInv(s, st.objects)
            && var s' := Recover(s, st.objects, inputs, 0).0;
            s'.pc == Recovered && s'.pending.None? && s'.locator.None?
  {
    LostIsReached(key);
    var events := Steps(key, 12) + [Raise(key)] + [Advance(key, GO)];
    RunKeepsStore(EMPTY_STORE, events);
    var st := Run(EMPTY_STORE, events);
    assert st == OneKey(key, Lost()) && SlotOf(st, key) == Lost();
    assert SlotInv(SlotOf(st, key), st.objects);
    assert st.objects == map[];
    LostIsUnbacked(sizes);
    hide *;
    RecoveryIsExact(Lost().(pc := RecoverWait), st.objects, inputs, sizes);
  }

  lemma LostIsUnbacked(sizes: Sizes)
    ensures var s := Lost().(pc := RecoverWait);
            && !Blocked(s) && (forall d :: Committed(s, d) <==> d == EmptyDigest())
            && !Backed(s, map[], EmptyDigest()) && !Stuck(s, map[], sizes)
  {
  }

  /** A candidate in which the priming build has left a named pipe. */
  const PIPED := Dir(O700, [Entry("pipe", Special)])

  function Piped(key: Key): seq<Event> {
    Steps(key, 6) + [Advance(key, Input(Change, "", PIPED, (n: Node) => 0))] + [Crash(key)]
  }

  lemma PipedIsReached(key: Key)
    ensures Reaches(Piped(key), OneKey(key, Slot(map["" := PIPED], None, None, Idle)))
  {
    PrimingIsReached(key);
    hide Reaches, Steps;
    var s := Slot(map["" := Dir(O700, [])], None, None, Priming(""));
    var s' := Slot(map["" := PIPED], None, None, Priming(""));
    var e := Advance(key, Input(Change, "", PIPED, (n: Node) => 0));
    assert s.candidates["" := PIPED] == s'.candidates;
    assert Step(s, map[], e.input) == (s', map[]);
    Extend(Steps(key, 6), OneKey(key, s), e);
    assert Apply(OneKey(key, s), e).slots == map[key := s'];
    Extend(Steps(key, 6) + [e], OneKey(key, s'), Crash(key));
    assert Apply(OneKey(key, s'), Crash(key)).slots == map[key := s'.(pc := Idle)];
  }

  /** A run in which the key is stuck: the owner dies while the priming build has a named
      pipe in the candidate. No record has two names, yet recovery refuses and leaves the
      pipe there for the next one. */
  lemma StuckKeyExample(key: Key, inputs: nat -> Input, sizes: Sizes)
    requires Host(inputs, sizes)
    ensures Possible(EMPTY_STORE, Piped(key))
    ensures var st := Run(EMPTY_STORE, Piped(key));
            var s := SlotOf(st, key).(pc := RecoverWait);
            && !Blocked(s) && ObjectsInv(st.objects) && SlotInv(s, st.objects)
            && var s' := Recover(s, st.objects, inputs, 0).0;
            s'.pc == Done(Refused) && HoldsSpecial(s'.candidates)
  {
    PipedIsReached(key);
    RunKeepsStore(EMPTY_STORE, Piped(key));
    var st := Run(EMPTY_STORE, Piped(key));
    var s := Slot(map["" := PIPED], None, None, RecoverWait);
    assert SlotInv(SlotOf(st, key), st.objects);
    assert st == OneKey(key, s.(pc := Idle));
    assert HasSpecial(s.candidates[""]);
    assert HoldsSpecial(s.candidates);
    hide Run, Possible, Piped, Recover, Validate, HoldsSpecial;
    SpecialIsForEver(s, st.objects, inputs, sizes);
  }
}
