/** publish_seed run to its end, from whatever records and objects it meets
    (scripts/cold_cache_authority.py). */
module SeedPublish {
  import opened Base
  import opened SeedTree
  import opened SeedObject
  import opened SeedProtocol

  /** The candidate as publish_seed prepares it, with its manifest. */
  function Prepared(s: Slot, name: Name): Option<(Node, Manifest)> {
    if name in s.candidates && s.candidates[name].Dir? && s.candidates[name].mode == O700
    then Prepare(s.candidates[name]) else None
  }

  /** A record that is missing, or is whole and names the digest. */
  predicate Allows(r: Option<Record>, d: Digest) {
    r.None? || r.value == Record(d, 1)
  }

  /** What is there already agrees with publishing the digest. */
  predicate Agrees(s: Slot, objects: Objects, d: Digest) {
    && Allows(s.locator, d) && Allows(s.pending, d)
    && (s.locator.Some? ==> Sealed(objects, d))
    && (d in objects ==> Valid(objects, d))
  }

  /** The tree is there already, so that the candidate is only to be deleted. */
  predicate Redundant(s: Slot, objects: Objects, d: Digest) {
    s.locator.Some? || d in objects
  }

  /** The priming build may leave any tree in the candidate, and preparing any private one on
      its way; whoever dies then leaves it there. */
  lemma CandidateCanChange(s: Slot, objects: Objects, name: Name, node: Node, sizes: Sizes)
    requires name in s.candidates && node.Dir?
    requires s.pc == Priming(name) ||
      (s.pc == Preparing(name) && s.candidates[name].Dir? && s.candidates[name].mode == O700 && node.mode == O700)
    ensures PublishStep(s, objects, Input(Change, "", node, sizes)) ==
      (s.(candidates := s.candidates[name := node]), objects)
  {
    hide Prepare;
  }

  /** The publication has prepared its candidate and is not yet at its end. */
  predicate Publishing(pc: Pc) {
    InPublication(pc) && !pc.Priming? && !pc.PublishWait? && !pc.Preparing? && !pc.Discarding?
  }

  /** How many program points a publication still has before it. */
  function PublishRank(pc: Pc): nat {
    match pc
    case PublishReadLocator(_, _) => 13
    case PublishCheckExisting(_, _) => 6
    case PublishDropDuplicate(_, _) => 5
    case PublishReadStale(_) => 2
    case PublishDropStale(_) => 1
    case PublishReadPending(_, _) => 12
    case PublishLinkPending(_, _) => 11
    case PublishUnlinkPending(_, _) => 10
    case PublishSearch(_, _) => 9
    case PublishRename(_, _) => 8
    case PublishCheckObject(_, _) => 7
    case PublishLinkLocator(_, _) => 6
    case PublishUnlinkLocator(_, _) => 5
    case PublishDropPending(_, _) => 4
    case PublishDropOwn(_, _) => 3
    case Failing(_) => 2
    case _ => 0
  }

  /** The candidate that the publication still has under its own name. */
  function OwnName(pc: Pc): Option<Name> {
    match pc
    case PublishReadLocator(name, _) => Some(name)
    case PublishCheckExisting(name, _) => Some(name)
    case PublishDropDuplicate(name, _) => Some(name)
    case PublishReadPending(name, _) => Some(name)
    case PublishLinkPending(name, _) => Some(name)
    case PublishUnlinkPending(name, _) => Some(name)
    case PublishSearch(name, _) => Some(name)
    case PublishRename(name, _) => Some(name)
    case PublishCheckObject(own, _) => own
    case PublishLinkLocator(own, _) => own
    case PublishUnlinkLocator(own, _) => own
    case PublishDropPending(own, _) => own
    case PublishDropOwn(own, _) => own
    case Failing(name) => Some(name)
    case _ => None
  }

  /** The entries of its own candidate that the publication may still have to delete. */
  function OwnWeight(s: Slot): nat {
    var own := OwnName(s.pc);
    if own.Some? && own.value in s.candidates then Weight(s.candidates[own.value]) else 0
  }

  predicate CanDrop(s: Slot, own: Option<Name>, sizes: Sizes) {
    own.Some? && own.value in s.candidates ==> Deletable(s.candidates[own.value], sizes)
  }

  /** Nothing has changed but what the name stands for. */
  ghost predicate Same<K(!new), V>(m': map<K, V>, m: map<K, V>, name: K) {
    forall x :: x != name ==> (x in m' <==> x in m) && (x in m ==> m'[x] == m[x])
  }

  predicate Below(s': Slot, s: Slot, name: Name) {
    name in s'.candidates && name in s.candidates && Weight(s'.candidates[name]) < Weight(s.candidates[name])
  }

  /** Dropping the own candidate ends, or leaves less of it. */
  lemma DropDecreases(s: Slot, name: Name, input: Input, done: Pc, stopped: Pc)
    ensures var s' := DropOwn(s, name, input, done, stopped);
            && (s'.pc == done || s'.pc == stopped || (s'.pc == s.pc && Below(s', s, name)))
            && s'.locator == s.locator && s'.pending == s.pending
            && (CanDrop(s, Some(name), input.sizes) ==>
                  || (s'.pc == done && name !in s'.candidates)
                  || (s'.pc == s.pc && CanDrop(s', Some(name), input.sizes)))
            && (!CanDrop(s, Some(name), input.sizes) ==> s'.pc == stopped)
  {
    hide Deletable, Weight, Leftover, HasSpecial, Removable, EntriesWeight;
    if name in s.candidates && Deletable(s.candidates[name], input.sizes) {
      if input.act == Change && input.node.Dir? && Weight(input.node) < Weight(s.candidates[name]) {
      }
    }
  }

  lemma DropKeepsOthers(s: Slot, name: Name, input: Input, done: Pc, stopped: Pc)
    ensures Same(DropOwn(s, name, input, done, stopped).candidates, s.candidates, name)
  {
    hide Deletable, Weight, Leftover, HasSpecial, Removable, EntriesWeight;
    if name in s.candidates && Deletable(s.candidates[name], input.sizes) {
      if input.act == Change && input.node.Dir? && Weight(input.node) < Weight(s.candidates[name]) {
      }
    }
  }

  predicate Drops(pc: Pc) {
    pc.PublishDropDuplicate? || (pc.PublishDropOwn? && pc.own.Some?) || pc.Failing?
  }

  lemma PublishStepDecreases(s: Slot, objects: Objects, input: Input)
    requires Publishing(s.pc)
    ensures var s' := PublishStep(s, objects, input).0;
            && (Publishing(s'.pc) || s'.pc.Done?)
            && (PublishRank(s'.pc) < PublishRank(s.pc) || (s'.pc == s.pc && OwnWeight(s') < OwnWeight(s)))
  {
    hide Validate, Prepare, Deletable, Weight, DropOwn, Valid, Sealed, SealObject, CanDrop;
    if Drops(s.pc) {
      var name := OwnName(s.pc).value;
      DropDecreases(s, name, input, Done(Refused), Done(Refused));
      if !s.pc.Failing? {
        var done := if s.pc.PublishDropOwn? then Done(Found(s.pc.d)) else PublishReadStale(s.pc.d);
        DropDecreases(s, name, input, done, Failing(name));
      }
    } else {
      PlainStepDecreases(s, objects, input);
    }
  }

  lemma PlainStepDecreases(s: Slot, objects: Objects, input: Input)
    requires Publishing(s.pc) && !Drops(s.pc)
    ensures var s' := PublishStep(s, objects, input).0;
            (Publishing(s'.pc) || s'.pc.Done?) && PublishRank(s'.pc) < PublishRank(s.pc)
  {
    hide Validate, Prepare, Deletable, Weight, DropOwn, Valid, Sealed, SealObject;
  }

  /** A publication with a prepared candidate run to its end, the partial states of its
      deletions chosen by `inputs`. */
  ghost function Publish(s: Slot, objects: Objects, inputs: nat -> Input, i: nat): (Slot, Objects)
    decreases PublishRank(s.pc), OwnWeight(s)
  {
    if !Publishing(s.pc) then (s, objects)
    else
      var (s', objects') := PublishStep(s, objects, inputs(i));
      PublishStepDecreases(s, objects, inputs(i));
      Publish(s', objects', inputs, i + 1)
  }

  // ----------------------------------------------- what each program point leads to

  /** How a publication ends: its outcome, and the records and objects it leaves. */
  datatype Ending = Ending(outcome: Outcome, locator: Option<Record>, pending: Option<Record>, objects: Objects)

  function Refusing(s: Slot, objects: Objects): Ending {
    Ending(Refused, s.locator, s.pending, objects)
  }

  /** The locator is written; the deletion after it may still refuse. */
  function Ended(s: Slot, objects: Objects, own: Option<Name>, d: Digest, sizes: Sizes): Ending {
    Ending(if CanDrop(s, own, sizes) then Found(d) else Refused, Some(Record(d, 1)), None, objects)
  }

  function FromObject(s: Slot, objects: Objects, own: Option<Name>, d: Digest, sizes: Sizes): Ending {
    if Valid(objects, d) && Allows(s.locator, d) then Ended(s, SealObject(objects, d), own, d, sizes)
    else Ending(Refused, s.locator, Some(Record(d, 1)), if Valid(objects, d) then SealObject(objects, d) else objects)
  }

  function FromSearch(s: Slot, objects: Objects, name: Name, d: Digest, sizes: Sizes): Ending {
    if d in objects then FromObject(s, objects, Some(name), d, sizes)
    else if name !in s.candidates then Ending(Refused, s.locator, Some(Record(d, 1)), objects)
    else FromObject(s, objects[d := s.candidates[name]], None, d, sizes)
  }

  function FromStale(s: Slot, objects: Objects, d: Digest): Ending {
    if Allows(s.pending, d) then Ending(Found(d), s.locator, None, objects) else Refusing(s, objects)
  }

  function FromDuplicate(s: Slot, objects: Objects, name: Name, d: Digest, sizes: Sizes): Ending {
    if CanDrop(s, Some(name), sizes) then FromStale(s, objects, d) else Refusing(s, objects)
  }

  function FromPending(s: Slot, objects: Objects, name: Name, d: Digest, sizes: Sizes): Ending {
    if Allows(s.pending, d) then FromSearch(s, objects, name, d, sizes) else Refusing(s, objects)
  }

  function Promised(s: Slot, objects: Objects, sizes: Sizes): Ending
    requires Publishing(s.pc) || s.pc.Done?
  {
    match s.pc
    case PublishReadLocator(name, d) =>
      if s.locator.None? then FromPending(s, objects, name, d, sizes)
      else if Allows(s.locator, d) && Sealed(objects, d) then FromDuplicate(s, objects, name, d, sizes)
      else Refusing(s, objects)
    case PublishCheckExisting(name, d) =>
      if Sealed(objects, d) then FromDuplicate(s, objects, name, d, sizes) else Refusing(s, objects)
    case PublishDropDuplicate(name, d) => FromDuplicate(s, objects, name, d, sizes)
    case PublishReadStale(d) => FromStale(s, objects, d)
    case PublishDropStale(d) => Ending(Found(d), s.locator, None, objects)
    case PublishReadPending(name, d) => FromPending(s, objects, name, d, sizes)
    case PublishLinkPending(name, d) => FromPending(s, objects, name, d, sizes)
    case PublishUnlinkPending(name, d) => FromSearch(s, objects, name, d, sizes)
    case PublishSearch(name, d) => FromSearch(s, objects, name, d, sizes)
    case PublishRename(name, d) => FromSearch(s, objects, name, d, sizes)
    case PublishCheckObject(own, d) => FromObject(s, objects, own, d, sizes)
    case PublishLinkLocator(own, d) =>
      if Allows(s.locator, d) then Ended(s, objects, own, d, sizes) else Refusing(s, objects)
    case PublishUnlinkLocator(own, d) => Ended(s, objects, own, d, sizes)
    case PublishDropPending(own, d) => Ended(s, objects, own, d, sizes)
    case PublishDropOwn(own, d) => Ended(s, objects, own, d, sizes)
    case Done(outcome) => Ending(outcome, s.locator, s.pending, objects)
    case _ => Refusing(s, objects)
  }

  /** The records as the program point has left them. */
  predicate Recorded(s: Slot) {
    match s.pc
    case PublishSearch(_, d) => s.pending == Some(Record(d, 1))
    case PublishRename(_, d) => s.pending == Some(Record(d, 1))
    case PublishCheckObject(_, d) => s.pending == Some(Record(d, 1))
    case PublishLinkLocator(_, d) => s.pending == Some(Record(d, 1))
    case PublishDropPending(_, d) => s.locator == Some(Record(d, 1))
    case PublishDropOwn(_, d) => s.locator == Some(Record(d, 1)) && s.pending.None?
    case _ => true
  }

  /** The publication has its own candidate under `name`, or it is gone, or it gave up. */
  predicate Owns(s: Slot, name: Name) {
    OwnName(s.pc) == Some(name) || (OwnName(s.pc).None? && name !in s.candidates) || s.pc == Done(Refused)
  }

  /** What one step keeps of what a publication is going to leave. */
  ghost predicate Continues(s: Slot, objects: Objects, s': Slot, objects': Objects, name: Name, sizes: Sizes)
    requires Publishing(s.pc)
  {
    && (Publishing(s'.pc) || s'.pc.Done?)
    && Recorded(s') && Owns(s', name)
    && Promised(s', objects', sizes) == Promised(s, objects, sizes)
    && Same(s'.candidates, s.candidates, name)
  }

  lemma DropKeepsPromise(s: Slot, objects: Objects, input: Input, name: Name)
    requires Publishing(s.pc) && Recorded(s) && Owns(s, name) && Drops(s.pc)
    ensures var (s', objects') := PublishStep(s, objects, input);
            Continues(s, objects, s', objects', name, input.sizes)
  {
    hide Validate, Prepare, Deletable, DropOwn, Valid, Sealed, CanDrop;
    if s.pc.Failing? {
      DropDecreases(s, name, input, Done(Refused), Done(Refused));
      DropKeepsOthers(s, name, input, Done(Refused), Done(Refused));
    } else {
      var done := if s.pc.PublishDropOwn? then Done(Found(s.pc.d)) else PublishReadStale(s.pc.d);
      DropDecreases(s, name, input, done, Failing(name));
      DropKeepsOthers(s, name, input, done, Failing(name));
    }
  }

  lemma ObjectKeepsPromise(s: Slot, objects: Objects, input: Input, name: Name)
    requires Publishing(s.pc) && Recorded(s) && Owns(s, name) && s.pc.PublishCheckObject?
    ensures var (s', objects') := PublishStep(s, objects, input);
            Continues(s, objects, s', objects', name, input.sizes)
  {
    hide Validate, Prepare, Deletable, DropOwn, Sealed, FromDuplicate, FromPending, FromStale, FromSearch;
  }

  lemma SearchKeepsPromise(s: Slot, objects: Objects, input: Input, name: Name)
    requires Publishing(s.pc) && Recorded(s) && Owns(s, name) && (s.pc.PublishSearch? || s.pc.PublishRename?)
    ensures var (s', objects') := PublishStep(s, objects, input);
            Continues(s, objects, s', objects', name, input.sizes)
  {
    hide Validate, Prepare, Deletable, DropOwn, Sealed, FromDuplicate, FromPending, FromStale;
  }

  /** Before the search for the object. */
  predicate Early(pc: Pc) {
    pc.PublishReadLocator? || pc.PublishReadPending? || pc.PublishLinkPending? || pc.PublishUnlinkPending?
  }

  lemma StartKeepsPromise(s: Slot, objects: Objects, input: Input, name: Name)
    requires Publishing(s.pc) && Recorded(s) && Owns(s, name) && s.pc.PublishReadLocator?
    ensures var (s', objects') := PublishStep(s, objects, input);
            Continues(s, objects, s', objects', name, input.sizes)
  {
    hide Validate, Prepare, Deletable, DropOwn, Valid, Sealed, SealObject;
  }

  lemma PendingKeepsPromise(s: Slot, objects: Objects, input: Input, name: Name)
    requires Publishing(s.pc) && Recorded(s) && Owns(s, name) && Early(s.pc) && !s.pc.PublishReadLocator?
    ensures var (s', objects') := PublishStep(s, objects, input);
            Continues(s, objects, s', objects', name, input.sizes)
  {
    hide Validate, Prepare, Deletable, DropOwn, Valid, Sealed, SealObject, FromDuplicate, FromStale;
  }

  /** Where there was a locator already. */
  predicate Duplicate(pc: Pc) {
    pc.PublishCheckExisting? || pc.PublishReadStale? || pc.PublishDropStale?
  }

  lemma DuplicateKeepsPromise(s: Slot, objects: Objects, input: Input, name: Name)
    requires Publishing(s.pc) && Recorded(s) && Owns(s, name) && Duplicate(s.pc)
    ensures var (s', objects') := PublishStep(s, objects, input);
            Continues(s, objects, s', objects', name, input.sizes)
  {
    hide Validate, Prepare, Deletable, DropOwn, Valid, Sealed, SealObject, FromSearch, FromObject, FromPending, Ended;
  }

  /** From the check of the object on. */
  predicate Late(pc: Pc) {
    pc.PublishLinkLocator? || pc.PublishUnlinkLocator? || pc.PublishDropPending? || (pc.PublishDropOwn? && pc.own.None?)
  }

  lemma LinkKeepsPromise(s: Slot, objects: Objects, input: Input, name: Name)
    requires Publishing(s.pc) && Recorded(s) && Owns(s, name) && s.pc.PublishLinkLocator?
    ensures var (s', objects') := PublishStep(s, objects, input);
            Continues(s, objects, s', objects', name, input.sizes)
  {
    hide Validate, Prepare, Deletable, DropOwn, Valid, Sealed, SealObject, FromSearch, FromObject, FromPending;
    hide FromDuplicate, FromStale, Weight, Leftover;
  }

  lemma LateKeepsPromise(s: Slot, objects: Objects, input: Input, name: Name)
    requires Publishing(s.pc) && Recorded(s) && Owns(s, name) && Late(s.pc) && !s.pc.PublishLinkLocator?
    ensures var (s', objects') := PublishStep(s, objects, input);
            Continues(s, objects, s', objects', name, input.sizes)
  {
    hide Validate, Prepare, Deletable, DropOwn, Valid, Sealed, SealObject, FromSearch, FromObject, FromPending;
    hide FromDuplicate, FromStale;
  }

  lemma PublishStepKeepsPromise(s: Slot, objects: Objects, input: Input, name: Name)
    requires Publishing(s.pc) && Recorded(s) && Owns(s, name)
    ensures var (s', objects') := PublishStep(s, objects, input);
            Continues(s, objects, s', objects', name, input.sizes)
  {
    hide PublishStep, Continues, Recorded, Owns;
    if s.pc.PublishSearch? || s.pc.PublishRename? {
      SearchKeepsPromise(s, objects, input, name);
    } else if s.pc.PublishCheckObject? {
      ObjectKeepsPromise(s, objects, input, name);
    } else if Drops(s.pc) {
      DropKeepsPromise(s, objects, input, name);
    } else if s.pc.PublishReadLocator? {
      StartKeepsPromise(s, objects, input, name);
    } else if Early(s.pc) {
      PendingKeepsPromise(s, objects, input, name);
    } else if Duplicate(s.pc) {
      DuplicateKeepsPromise(s, objects, input, name);
    } else if s.pc.PublishLinkLocator? {
      LinkKeepsPromise(s, objects, input, name);
    } else {
      LateKeepsPromise(s, objects, input, name);
    }
  }

  lemma {:induction false} PublishKeepsPromise(
    s: Slot, objects: Objects, inputs: nat -> Input, sizes: Sizes, i: nat, name: Name)
    requires Publishing(s.pc) || s.pc.Done?
    requires Recorded(s) && Owns(s, name) && Host(inputs, sizes)
    ensures var (s', objects') := Publish(s, objects, inputs, i);
            && s'.pc.Done? && Owns(s', name)
            && Promised(s', objects', sizes) == Promised(s, objects, sizes)
            && Same(s'.candidates, s.candidates, name)
    decreases PublishRank(s.pc), OwnWeight(s)
  {
    hide PublishStep, Promised, Recorded, Owns, PublishRank, OwnWeight;
    if Publishing(s.pc) {
      var (s', objects') := PublishStep(s, objects, inputs(i));
      PublishStepDecreases(s, objects, inputs(i));
      PublishStepKeepsPromise(s, objects, inputs(i), name);
      PublishKeepsPromise(s', objects', inputs, sizes, i + 1, name);
    }
  }

  /** The candidate is still the publication's own and can be deleted, or it is gone. */
  predicate Tidy(s: Slot, name: Name, sizes: Sizes) {
    name in s.candidates ==> OwnName(s.pc) == Some(name) && Deletable(s.candidates[name], sizes)
  }

  lemma DropIsTidy(s: Slot, objects: Objects, input: Input, name: Name)
    requires Publishing(s.pc) && Tidy(s, name, input.sizes) && Drops(s.pc)
    ensures Tidy(PublishStep(s, objects, input).0, name, input.sizes)
  {
    var own := OwnName(s.pc).value;
    hide Validate, Prepare, Deletable, DropOwn, Valid, Sealed, CanDrop;
    if s.pc.Failing? {
      DropIsClean(s, own, input, Done(Refused), Done(Refused), name);
    } else {
      var done := if s.pc.PublishDropOwn? then Done(Found(s.pc.d)) else PublishReadStale(s.pc.d);
      DropIsClean(s, own, input, done, Failing(own), name);
    }
  }

  lemma DropIsClean(s: Slot, own: Name, input: Input, done: Pc, stopped: Pc, name: Name)
    requires OwnName(s.pc) == Some(own) && Tidy(s, name, input.sizes)
    ensures Tidy(DropOwn(s, own, input, done, stopped), name, input.sizes)
  {
    hide Deletable, Weight, Leftover, HasSpecial, Removable, EntriesWeight;
    if own in s.candidates && Deletable(s.candidates[own], input.sizes) {
      if input.act == Change && input.node.Dir? && Weight(input.node) < Weight(s.candidates[own]) {
      }
    }
  }

  lemma PublishStepIsTidy(s: Slot, objects: Objects, input: Input, name: Name)
    requires Publishing(s.pc) && Tidy(s, name, input.sizes)
    ensures Tidy(PublishStep(s, objects, input).0, name, input.sizes)
  {
    hide PublishStep, Tidy;
    if Drops(s.pc) {
      DropIsTidy(s, objects, input, name);
    } else {
      PlainStepIsTidy(s, objects, input, name);
    }
  }

  lemma PlainStepIsTidy(s: Slot, objects: Objects, input: Input, name: Name)
    requires Publishing(s.pc) && Tidy(s, name, input.sizes) && !Drops(s.pc)
    ensures Tidy(PublishStep(s, objects, input).0, name, input.sizes)
  {
    if Early(s.pc) || s.pc.PublishSearch? || Duplicate(s.pc) {
      SameCandidates(s, objects, input);
      hide PublishStep, Deletable;
    } else {
      LateStepIsTidy(s, objects, input, name);
      hide PublishStep, Deletable;
    }
  }

  lemma SameCandidates(s: Slot, objects: Objects, input: Input)
    requires Early(s.pc) || s.pc.PublishSearch? || Duplicate(s.pc)
    ensures var s' := PublishStep(s, objects, input).0;
            && s'.candidates == s.candidates
            && (s.pc.PublishReadStale? || s.pc.PublishDropStale? || OwnName(s'.pc) == OwnName(s.pc))
  {
    hide Validate, Prepare, Deletable, DropOwn, Valid, Sealed, SealObject;
  }

  lemma LateStepIsTidy(s: Slot, objects: Objects, input: Input, name: Name)
    requires Tidy(s, name, input.sizes) && (Late(s.pc) || s.pc.PublishRename? || s.pc.PublishCheckObject?)
    ensures Tidy(PublishStep(s, objects, input).0, name, input.sizes)
  {
    hide Validate, Prepare, Deletable, DropOwn, Valid, Sealed, SealObject;
  }

  /** A publication removes its candidate, however it ends, if the candidate can be removed. */
  lemma {:induction false} PublishIsTidy(
    s: Slot, objects: Objects, inputs: nat -> Input, sizes: Sizes, i: nat, name: Name)
    requires Tidy(s, name, sizes) && Host(inputs, sizes)
    ensures Tidy(Publish(s, objects, inputs, i).0, name, sizes)
    decreases PublishRank(s.pc), OwnWeight(s)
  {
    hide PublishStep, Tidy, PublishRank, OwnWeight;
    if Publishing(s.pc) {
      var (s', objects') := PublishStep(s, objects, inputs(i));
      PublishStepDecreases(s, objects, inputs(i));
      PublishStepIsTidy(s, objects, inputs(i), name);
      PublishIsTidy(s', objects', inputs, sizes, i + 1, name);
    }
  }

  /** The publication from the opened candidate to its end. */
  ghost function PublishSeed(s: Slot, objects: Objects, inputs: nat -> Input): (Slot, Objects)
    requires s.pc.Preparing?
  {
    var (s', objects') := PublishStep(s, objects, inputs(0));
    Publish(s', objects', inputs, 1)
  }

  /** What the publication of a prepared seed leaves, in terms of what there was before. */
  ghost predicate Explained(
    s: Slot, objects: Objects, s': Slot, objects': Objects, seed: Node, d: Digest, sizes: Sizes)
  {
    && s'.pc == Done(
         if Agrees(s, objects, d) && (Redundant(s, objects, d) ==> Deletable(seed, sizes)) then Found(d) else Refused)
    && (s'.pc == Done(Found(d)) ==> s'.locator == Some(Record(d, 1)) && s'.pending.None? && Sealed(objects', d))
    && (s.locator.Some? ==>
          && s'.locator == s.locator && objects' == objects
          && s'.pending == if s'.pc == Done(Found(d)) then None else s.pending)
    && (s.locator.None? && Agrees(s, objects, d) ==>
          && s'.locator == Some(Record(d, 1)) && s'.pending.None?
          && Sealed(objects', d) && Same(objects', objects, d))
    && (s.locator.None? && !Agrees(s, objects, d) ==>
          && s'.locator.None? && objects' == objects
          && s'.pending == if Allows(s.pending, d) then Some(Record(d, 1)) else s.pending)
  }

  /** The end that the prepared candidate promises, in those terms. */
  lemma PromiseIsExplained(s: Slot, objects: Objects, s': Slot, objects': Objects, name: Name, d: Digest, sizes: Sizes)
    requires s.pc == PublishReadLocator(name, d) && ValidCandidate(s.candidates, name, d)
    requires s'.pc.Done? && Promised(s', objects', sizes) == Promised(s, objects, sizes)
    ensures Explained(s, objects, s', objects', s.candidates[name], d, sizes)
  {
    hide Explained, Promised, Validate;
    if s.locator.Some? {
      LocatedIsExplained(s, objects, s', objects', name, d, sizes);
    } else if d in objects {
      PlacedIsExplained(s, objects, s', objects', name, d, sizes);
    } else {
      FreshIsExplained(s, objects, s', objects', name, d, sizes);
    }
  }

  /** The end where there is a locator already. */
  lemma LocatedIsExplained(s: Slot, objects: Objects, s': Slot, objects': Objects, name: Name, d: Digest, sizes: Sizes)
    requires s.pc == PublishReadLocator(name, d) && name in s.candidates
    requires s'.pc.Done? && Promised(s', objects', sizes) == Promised(s, objects, sizes)
    requires s.locator.Some?
    ensures Explained(s, objects, s', objects', s.candidates[name], d, sizes)
  {
    hide Deletable, FromPending, Validate;
    if Sealed(objects, d) {
      SealedIsValid(objects, d);
    }
  }

  lemma SealedIsValid(objects: Objects, d: Digest)
    requires Sealed(objects, d)
    ensures Valid(objects, d)
  {
  }

  /** The end where the object is in place without a locator of the key. */
  lemma PlacedIsExplained(s: Slot, objects: Objects, s': Slot, objects': Objects, name: Name, d: Digest, sizes: Sizes)
    requires s.pc == PublishReadLocator(name, d) && name in s.candidates
    requires s'.pc.Done? && Promised(s', objects', sizes) == Promised(s, objects, sizes)
    requires s.locator.None? && d in objects
    ensures Explained(s, objects, s', objects', s.candidates[name], d, sizes)
  {
    hide Validate, Deletable, FromDuplicate;
    if Valid(objects, d) {
      SealingObject(objects, d);
    }
  }

  /** The end for a tree that is not there yet. */
  lemma FreshIsExplained(s: Slot, objects: Objects, s': Slot, objects': Objects, name: Name, d: Digest, sizes: Sizes)
    requires s.pc == PublishReadLocator(name, d) && ValidCandidate(s.candidates, name, d)
    requires s'.pc.Done? && Promised(s', objects', sizes) == Promised(s, objects, sizes)
    requires s.locator.None? && d !in objects
    ensures Explained(s, objects, s', objects', s.candidates[name], d, sizes)
  {
    hide Validate, Deletable, FromDuplicate;
    SealingObject(objects[d := s.candidates[name]], d);
  }

  lemma ExplainedIsKept(
    s: Slot, s1: Slot, objects: Objects, s': Slot, objects': Objects, seed: Node, d: Digest, sizes: Sizes)
    requires Explained(s1, objects, s', objects', seed, d, sizes) && s1.locator == s.locator && s1.pending == s.pending
    ensures Explained(s, objects, s', objects', seed, d, sizes)
  {
    hide Valid, Sealed, Deletable, Allows;
  }

  /** Preparing puts the sealed seed, valid under its digest, in the candidate's place. */
  lemma PreparationStep(s: Slot, objects: Objects, input: Input)
    requires s.pc.Preparing? && input.act == Proceed && Prepared(s, s.pc.name).Some?
    ensures var name, (seed, m) := s.pc.name, Prepared(s, s.pc.name).value;
            && PublishStep(s, objects, input) == (
                 s.(candidates := s.candidates[name := seed], pc := PublishReadLocator(name, m.contentDigest)), objects)
            && Validate(seed, m.contentDigest, true).Some?
  {
    hide Validate, Prepare, Deletable;
    PreparedValidates(s.candidates[s.pc.name]);
  }

  lemma UnpreparedStep(s: Slot, objects: Objects, input: Input)
    requires s.pc.Preparing? && input.act == Proceed && Prepared(s, s.pc.name).None?
    ensures PublishStep(s, objects, input) == (s.(pc := Failing(s.pc.name)), objects)
  {
    hide Prepare;
  }

  lemma PreparedIsExact(s: Slot, objects: Objects, inputs: nat -> Input, sizes: Sizes)
    requires s.pc.Preparing? && Host(inputs, sizes) && inputs(0).act == Proceed && Prepared(s, s.pc.name).Some?
    ensures var name, seed := s.pc.name, Prepared(s, s.pc.name).value;
            var (s', objects') := PublishSeed(s, objects, inputs);
            && Same(s'.candidates, s.candidates, name)
            && (s'.pc != Done(Refused) ==> name !in s'.candidates)
            && Explained(s, objects, s', objects', seed.0, seed.1.contentDigest, sizes)
  {
    hide Publish, PublishStep, Promised, Validate, Prepare, Deletable, Sealed, Valid, Agrees, Redundant;
    var name, seed := s.pc.name, Prepared(s, s.pc.name).value;
    var s1 := PublishStep(s, objects, inputs(0)).0;
    PreparationStep(s, objects, inputs(0));
    PublishKeepsPromise(s1, objects, inputs, sizes, 1, name);
    var (s', objects') := PublishSeed(s, objects, inputs);
    PromiseIsExplained(s1, objects, s', objects', name, seed.1.contentDigest, sizes);
    ExplainedIsKept(s, s1, objects, s', objects', seed.0, seed.1.contentDigest, sizes);
  }

  /** Publication, exactly, from whatever records, objects and candidates there are. With
      the candidate prepared in one go the call ends, and
      - it answers with a digest if and only if that is the digest of the prepared tree,
        the records and the object that are there agree with it, and the candidate, where
        the tree was there already, can be deleted;
      - then the locator names the digest, whose object is sealed, the pending record is
        cleared and the candidate is gone;
      - it refuses in every other case. Even so the locator is written, and the pending
        record cleared, if there was no locator, everything agreed and only the candidate
        could not be deleted;
      - a pending record of the digest is left without a locator exactly where the object
        that is in place is not valid; otherwise a refusal leaves the records as they were.
      Other candidates and other objects stay as they are. */
  lemma PublicationIsExact(s: Slot, objects: Objects, inputs: nat -> Input, sizes: Sizes)
    requires s.pc.Preparing? && Host(inputs, sizes) && inputs(0).act == Proceed
    ensures var name, seed := s.pc.name, Prepared(s, s.pc.name);
            var (s', objects') := PublishSeed(s, objects, inputs);
            && Same(s'.candidates, s.candidates, name)
            && (s'.pc != Done(Refused) ==> name !in s'.candidates)
            && (seed.None? ==>
                  && s'.pc == Done(Refused) && objects' == objects
                  && s'.locator == s.locator && s'.pending == s.pending)
            && (seed.Some? ==>
                  Explained(s, objects, s', objects', seed.value.0, seed.value.1.contentDigest, sizes))
  {
    if Prepared(s, s.pc.name).Some? {
      hide *;
      PreparedIsExact(s, objects, inputs, sizes);
    } else {
      hide Publish, PublishStep, Validate, Prepare, Deletable, Explained;
      UnpreparedStep(s, objects, inputs(0));
      PublishKeepsPromise(s.(pc := Failing(s.pc.name)), objects, inputs, sizes, 1, s.pc.name);
    }
  }

  /** However it ends, the call leaves no candidate under its name unless what it had there,
      prepared or not, could not be deleted. */
  lemma PublicationIsTidy(s: Slot, objects: Objects, inputs: nat -> Input, sizes: Sizes)
    requires s.pc.Preparing? && Host(inputs, sizes) && inputs(0).act == Proceed
    requires s.pc.name in s.candidates ==>
      var seed := Prepared(s, s.pc.name);
      Deletable(if seed.Some? then seed.value.0 else s.candidates[s.pc.name], sizes)
    ensures s.pc.name !in PublishSeed(s, objects, inputs).0.candidates
  {
    hide Publish, PublishStep, Validate, Prepare, Deletable;
    var name := s.pc.name;
    if Prepared(s, name).Some? {
      PreparationStep(s, objects, inputs(0));
    } else {
      UnpreparedStep(s, objects, inputs(0));
    }
    var (s1, objects1) := PublishStep(s, objects, inputs(0));
    PublishIsTidy(s1, objects1, inputs, sizes, 1, name);
    PublishEnds(s1, objects1, inputs, 1);
  }

  lemma {:induction false} PublishEnds(s: Slot, objects: Objects, inputs: nat -> Input, i: nat)
    requires Publishing(s.pc) || s.pc.Done?
    ensures Publish(s, objects, inputs, i).0.pc.Done?
    decreases PublishRank(s.pc), OwnWeight(s)
  {
    hide PublishStep, PublishRank, OwnWeight;
    if Publishing(s.pc) {
      var (s', objects') := PublishStep(s, objects, inputs(i));
      PublishStepDecreases(s, objects, inputs(i));
      PublishEnds(s', objects', inputs, i + 1);
    }
  }

  // -------------------------------------------------------------------- exceptions

  /** What an exception does at any program point, exactly: a record that is half written
      gets its one name, nothing else changes, and the process goes on only to remove the
      candidate that it has. */
  lemma ExceptionIsExact(s: Slot)
    requires !s.pc.Idle? && !s.pc.Done?
    ensures var s' := Raised(s);
            && s'.candidates == s.candidates
            && s'.locator == (
                 if s.pc.PublishUnlinkLocator? || s.pc.RecoverUnlinkTemporary? then Some(Record(s.pc.d, 1))
                 else s.locator)
            && s'.pending == (if s.pc.PublishUnlinkPending? then Some(Record(s.pc.d, 1)) else s.pending)
            && (InRecovery(s.pc) || s.pc.Recovered? ==> s'.pc == Done(Refused))
            && (s.pc.Priming? || s.pc.PublishWait? ==> s'.pc == Discarding(s.pc.name))
            && (s.pc.Preparing? ==> s'.pc == Failing(s.pc.name))
            && (Publishing(s.pc) && !s.pc.Failing? ==>
                  s'.pc == if OwnName(s.pc).Some? then Failing(OwnName(s.pc).value) else Done(Refused))
            && (s.pc.Failing? || s.pc.Discarding? ==> s'.pc == Done(Refused))
  {
  }

  /** After an exception in a publication the call refuses, keeps the records as the exception
      left them, and leaves no candidate that it can delete. */
  lemma ExceptionEnds(s: Slot, objects: Objects, inputs: nat -> Input, sizes: Sizes, i: nat)
    requires Publishing(s.pc) && !s.pc.Failing? && Host(inputs, sizes)
    ensures var (s', objects') := Publish(Raised(s), objects, inputs, i);
            && s'.pc == Done(Refused) && objects' == objects
            && s'.locator == Raised(s).locator && s'.pending == Raised(s).pending
            && (forall name :: OwnName(s.pc) == Some(name) && Tidy(s, name, sizes) ==> name !in s'.candidates)
  {
    hide Raised, Publish, Deletable, FromSearch, FromObject, FromPending, FromDuplicate, FromStale, Ended;
    ExceptionIsExact(s);
    var s1 := Raised(s);
    if OwnName(s.pc).Some? {
      var name := OwnName(s.pc).value;
      PublishKeepsPromise(s1, objects, inputs, sizes, i, name);
      if Tidy(s, name, sizes) {
        PublishIsTidy(s1, objects, inputs, sizes, i, name);
      }
    } else {
      NothingLeft(s1, objects, inputs, i);
    }
  }

  lemma NothingLeft(s: Slot, objects: Objects, inputs: nat -> Input, i: nat)
    requires s.pc.Done?
    ensures Publish(s, objects, inputs, i) == (s, objects)
  {
  }

  /** Publication by a key that keeps its promises: whatever can be prepared is published. */
  lemma KeptPublication(s: Slot, objects: Objects, inputs: nat -> Input, sizes: Sizes)
    requires SlotInv(s, objects) && ObjectsInv(objects) && s.pc.Preparing?
    requires Host(inputs, sizes) && inputs(0).act == Proceed
    ensures var (s', objects') := PublishSeed(s, objects, inputs);
            var seed := Prepared(s, s.pc.name);
            && s'.pending.None?
            && (s'.pc == Done(Refused) || s'.candidates == map[])
            && (seed.None? ==> s'.pc == Done(Refused) && s'.locator.None? && objects' == objects)
            && (seed.Some? ==>
                  var d := seed.value.1.contentDigest;
                  && s'.locator == Some(Record(d, 1)) && Sealed(objects', d)
                  && s'.pc == Done(if d in objects ==> Deletable(seed.value.0, sizes) then Found(d) else Refused))
  {
    PublicationIsExact(s, objects, inputs, sizes);
    hide PublishSeed, Prepared, Validate, Valid, Sealed, Deletable;
    var s' := PublishSeed(s, objects, inputs).0;
    assert Own(s, Some(s.pc.name));
    assert forall x :: x in s'.candidates ==> x == s.pc.name;
  }
}
