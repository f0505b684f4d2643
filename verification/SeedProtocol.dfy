/** publish_seed and recover_seed of the cold-cache seed store, for one authority key
    (scripts/cold_cache_authority.py, driven by prepare_cache_seed in
    scripts/cold_multicore_gate.py).

    Every candidate, pending record and locator carries its authority key in its name,
    so what belongs to a key is a slot beside the shared object directory. A process owns
    the key while it holds the key's creation lock; its program counter is part of the
    slot, and at any step it may die or raise. */
module SeedProtocol {
  import opened Base
  import opened SeedTree
  import opened SeedObject

  type Key = string
  type Name = string
  type Digest = ContentDigest

  /** A pending record or a locator. It is linked under its name before the
      temporary name is unlinked, and readers refuse it while both exist. */
  datatype Record = Record(digest: Digest, links: nat)

  datatype Outcome = Found(digest: Digest) | Nothing | Refused

  datatype Pc =
    | Idle
      // recover_seed
    | RecoverWait
    | RecoverReadLocator
    | RecoverCheckLocated(d: Digest)
    | RecoverReadStale(d: Digest)
    | RecoverDropStale(d: Digest)
    | RecoverReadPending
    | RecoverSearch(d: Digest)
    | RecoverAdopt(d: Digest, name: Name)
    | RecoverCheckObject(d: Digest)
    | RecoverLinkLocator(d: Digest)
    | RecoverUnlinkTemporary(d: Digest)
    | RecoverDropPending(d: Digest)
    | RecoverAbandon
    | Sweep(outcome: Outcome)
    | Recovered
      // create_seed_candidate, priming and publish_seed
    | Priming(name: Name)
    | PublishWait(name: Name)
    | Preparing(name: Name)
    | PublishReadLocator(name: Name, d: Digest)
    | PublishCheckExisting(name: Name, d: Digest)
    | PublishDropDuplicate(name: Name, d: Digest)
    | PublishReadStale(d: Digest)
    | PublishDropStale(d: Digest)
    | PublishReadPending(name: Name, d: Digest)
    | PublishLinkPending(name: Name, d: Digest)
    | PublishUnlinkPending(name: Name, d: Digest)
    | PublishSearch(name: Name, d: Digest)
    | PublishRename(name: Name, d: Digest)
    | PublishCheckObject(own: Option<Name>, d: Digest)
    | PublishLinkLocator(own: Option<Name>, d: Digest)
    | PublishUnlinkLocator(own: Option<Name>, d: Digest)
    | PublishDropPending(own: Option<Name>, d: Digest)
    | PublishDropOwn(own: Option<Name>, d: Digest)
    | Failing(name: Name)
    | Discarding(name: Name)
    | Done(outcome: Outcome)

  datatype Slot = Slot(candidates: map<Name, Node>, pending: Option<Record>, locator: Option<Record>, pc: Pc)

  type Objects = map<Digest, Node>

  /** The bytes that lstat adds up to over a tree, directories and links included. */
  type Sizes = Node -> nat

  /** What the scheduler, the priming build, a partial deletion and the host contribute. */
  datatype Input = Input(act: Act, name: Name, node: Node, sizes: Sizes)
  datatype Act = Proceed | Change

  const EMPTY := Slot(map[], None, None, Idle)

  /** The object passes the check that also admits a writable root. */
  predicate Valid(objects: Objects, d: Digest) {
    d in objects && Validate(objects[d], d, true).Some?
  }

  /** The object passes the check that every reader makes. */
  predicate Sealed(objects: Objects, d: Digest) {
    d in objects && Validate(objects[d], d, false).Some?
  }

  predicate ValidCandidate(candidates: map<Name, Node>, name: Name, d: Digest) {
    name in candidates && Validate(candidates[name], d, true).Some?
  }

  /** A present record that readers can open. */
  predicate Readable(r: Option<Record>) {
    r.Some? && r.value.links == 1
  }

  function SealObject(objects: Objects, d: Digest): Objects
    requires Valid(objects, d)
  {
    objects[d := SealRoot(objects[d])]
  }

  /** The number of entries a recursive deletion has to remove. */
  function Weight(n: Node): nat
    decreases n
  {
    if n.Dir? then 1 + EntriesWeight(n.entries) else 1
  }

  function EntriesWeight(es: seq<Entry>): nat
    decreases es
  {
    if es == [] then 0 else Weight(es[0].node) + EntriesWeight(es[1..])
  }

  /** Something in the tree is no directory, file or link. */
  predicate HasSpecial(n: Node) {
    n.Special? || (n.Dir? && !Removable(n.entries))
  }

  /** A recursive deletion stops at a special file and at its entry and byte budgets. */
  predicate Deletable(n: Node, sizes: Sizes) {
    !HasSpecial(n) && Weight(n) <= MAX_ENTRIES && sizes(n) <= MAX_BYTES
  }

  /** What a deletion that stops has left of a tree: less, but never less than what stopped it. */
  function Leftover(n: Node, input: Input): Node {
    if input.act == Change && input.node.Dir? && Weight(input.node) <= Weight(n) &&
      (HasSpecial(n) ==> HasSpecial(input.node))
    then input.node else n
  }

  /** Delete one of the listed candidates, or some of it; or stop at what cannot be deleted. */
  ghost function Discard(s: Slot, input: Input): Slot
    requires s.candidates != map[]
  {
    var name :| name in s.candidates;
    var n := s.candidates[name];
    if !Deletable(n, input.sizes) then
      s.(candidates := s.candidates[name := Leftover(n, input)], pc := Done(Refused))
    else if input.act == Change && input.node.Dir? && Weight(input.node) < Weight(n) &&
      Deletable(input.node, input.sizes) then
      s.(candidates := s.candidates[name := input.node])
    else
      s.(candidates := s.candidates - {name})
  }

  /** Publishing drops its own candidate, or some of it, or stops at what cannot be deleted. */
  function DropOwn(s: Slot, name: Name, input: Input, done: Pc, stopped: Pc): Slot {
    if name !in s.candidates then s.(pc := done)
    else
      var n := s.candidates[name];
      if !Deletable(n, input.sizes) then
        s.(candidates := s.candidates[name := Leftover(n, input)], pc := stopped)
      else if input.act == Change && input.node.Dir? && Weight(input.node) < Weight(n) &&
        Deletable(input.node, input.sizes) then
        s.(candidates := s.candidates[name := input.node])
      else
        s.(candidates := s.candidates - {name}, pc := done)
  }

  /** One step of recover_seed. */
  ghost function RecoverStep(s: Slot, objects: Objects, input: Input): (Slot, Objects)
    requires InRecovery(s.pc)
  {
    match s.pc
    case RecoverWait => (s.(pc := RecoverReadLocator), objects)
    case RecoverReadLocator =>
      if s.locator.None? then (s.(pc := RecoverReadPending), objects)
      else if s.locator.value.links != 1 then (s.(pc := Done(Refused)), objects)
      else (s.(pc := RecoverCheckLocated(s.locator.value.digest)), objects)
    case RecoverCheckLocated(d) =>
      if Valid(objects, d) then (s.(pc := RecoverReadStale(d)), SealObject(objects, d))
      else (s.(pc := Done(Refused)), objects)
    case RecoverReadStale(d) =>
      if s.pending.None? then (s.(pc := Sweep(Found(d))), objects)
      else if s.pending.value == Record(d, 1) then (s.(pc := RecoverDropStale(d)), objects)
      else (s.(pc := Done(Refused)), objects)
    case RecoverDropStale(d) => (s.(pending := None, pc := Sweep(Found(d))), objects)
    case RecoverReadPending =>
      if s.pending.None? then (s.(pc := Sweep(Nothing)), objects)
      else if s.pending.value.links != 1 then (s.(pc := Done(Refused)), objects)
      else (s.(pc := RecoverSearch(s.pending.value.digest)), objects)
    case RecoverSearch(d) =>
      if d in objects then (s.(pc := RecoverCheckObject(d)), objects)
      else
        var matching := set name | name in s.candidates && ValidCandidate(s.candidates, name, d);
        if |matching| > 1 then (s.(pc := Done(Refused)), objects)
        else if matching == {} then (s.(pc := RecoverAbandon), objects)
        else
          var name :| name in matching;
          (s.(pc := RecoverAdopt(d, name)), objects)
    case RecoverAdopt(d, name) =>
      if d in objects || name !in s.candidates then (s.(pc := Done(Refused)), objects)
      else (s.(candidates := s.candidates - {name}, pc := RecoverCheckObject(d)), objects[d := s.candidates[name]])
    case RecoverCheckObject(d) =>
      if Valid(objects, d) then (s.(pc := RecoverLinkLocator(d)), SealObject(objects, d))
      else (s.(pc := Done(Refused)), objects)
    case RecoverLinkLocator(d) =>
      if s.locator.None? then (s.(locator := Some(Record(d, 2)), pc := RecoverUnlinkTemporary(d)), objects)
      else if s.locator.value == Record(d, 1) then (s.(pc := RecoverDropPending(d)), objects)
      else (s.(pc := Done(Refused)), objects)
    case RecoverUnlinkTemporary(d) => (s.(locator := Some(Record(d, 1)), pc := RecoverDropPending(d)), objects)
    case RecoverDropPending(d) => (s.(pending := None, pc := Sweep(Found(d))), objects)
    case RecoverAbandon =>
      if s.candidates != map[] then (Discard(s, input), objects)
      else (s.(pending := None, pc := Sweep(Nothing)), objects)
    case Sweep(outcome) =>
      if s.candidates != map[] then (Discard(s, input), objects)
      else (s.(pc := if outcome == Nothing then Recovered else Done(outcome)), objects)
  }

  predicate InRecovery(pc: Pc) {
    || pc.RecoverWait? || pc.RecoverReadLocator? || pc.RecoverCheckLocated? || pc.RecoverReadStale?
    || pc.RecoverDropStale? || pc.RecoverReadPending? || pc.RecoverSearch? || pc.RecoverAdopt?
    || pc.RecoverCheckObject? || pc.RecoverLinkLocator? || pc.RecoverUnlinkTemporary? || pc.RecoverDropPending?
    || pc.RecoverAbandon? || pc.Sweep?
  }

  predicate InPublication(pc: Pc) {
    !InRecovery(pc) && !pc.Idle? && !pc.Recovered? && !pc.Done?
  }

  /** One step of priming a candidate and of publish_seed. */
  ghost function PublishStep(s: Slot, objects: Objects, input: Input): (Slot, Objects)
    requires InPublication(s.pc)
  {
    match s.pc
    case Priming(name) =>
      if input.act == Change && input.node.Dir? && name in s.candidates then
        (s.(candidates := s.candidates[name := input.node]), objects)
      else (s.(pc := PublishWait(name)), objects)
    case PublishWait(name) => (s.(pc := Preparing(name)), objects)
    case Preparing(name) =>
      if name !in s.candidates || !s.candidates[name].Dir? || s.candidates[name].mode != O700 then
        (s.(pc := Failing(name)), objects)
      else if input.act == Change && input.node.Dir? && input.node.mode == O700 then
        (s.(candidates := s.candidates[name := input.node]), objects)
      else if Prepare(s.candidates[name]).None? then (s.(pc := Failing(name)), objects)
      else
        var (sealed, m) := Prepare(s.candidates[name]).value;
        (s.(candidates := s.candidates[name := sealed], pc := PublishReadLocator(name, m.contentDigest)), objects)
    case PublishReadLocator(name, d) =>
      if s.locator.None? then (s.(pc := PublishReadPending(name, d)), objects)
      else if s.locator.value == Record(d, 1) then (s.(pc := PublishCheckExisting(name, d)), objects)
      else (s.(pc := Failing(name)), objects)
    case PublishCheckExisting(name, d) =>
      if Sealed(objects, d) then (s.(pc := PublishDropDuplicate(name, d)), objects)
      else (s.(pc := Failing(name)), objects)
    case PublishDropDuplicate(name, d) => (DropOwn(s, name, input, PublishReadStale(d), Failing(name)), objects)
    case PublishReadStale(d) =>
      if s.pending.None? then (s.(pc := Done(Found(d))), objects)
      else if s.pending.value == Record(d, 1) then (s.(pc := PublishDropStale(d)), objects)
      else (s.(pc := Done(Refused)), objects)
    case PublishDropStale(d) => (s.(pending := None, pc := Done(Found(d))), objects)
    case PublishReadPending(name, d) =>
      if s.pending.None? then (s.(pc := PublishLinkPending(name, d)), objects)
      else if s.pending.value == Record(d, 1) then (s.(pc := PublishSearch(name, d)), objects)
      else (s.(pc := Failing(name)), objects)
    case PublishLinkPending(name, d) =>
      if s.pending.None? then (s.(pending := Some(Record(d, 2)), pc := PublishUnlinkPending(name, d)), objects)
      else if s.pending.value == Record(d, 1) then (s.(pc := PublishSearch(name, d)), objects)
      else (s.(pc := Failing(name)), objects)
    case PublishUnlinkPending(name, d) => (s.(pending := Some(Record(d, 1)), pc := PublishSearch(name, d)), objects)
    case PublishSearch(name, d) =>
      if d in objects then (s.(pc := PublishCheckObject(Some(name), d)), objects)
      else (s.(pc := PublishRename(name, d)), objects)
    case PublishRename(name, d) =>
      if d in objects then (s.(pc := PublishCheckObject(Some(name), d)), objects)
      else if name !in s.candidates then (s.(pc := Failing(name)), objects)
      else (s.(candidates := s.candidates - {name}, pc := PublishCheckObject(None, d)),
        objects[d := s.candidates[name]])
    case PublishCheckObject(own, d) =>
      if Valid(objects, d) then (s.(pc := PublishLinkLocator(own, d)), SealObject(objects, d))
      else (s.(pc := if own.Some? then Failing(own.value) else Done(Refused)), objects)
    case PublishLinkLocator(own, d) =>
      if s.locator.None? then (s.(locator := Some(Record(d, 2)), pc := PublishUnlinkLocator(own, d)), objects)
      else if s.locator.value == Record(d, 1) then (s.(pc := PublishDropPending(own, d)), objects)
      else (s.(pc := if own.Some? then Failing(own.value) else Done(Refused)), objects)
    case PublishUnlinkLocator(own, d) => (s.(locator := Some(Record(d, 1)), pc := PublishDropPending(own, d)), objects)
    case PublishDropPending(own, d) => (s.(pending := None, pc := PublishDropOwn(own, d)), objects)
    case PublishDropOwn(own, d) =>
      if own.None? then (s.(pc := Done(Found(d))), objects)
      else (DropOwn(s, own.value, input, Done(Found(d)), Failing(own.value)), objects)
    case Failing(name) => (DropOwn(s, name, input, Done(Refused), Done(Refused)), objects)
    case Discarding(name) => (DropOwn(s, name, input, Done(Refused), Done(Refused)), objects)
  }

  /** Where an exception in publish_seed leads: it removes the candidate under its name. */
  function Unwind(own: Option<Name>): Pc {
    if own.Some? then Failing(own.value) else Done(Refused)
  }

  /** The owning process raises before it takes its next step. Nothing on the way out
      undoes a record: writing one unlinks its temporary name, publishing removes its
      candidate, and before publishing prepare_cache_seed does. */
  function Raised(s: Slot): Slot {
    match s.pc
    case Idle => s
    case Done(_) => s
    case RecoverUnlinkTemporary(d) => s.(locator := Some(Record(d, 1)), pc := Done(Refused))
    case Priming(name) => s.(pc := Discarding(name))
    case PublishWait(name) => s.(pc := Discarding(name))
    case Preparing(name) => s.(pc := Failing(name))
    case PublishReadLocator(name, _) => s.(pc := Failing(name))
    case PublishCheckExisting(name, _) => s.(pc := Failing(name))
    case PublishDropDuplicate(name, _) => s.(pc := Failing(name))
    case PublishReadPending(name, _) => s.(pc := Failing(name))
    case PublishLinkPending(name, _) => s.(pc := Failing(name))
    case PublishUnlinkPending(name, d) => s.(pending := Some(Record(d, 1)), pc := Failing(name))
    case PublishSearch(name, _) => s.(pc := Failing(name))
    case PublishRename(name, _) => s.(pc := Failing(name))
    case PublishCheckObject(own, _) => s.(pc := Unwind(own))
    case PublishLinkLocator(own, _) => s.(pc := Unwind(own))
    case PublishUnlinkLocator(own, d) => s.(locator := Some(Record(d, 1)), pc := Unwind(own))
    case PublishDropPending(own, _) => s.(pc := Unwind(own))
    case PublishDropOwn(own, _) => s.(pc := Unwind(own))
    case _ => s.(pc := Done(Refused))
  }

  /** One step of the process that owns the key. */
  ghost function Step(s: Slot, objects: Objects, input: Input): (Slot, Objects) {
    if InRecovery(s.pc) then RecoverStep(s, objects, input)
    else if InPublication(s.pc) then PublishStep(s, objects, input)
    else if s.pc.Idle? then (s.(pc := RecoverWait), objects)
    else if s.pc.Done? then (s.(pc := Idle), objects)
    else if input.name in s.candidates then (s, objects)
    else (s.(candidates := s.candidates[input.name := Dir(O700, [])], pc := Priming(input.name)), objects)
  }

  /** The process holds the lifecycle lock exclusively. */
  predicate Holding(pc: Pc) {
    (InRecovery(pc) && !pc.RecoverWait?) || (InPublication(pc) && !pc.Priming? && !pc.PublishWait? && !pc.Discarding?)
  }

  // -------------------------------------------------------- what a key promises

  /** What every step keeps about the records and candidates of one key. */
  ghost predicate RecordsInv(s: Slot, objects: Objects) {
    && (s.locator.Some? ==> s.locator.value.links in {1, 2} && Sealed(objects, s.locator.value.digest))
    && (s.pending.Some? ==> s.pending.value.links in {1, 2})
    && (s.pending.Some? && s.locator.Some? ==> s.pending.value.digest == s.locator.value.digest)
    && (forall a, b :: a in s.candidates && b in s.candidates ==> a == b)
  }

  predicate Own(s: Slot, own: Option<Name>) {
    s.candidates.Keys == if own.Some? then {own.value} else {}
  }

  /** What holds at each program point of the owning process. */
  ghost predicate PointInv(s: Slot, objects: Objects) {
    match s.pc
    case Idle => true
    case RecoverWait => true
    case RecoverReadLocator => true
    case RecoverCheckLocated(d) => s.locator == Some(Record(d, 1))
    case RecoverReadStale(d) => s.locator == Some(Record(d, 1))
    case RecoverDropStale(d) => s.locator == Some(Record(d, 1)) && s.pending == Some(Record(d, 1))
    case RecoverReadPending => s.locator.None?
    case RecoverSearch(d) => s.locator.None? && s.pending == Some(Record(d, 1))
    case RecoverAdopt(d, name) =>
      s.locator.None? && s.pending == Some(Record(d, 1)) && d !in objects && ValidCandidate(s.candidates, name, d)
    case RecoverCheckObject(d) => s.locator.None? && s.pending == Some(Record(d, 1)) && d in objects
    case RecoverLinkLocator(d) => s.locator.None? && s.pending == Some(Record(d, 1)) && Sealed(objects, d)
    case RecoverUnlinkTemporary(d) => s.locator == Some(Record(d, 2)) && s.pending == Some(Record(d, 1))
    case RecoverDropPending(d) => s.locator == Some(Record(d, 1)) && s.pending == Some(Record(d, 1))
    case RecoverAbandon => s.locator.None? && s.pending.Some? && s.pending.value.links == 1 &&
      s.pending.value.digest !in objects
    case Sweep(Found(d)) => s.locator == Some(Record(d, 1)) && s.pending.None?
    case Sweep(Nothing) => s.locator.None? && s.pending.None?
    case Sweep(Refused) => false
    case Recovered => s.locator.None? && s.pending.None? && s.candidates == map[]
    case Priming(name) => s.locator.None? && s.pending.None? && Own(s, Some(name))
    case PublishWait(name) => s.locator.None? && s.pending.None? && Own(s, Some(name))
    case Preparing(name) => s.locator.None? && s.pending.None? && Own(s, Some(name))
    case PublishReadLocator(name, d) =>
      s.locator.None? && s.pending.None? && Own(s, Some(name)) && ValidCandidate(s.candidates, name, d)
    case PublishReadPending(name, d) =>
      s.locator.None? && s.pending.None? && Own(s, Some(name)) && ValidCandidate(s.candidates, name, d)
    case PublishLinkPending(name, d) =>
      s.locator.None? && s.pending.None? && Own(s, Some(name)) && ValidCandidate(s.candidates, name, d)
    case PublishUnlinkPending(name, d) =>
      s.locator.None? && s.pending == Some(Record(d, 2)) && Own(s, Some(name)) && ValidCandidate(s.candidates, name, d)
    case PublishSearch(name, d) =>
      s.locator.None? && s.pending == Some(Record(d, 1)) && Own(s, Some(name)) && ValidCandidate(s.candidates, name, d)
    case PublishRename(name, d) =>
      s.locator.None? && s.pending == Some(Record(d, 1)) && Own(s, Some(name)) &&
        ValidCandidate(s.candidates, name, d) && d !in objects
    case PublishCheckObject(own, d) => s.locator.None? && s.pending == Some(Record(d, 1)) && Own(s, own) && d in objects
    case PublishLinkLocator(own, d) =>
      s.locator.None? && s.pending == Some(Record(d, 1)) && Own(s, own) && Sealed(objects, d)
    case PublishUnlinkLocator(own, d) =>
      s.locator == Some(Record(d, 2)) && s.pending == Some(Record(d, 1)) && Own(s, own)
    case PublishDropPending(own, d) => s.locator == Some(Record(d, 1)) && s.pending == Some(Record(d, 1)) && Own(s, own)
    case PublishDropOwn(own, d) => s.locator == Some(Record(d, 1)) && s.pending.None? && Own(s, own)
    case Failing(name) => Own(s, Some(name))
    case Discarding(name) => s.locator.None? && s.pending.None? && Own(s, Some(name))
    case Done(Found(d)) => s.locator == Some(Record(d, 1)) && s.pending.None? && s.candidates == map[]
    case Done(Nothing) => false
    case Done(Refused) => true
    case _ => false
  }

  ghost predicate SlotInv(s: Slot, objects: Objects) {
    RecordsInv(s, objects) && PointInv(s, objects)
  }

  ghost predicate ObjectsInv(objects: Objects) {
    forall d :: d in objects ==> Valid(objects, d)
  }

  /** Objects only appear and get their root sealed. */
  ghost predicate Grown(before: Objects, after: Objects) {
    forall d :: d in before ==>
      d in after && (after[d] == before[d] || (before[d].Dir? && after[d] == SealRoot(before[d])))
  }

  lemma SealingObject(objects: Objects, d: Digest)
    requires Valid(objects, d)
    ensures Sealed(SealObject(objects, d), d) && Valid(SealObject(objects, d), d) &&
      Grown(objects, SealObject(objects, d))
  {
    SealedRootValidates(objects[d], d);
  }

  /** Growth keeps every valid object valid and every sealed object sealed. */
  lemma GrowthKeepsObjects(before: Objects, after: Objects, d: Digest)
    requires Grown(before, after) && d in before
    ensures Valid(before, d) ==> Valid(after, d)
    ensures Sealed(before, d) ==> Sealed(after, d)
  {
    if Valid(before, d) {
      SealedRootValidates(before[d], d);
    }
    if Sealed(before, d) {
      assert SealRoot(before[d]) == before[d];
    }
  }

  /** Some candidate of the key is the committed tree. */
  ghost predicate HasCandidate(candidates: map<Name, Node>, d: Digest) {
    exists name :: ValidCandidate(candidates, name, d)
  }

  /** Never more than one candidate matches, so the search is not ambiguous; it finds
      one exactly when a candidate for the digest is left. */
  lemma OneMatch(s: Slot, objects: Objects, d: Digest)
    requires RecordsInv(s, objects)
    ensures var matching := set n | n in s.candidates && ValidCandidate(s.candidates, n, d);
            && |matching| <= 1
            && (matching == {} <==> !HasCandidate(s.candidates, d))
  {
    var matching := set n | n in s.candidates && ValidCandidate(s.candidates, n, d);
    if HasCandidate(s.candidates, d) {
      var name :| ValidCandidate(s.candidates, name, d);
      assert matching == {name};
    } else {
      assert matching == {};
    }
  }

  /** Removing candidates at the end of a recovery. */
  lemma DiscardStepKeepsSlot(s: Slot, objects: Objects, input: Input)
    requires SlotInv(s, objects) && (s.pc.Sweep? || s.pc.RecoverAbandon?)
    ensures var (s', objects') := RecoverStep(s, objects, input);
            SlotInv(s', objects') && objects' == objects
  {
    hide Validate;
  }

  /** Looking for the committed tree changes nothing. */
  lemma SearchStepKeepsSlot(s: Slot, objects: Objects, input: Input)
    requires SlotInv(s, objects) && s.pc.RecoverSearch?
    ensures var (s', objects') := RecoverStep(s, objects, input);
            SlotInv(s', objects') && objects' == objects
  {
    hide Validate;
    OneMatch(s, objects, s.pc.d);
  }

  /** Reading and writing records during recovery leaves the objects alone. */
  lemma RecoverRecordStepKeepsSlot(s: Slot, objects: Objects, input: Input)
    requires SlotInv(s, objects) && InRecovery(s.pc) && !s.pc.Sweep? && !s.pc.RecoverAbandon? && !s.pc.RecoverSearch?
    requires !s.pc.RecoverCheckLocated? && !s.pc.RecoverAdopt? && !s.pc.RecoverCheckObject?
    ensures var (s', objects') := RecoverStep(s, objects, input);
            SlotInv(s', objects') && objects' == objects
  {
    hide Validate, Discard, ValidCandidate, Sealed, Valid;
  }

  /** Adopting a candidate and checking an object only add and seal objects. */
  lemma RecoverObjectStepKeepsSlot(s: Slot, objects: Objects, input: Input)
    requires SlotInv(s, objects) && ObjectsInv(objects)
    requires s.pc.RecoverCheckLocated? || s.pc.RecoverAdopt? || s.pc.RecoverCheckObject?
    ensures var (s', objects') := RecoverStep(s, objects, input);
            SlotInv(s', objects') && ObjectsInv(objects') && Grown(objects, objects')
  {
    hide Validate;
    if !s.pc.RecoverAdopt? {
      SealingObject(objects, s.pc.d);
    }
  }

  /** A step of recover_seed keeps the key's promises. */
  lemma RecoverStepKeepsSlot(s: Slot, objects: Objects, input: Input)
    requires SlotInv(s, objects) && ObjectsInv(objects) && InRecovery(s.pc)
    ensures var (s', objects') := RecoverStep(s, objects, input);
            SlotInv(s', objects') && ObjectsInv(objects') && Grown(objects, objects')
  {
    hide Validate, RecoverStep, PointInv;
    if s.pc.RecoverCheckLocated? || s.pc.RecoverAdopt? || s.pc.RecoverCheckObject? {
      RecoverObjectStepKeepsSlot(s, objects, input);
    } else if s.pc.Sweep? || s.pc.RecoverAbandon? {
      DiscardStepKeepsSlot(s, objects, input);
    } else if s.pc.RecoverSearch? {
      SearchStepKeepsSlot(s, objects, input);
    } else {
      RecoverRecordStepKeepsSlot(s, objects, input);
    }
  }

  /** Before a record is written, only the key's own candidate changes. */
  predicate Unrecorded(pc: Pc) {
    || pc.Priming? || pc.PublishWait? || pc.Preparing? || pc.PublishReadLocator? || pc.PublishReadPending? ||
      pc.Failing? || pc.Discarding?
  }

  lemma EarlyStepKeepsSlot(s: Slot, objects: Objects, input: Input)
    requires SlotInv(s, objects) && ObjectsInv(objects) && InPublication(s.pc) && Unrecorded(s.pc)
    ensures var (s', objects') := PublishStep(s, objects, input);
            SlotInv(s', objects') && objects' == objects
  {
    hide *;
    if s.pc.Preparing? {
      PrepareStepKeepsSlot(s, objects, input);
    } else {
      OwnStepKeepsSlot(s, objects, input);
    }
  }

  lemma OwnStepKeepsSlot(s: Slot, objects: Objects, input: Input)
    requires SlotInv(s, objects) && ObjectsInv(objects) && InPublication(s.pc) && Unrecorded(s.pc) && !s.pc.Preparing?
    ensures var (s', objects') := PublishStep(s, objects, input);
            SlotInv(s', objects') && objects' == objects
  {
    hide Validate, Prepare, Deletable, Leftover, Weight;
  }

  lemma PrepareStepKeepsSlot(s: Slot, objects: Objects, input: Input)
    requires SlotInv(s, objects) && s.pc.Preparing?
    ensures var (s', objects') := PublishStep(s, objects, input);
            SlotInv(s', objects') && objects' == objects
  {
    hide Validate, Prepare;
    if s.candidates[s.pc.name].Dir? && s.candidates[s.pc.name].mode == O700 && Prepare(s.candidates[s.pc.name]).Some? {
      PreparedValidates(s.candidates[s.pc.name]);
    }
  }

  /** Writing and dropping records leaves the objects alone. */
  lemma RecordStepKeepsSlot(s: Slot, objects: Objects, input: Input)
    requires SlotInv(s, objects) && ObjectsInv(objects) && InPublication(s.pc) && !Unrecorded(s.pc)
    requires !s.pc.PublishRename? && !s.pc.PublishCheckObject?
    ensures var (s', objects') := PublishStep(s, objects, input);
            SlotInv(s', objects') && objects' == objects
  {
    hide Validate, Prepare;
    var s' := PublishStep(s, objects, input).0;
    if s.pc.PublishDropOwn? {
      assert RecordsInv(s', objects);
    } else {
      assert s'.candidates == s.candidates;
    }
  }

  /** Renaming the candidate into place and checking the object. */
  lemma ObjectStepKeepsSlot(s: Slot, objects: Objects, input: Input)
    requires SlotInv(s, objects) && ObjectsInv(objects) && (s.pc.PublishRename? || s.pc.PublishCheckObject?)
    ensures var (s', objects') := PublishStep(s, objects, input);
            SlotInv(s', objects') && ObjectsInv(objects') && Grown(objects, objects')
  {
    hide Validate, Prepare;
    if s.pc.PublishCheckObject? {
      SealingObject(objects, s.pc.d);
    }
  }

  lemma StepKeepsSlot(s: Slot, objects: Objects, input: Input)
    requires SlotInv(s, objects) && ObjectsInv(objects)
    ensures var (s', objects') := Step(s, objects, input);
            SlotInv(s', objects') && ObjectsInv(objects') && Grown(objects, objects')
  {
    if InRecovery(s.pc) {
      RecoverStepKeepsSlot(s, objects, input);
    } else if InPublication(s.pc) {
      if Unrecorded(s.pc) {
        EarlyStepKeepsSlot(s, objects, input);
      } else {
        if s.pc.PublishRename? || s.pc.PublishCheckObject? {
          ObjectStepKeepsSlot(s, objects, input);
        } else {
          RecordStepKeepsSlot(s, objects, input);
        }
      }
    }
  }

  // ------------------------------------------------------------- crash atomicity

  /** The digest is committed for the key: its pending record or locator is durable. */
  predicate Committed(s: Slot, d: Digest) {
    || (s.pending.Some? && s.pending.value.digest == d)
    || (s.locator.Some? && s.locator.value.digest == d)
  }

  /** The one step that undoes a commitment: recovery found no tree for the digest. */
  predicate Abandons(s: Slot) {
    s.pc.RecoverAbandon? && s.candidates == map[]
  }

  /** A commitment outlives every step of its owner but that one, and a locator never
      changes. */
  lemma StepKeepsCommitment(s: Slot, objects: Objects, input: Input, d: Digest)
    requires SlotInv(s, objects) && ObjectsInv(objects)
    ensures var s' := Step(s, objects, input).0;
            && (Committed(s, d) ==> (Committed(s', d) <==> !Abandons(s)))
            && (s.locator.Some? ==> s'.locator.Some? && s'.locator.value.digest == s.locator.value.digest)
  {
    hide Validate, Prepare, Valid, Sealed, ValidCandidate, Own;
    if InRecovery(s.pc) {
      hide PublishStep;
    } else {
      hide RecoverStep;
    }
  }

  /** An exception keeps the invariant and every record. */
  lemma RaiseKeepsSlot(s: Slot, objects: Objects)
    requires SlotInv(s, objects)
    ensures SlotInv(Raised(s), objects)
    ensures forall d :: Committed(s, d) <==> Committed(Raised(s), d)
    ensures s.locator.Some? <==> Raised(s).locator.Some?
    ensures s.locator.Some? ==> Raised(s).locator.value.digest == s.locator.value.digest
  {
    hide Validate, ValidCandidate;
  }

  /** A record of the key still has its temporary name, so readers refuse it. */
  predicate Blocked(s: Slot) {
    || (s.locator.Some? && s.locator.value.links != 1)
    || (s.pending.Some? && s.pending.value.links != 1)
  }

  /** The tree that a committed digest stands for is still there: published, in
      place as an object, or as a candidate. */
  ghost predicate Backed(s: Slot, objects: Objects, d: Digest) {
    s.locator.Some? || d in objects || HasCandidate(s.candidates, d)
  }

  /** Every candidate can be deleted. */
  ghost predicate Clear(candidates: map<Name, Node>, sizes: Sizes) {
    forall name :: name in candidates ==> Deletable(candidates[name], sizes)
  }

  /** Recovery takes the candidate for the committed tree instead of deleting it. */
  ghost predicate Adopts(s: Slot, objects: Objects) {
    s.locator.None? && s.pending.Some? && s.pending.value.digest !in objects &&
      HasCandidate(s.candidates, s.pending.value.digest)
  }

  /** Recovery has to delete a candidate and cannot. */
  ghost predicate Stuck(s: Slot, objects: Objects, sizes: Sizes) {
    !Clear(s.candidates, sizes) && !Adopts(s, objects)
  }

  /** How a recovery ends: its outcome and the records that are left. */
  datatype Answer = Answer(outcome: Outcome, locator: Option<Record>, pending: Option<Record>)

  function Refusal(s: Slot): Answer {
    Answer(Refused, s.locator, s.pending)
  }

  /** The digest is published; the sweep after it may still refuse. */
  ghost function Publication(s: Slot, d: Digest, sizes: Sizes): Answer {
    Answer(if Clear(s.candidates, sizes) then Found(d) else Refused, Some(Record(d, 1)), None)
  }

  /** Nothing is to be published; the record goes after the candidates. */
  ghost function Abandonment(s: Slot, sizes: Sizes): Answer {
    if Clear(s.candidates, sizes) then Answer(Nothing, None, None) else Answer(Refused, None, s.pending)
  }

  ghost function Search(s: Slot, objects: Objects, d: Digest, sizes: Sizes): Answer {
    if d in objects then Publication(s, d, sizes)
    else if HasCandidate(s.candidates, d) then Answer(Found(d), Some(Record(d, 1)), None)
    else Abandonment(s, sizes)
  }

  /** What recovery must answer, read off the records and the trees that are there. */
  ghost function Expected(s: Slot, objects: Objects, sizes: Sizes): Answer {
    if Blocked(s) then Refusal(s)
    else if s.locator.Some? then Publication(s, s.locator.value.digest, sizes)
    else if s.pending.Some? then Search(s, objects, s.pending.value.digest, sizes)
    else Abandonment(s, sizes)
  }

  /** What a recovery that has reached its program point is going to answer. */
  ghost function Promise(s: Slot, objects: Objects, sizes: Sizes): Answer {
    match s.pc
    case RecoverCheckLocated(d) => if Blocked(s) then Refusal(s) else Publication(s, d, sizes)
    case RecoverReadStale(d) => if Blocked(s) then Refusal(s) else Publication(s, d, sizes)
    case RecoverDropStale(d) => Publication(s, d, sizes)
    case RecoverSearch(d) => Search(s, objects, d, sizes)
    case RecoverAdopt(d, _) => Answer(Found(d), Some(Record(d, 1)), None)
    case RecoverCheckObject(d) => Publication(s, d, sizes)
    case RecoverLinkLocator(d) => Publication(s, d, sizes)
    case RecoverUnlinkTemporary(d) => Publication(s, d, sizes)
    case RecoverDropPending(d) => Publication(s, d, sizes)
    case RecoverAbandon => Abandonment(s, sizes)
    case Sweep(Found(d)) => Publication(s, d, sizes)
    case Sweep(Nothing) => Abandonment(s, sizes)
    case Recovered => Answer(Nothing, s.locator, s.pending)
    case Done(outcome) => Answer(outcome, s.locator, s.pending)
    case _ => Expected(s, objects, sizes)
  }

  /** Reading the records, and writing them once the object is in place. */
  lemma RecordStepKeepsPromise(s: Slot, objects: Objects, input: Input)
    requires SlotInv(s, objects) && ObjectsInv(objects) && InRecovery(s.pc)
    requires !s.pc.RecoverSearch? && !s.pc.RecoverAdopt? && !s.pc.Sweep? && !s.pc.RecoverAbandon?
    ensures var (s', objects') := RecoverStep(s, objects, input);
            && Promise(s', objects', input.sizes) == Promise(s, objects, input.sizes)
            && (InRecovery(s'.pc) || s'.pc.Done?)
  {
    hide Validate, Deletable, Discard, HasCandidate, Own;
  }

  /** Searching for the committed tree, and taking the candidate that is it. */
  lemma SearchStepKeepsPromise(s: Slot, objects: Objects, input: Input)
    requires SlotInv(s, objects) && ObjectsInv(objects) && (s.pc.RecoverSearch? || s.pc.RecoverAdopt?)
    ensures var (s', objects') := RecoverStep(s, objects, input);
            && Promise(s', objects', input.sizes) == Promise(s, objects, input.sizes)
            && InRecovery(s'.pc)
  {
    hide Validate, Deletable;
    OneMatch(s, objects, s.pc.d);
    hide ValidCandidate, HasCandidate;
  }

  /** Deleting the candidates. */
  lemma DiscardStepKeepsPromise(s: Slot, objects: Objects, input: Input)
    requires SlotInv(s, objects) && (s.pc.Sweep? || s.pc.RecoverAbandon?)
    ensures var (s', objects') := RecoverStep(s, objects, input);
            && Promise(s', objects', input.sizes) == Promise(s, objects, input.sizes)
            && (InRecovery(s'.pc) || s'.pc.Recovered? || s'.pc.Done?)
  {
    hide Validate, Deletable;
  }

  lemma RecoverStepKeepsPromise(s: Slot, objects: Objects, input: Input)
    requires SlotInv(s, objects) && ObjectsInv(objects) && InRecovery(s.pc)
    ensures var (s', objects') := RecoverStep(s, objects, input);
            && Promise(s', objects', input.sizes) == Promise(s, objects, input.sizes)
            && (InRecovery(s'.pc) || s'.pc.Recovered? || s'.pc.Done?)
  {
    hide RecoverStep, Promise, SlotInv;
    if s.pc.RecoverSearch? || s.pc.RecoverAdopt? {
      SearchStepKeepsPromise(s, objects, input);
    } else if s.pc.Sweep? || s.pc.RecoverAbandon? {
      DiscardStepKeepsPromise(s, objects, input);
    } else {
      RecordStepKeepsPromise(s, objects, input);
    }
  }

  /** How many program points recovery still has before its final sweep. */
  function Rank(pc: Pc): nat {
    match pc
    case RecoverWait => 12
    case RecoverReadLocator => 11
    case RecoverCheckLocated(_) => 10
    case RecoverReadStale(_) => 9
    case RecoverDropStale(_) => 8
    case RecoverReadPending => 10
    case RecoverSearch(_) => 9
    case RecoverAdopt(_, _) => 8
    case RecoverCheckObject(_) => 7
    case RecoverLinkLocator(_) => 6
    case RecoverUnlinkTemporary(_) => 5
    case RecoverDropPending(_) => 4
    case RecoverAbandon => 3
    case Sweep(_) => 2
    case _ => 0
  }

  /** The entries still to be deleted below the one remaining candidate. */
  ghost function Remaining(s: Slot): nat {
    if s.candidates == map[] then 0
    else
      var name :| name in s.candidates;
      Weight(s.candidates[name])
  }

  lemma DiscardDecreases(s: Slot, objects: Objects, input: Input)
    requires SlotInv(s, objects) && (s.pc.Sweep? || s.pc.RecoverAbandon?) && s.candidates != map[]
    ensures var s' := Discard(s, input); s'.pc == Done(Refused) || (s'.pc == s.pc && Remaining(s') < Remaining(s))
  {
    hide Validate, PointInv, Deletable;
    var s' := Discard(s, input);
    var name :| name in s.candidates;
    assert s'.candidates == map[] || s'.candidates.Keys == {name};
    assert Weight(s.candidates[name]) > 0;
  }

  lemma RecoverStepDecreases(s: Slot, objects: Objects, input: Input)
    requires SlotInv(s, objects) && InRecovery(s.pc)
    ensures var s' := RecoverStep(s, objects, input).0;
            Rank(s'.pc) < Rank(s.pc) || (s'.pc == s.pc && Remaining(s') < Remaining(s))
  {
    if (s.pc.Sweep? || s.pc.RecoverAbandon?) && s.candidates != map[] {
      DiscardDecreases(s, objects, input);
    }
    hide SlotInv, Discard, Validate, Valid, ValidCandidate, Remaining;
  }

  /** Recovery run to its end, with every choice made by `inputs`. */
  ghost function Recover(s: Slot, objects: Objects, inputs: nat -> Input, i: nat): (r: (Slot, Objects))
    requires SlotInv(s, objects) && ObjectsInv(objects)
    decreases Rank(s.pc), Remaining(s)
  {
    if !InRecovery(s.pc) then (s, objects)
    else
      var (s', objects') := RecoverStep(s, objects, inputs(i));
      RecoverStepKeepsSlot(s, objects, inputs(i));
      RecoverStepDecreases(s, objects, inputs(i));
      Recover(s', objects', inputs, i + 1)
  }

  /** The host reports the same sizes throughout. */
  ghost predicate Host(inputs: nat -> Input, sizes: Sizes) {
    forall i: nat :: inputs(i).sizes == sizes
  }

  lemma {:induction false} RecoverKeepsPromise(s: Slot, objects: Objects, inputs: nat -> Input, sizes: Sizes, i: nat)
    requires SlotInv(s, objects) && ObjectsInv(objects) && Host(inputs, sizes)
    requires InRecovery(s.pc) || s.pc.Recovered? || s.pc.Done?
    ensures var (s', objects') := Recover(s, objects, inputs, i);
            && SlotInv(s', objects') && ObjectsInv(objects')
            && Promise(s', objects', sizes) == Promise(s, objects, sizes)
            && (s'.pc.Recovered? || s'.pc.Done?)
    decreases Rank(s.pc), Remaining(s)
  {
    hide Promise, SlotInv, RecoverStep;
    if InRecovery(s.pc) {
      var (s', objects') := RecoverStep(s, objects, inputs(i));
      RecoverStepKeepsSlot(s, objects, inputs(i));
      RecoverStepDecreases(s, objects, inputs(i));
      RecoverStepKeepsPromise(s, objects, inputs(i));
      RecoverKeepsPromise(s', objects', inputs, sizes, i + 1);
    }
  }

  /** Recovery, exactly. From any state that crashes and exceptions can leave it ends, and
      - it refuses exactly when some record of the key still has its temporary name, or
        when it has to delete a candidate that holds a special file or exceeds the
        deletion budgets;
      - if a record has two names, the records stay as they are; otherwise a committed
        digest is published, as a locator of a sealed object and with its pending record
        cleared, exactly when its tree is still there, even where the deletion after
        it then refuses;
      - it answers with that digest, or with nothing, exactly when it does not refuse,
        and then no candidate is left; a record whose tree is gone is dropped after the
        candidates and stays if they cannot be deleted. */
  lemma RecoveryIsExact(s: Slot, objects: Objects, inputs: nat -> Input, sizes: Sizes)
    requires SlotInv(s, objects) && ObjectsInv(objects) && Host(inputs, sizes) && s.pc == RecoverWait
    ensures var (s', objects') := Recover(s, objects, inputs, 0);
            && (s'.pc == Done(Refused) <==> Blocked(s) || Stuck(s, objects, sizes))
            && (Blocked(s) ==> s'.pending == s.pending && s'.locator == s.locator)
            && (forall d :: s'.locator == Some(Record(d, 1)) && s'.pending.None? && Sealed(objects', d) <==>
                  !Blocked(s) && Committed(s, d) && Backed(s, objects, d))
            && (forall d :: s'.pc == Done(Found(d)) <==>
                  !Blocked(s) && !Stuck(s, objects, sizes) && Committed(s, d) && Backed(s, objects, d))
            && (s'.pc == Recovered <==>
                  !Blocked(s) && !Stuck(s, objects, sizes) && forall d :: Committed(s, d) ==> !Backed(s, objects, d))
            && (s'.pc != Done(Refused) ==> s'.candidates == map[])
            && (!Blocked(s) && (forall d :: Committed(s, d) ==> !Backed(s, objects, d)) ==>
                  s'.locator.None? && s'.pending == if Stuck(s, objects, sizes) then s.pending else None)
  {
    RecoverKeepsPromise(s, objects, inputs, sizes, 0);
    hide Recover, Validate, ValidCandidate, Own, HasCandidate, Expected, Clear, Adopts;
  }

  /** A candidate of the key holds a special file. */
  ghost predicate HoldsSpecial(candidates: map<Name, Node>) {
    exists name :: name in candidates && HasSpecial(candidates[name])
  }

  lemma {:induction false} SealedIsRemovable(es: seq<Entry>)
    requires SealedModes(es)
    ensures Removable(es)
    decreases es
  {
    if es != [] {
      SealedIsRemovable(es[1..]);
      if es[0].node.Dir? {
        SealedIsRemovable(es[0].node.entries);
      }
    }
  }

  /** A candidate with a special file is no committed tree. */
  lemma SpecialIsNoCandidate(s: Slot, objects: Objects, d: Digest)
    requires RecordsInv(s, objects) && HoldsSpecial(s.candidates)
    ensures !HasCandidate(s.candidates, d)
  {
    forall name | name in s.candidates
      ensures !ValidCandidate(s.candidates, name, d)
    {
      var n := s.candidates[name];
      if n.Dir? && SealedModes(n.entries) {
        SealedIsRemovable(n.entries);
      }
    }
  }

  lemma RecoverStepKeepsSpecial(s: Slot, objects: Objects, input: Input)
    requires SlotInv(s, objects) && InRecovery(s.pc) && HoldsSpecial(s.candidates)
    ensures HoldsSpecial(RecoverStep(s, objects, input).0.candidates)
  {
    if s.pc.RecoverSearch? || s.pc.RecoverAdopt? {
      SpecialIsNoCandidate(s, objects, s.pc.d);
      if s.pc.RecoverSearch? {
        OneMatch(s, objects, s.pc.d);
      }
    }
    hide Validate, HasSpecial;
  }

  lemma {:induction false} RecoverKeepsSpecial(s: Slot, objects: Objects, inputs: nat -> Input, i: nat)
    requires SlotInv(s, objects) && ObjectsInv(objects) && HoldsSpecial(s.candidates)
    ensures HoldsSpecial(Recover(s, objects, inputs, i).0.candidates)
    decreases Rank(s.pc), Remaining(s)
  {
    hide SlotInv, RecoverStep, HoldsSpecial;
    if InRecovery(s.pc) {
      var (s', objects') := RecoverStep(s, objects, inputs(i));
      RecoverStepKeepsSlot(s, objects, inputs(i));
      RecoverStepDecreases(s, objects, inputs(i));
      RecoverStepKeepsSpecial(s, objects, inputs(i));
      RecoverKeepsSpecial(s', objects', inputs, i + 1);
    }
  }

  /** A special file in a candidate is for ever: recovery refuses and leaves it there, so
      the next recovery refuses too. */
  lemma SpecialIsForEver(s: Slot, objects: Objects, inputs: nat -> Input, sizes: Sizes)
    requires SlotInv(s, objects) && ObjectsInv(objects) && Host(inputs, sizes) && s.pc == RecoverWait
    requires HoldsSpecial(s.candidates)
    ensures var s' := Recover(s, objects, inputs, 0).0;
            s'.pc == Done(Refused) && HoldsSpecial(s'.candidates)
  {
    RecoverKeepsSpecial(s, objects, inputs, 0);
    RecoveryIsExact(s, objects, inputs, sizes);
    if s.pending.Some? {
      SpecialIsNoCandidate(s, objects, s.pending.value.digest);
    }
    hide Recover, SlotInv, Validate, HasCandidate;
  }
}
