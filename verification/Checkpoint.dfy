/** Metadata checkpoints (write_checkpoint, verify_source_manifest and
    read_valid_checkpoint in bootstrap/clew_bootstrap.py) while other processes
    edit the source tree. Every observation happens at its own instant; what the
    editors do in between is an arbitrary timeline of worlds. */
module Checkpoint {
  import opened Base

  /** A path below the source directory; the empty path is the source itself. */
  type Path = seq<string>
  type Content = string

  /** What lstat identifies a present path by, and what hashing it would read. */
  datatype File = File(stamp: nat, content: Content)

  type World = map<Path, File>

  /** The world at each instant. */
  type Timeline = nat -> World

  /** An input row of the manifest and a metadata row of the checkpoint. */
  datatype Input = Input(path: Path, content: Content)
  datatype Node = Node(path: Path, stamp: Option<nat>)

  function Parent(p: Path): Path
    requires p != []
  {
    p[..|p| - 1]
  }

  /** _metadata_identity: the stamp, or that the path does not exist. */
  function Stamp(w: World, p: Path): Option<nat> {
    if p in w then Some(w[p].stamp) else None
  }

  // --------------------------------------------------------------- what is assumed

  /** An edit never brings back an earlier stamp of the same path. */
  ghost predicate StampsNeverRepeat(w: Timeline) {
    forall p: Path, t: nat, m: nat, u: nat {:trigger w(t)[p], w(m), w(u)[p]} ::
      t <= m <= u && p in w(t) && p in w(u) && w(t)[p].stamp == w(u)[p].stamp ==>
        p in w(m) && w(m)[p] == w(t)[p]
  }

  /** Creating or removing an entry changes the stamp of its directory. */
  ghost predicate EntriesChangeParents(w: Timeline) {
    forall p: Path, t: nat, u: nat {:trigger w(t)[Parent(p)], w(u)[Parent(p)]} ::
      t <= u && p != [] && (p in w(t)) != (p in w(u)) && Parent(p) in w(t) && Parent(p) in w(u) ==>
        w(t)[Parent(p)].stamp != w(u)[Parent(p)].stamp
  }

  /** A present entry lies in a present directory, and the source is always there. */
  ghost predicate TreeShaped(w: Timeline) {
    forall t: nat :: [] in w(t) && forall p: Path :: p in w(t) && p != [] ==> Parent(p) in w(t)
  }

  ghost predicate Honest(w: Timeline) {
    StampsNeverRepeat(w) && EntriesChangeParents(w) && TreeShaped(w)
  }

  /** What is assumed can be met while files are edited: at instant `at` the file `p` gets
      other contents and with them another stamp, and nothing else happens. */
  lemma EditedTreeIsHonest(w: World, p: Path, f: File, at: nat)
    requires [] in w && forall q: Path :: q in w && q != [] ==> Parent(q) in w
    requires p in w && f.stamp != w[p].stamp
    ensures Honest((t: nat) => if t < at then w else w[p := f])
  {
    var later := w[p := f];
    assert forall q: Path :: q in later <==> q in w;
  }

  // ------------------------------------------------------------------ the programs

  /** What a run of write_checkpoint observed, and when: it captured metadata up to `mid`,
      then hashed the inputs and listed the directories for the closure up to `closed`,
      and then compared the metadata again up to `end`. */
  datatype Written = Written(
    nodes: seq<Node>, captured: seq<nat>, mid: nat, verified: seq<nat>, listed: seq<nat>, closed: nat,
    rechecked: seq<nat>, end: nat)

  /** The instant of the `n`th observation, if `delay` says how long each one is held up. */
  function Instant(delay: nat -> nat, start: nat, n: nat): nat {
    if n == 0 then start else var before := Instant(delay, start, n - 1); before + delay(before)
  }

  lemma {:induction false} InstantsRise(delay: nat -> nat, start: nat, m: nat, n: nat)
    requires m <= n
    ensures Instant(delay, start, m) <= Instant(delay, start, n)
    decreases n
  {
    if m < n {
      InstantsRise(delay, start, m, n - 1);
    }
  }

  predicate Intact(w: World, input: Input) {
    input.path in w && w[input.path].content == input.content
  }

  /** Each metadata row was read at its own instant, in listing order. */
  ghost predicate CapturedAt(w: Timeline, paths: seq<Path>, nodes: seq<Node>, times: seq<nat>, start: nat, end: nat) {
    && |nodes| == |times| == |paths| && start <= end
    && (forall i :: 0 <= i < |nodes| ==>
      nodes[i] == Node(paths[i], Stamp(w(times[i]), paths[i])) && start <= times[i] <= end)
    && (forall i, j :: 0 <= i < j < |times| ==> times[i] <= times[j])
  }

  /** Each input was hashed at its own instant and had the recorded content. */
  ghost predicate VerifiedAt(w: Timeline, inputs: seq<Input>, times: seq<nat>, start: nat, end: nat) {
    && |times| == |inputs| && start <= end
    && forall i :: 0 <= i < |inputs| ==>
         && start <= times[i] <= end
         && Intact(w(times[i]), inputs[i])
  }

  /** A path that the component registry selects and that is not among the inputs. */
  predicate Stray(selected: Path -> bool, inputs: seq<Input>, p: Path) {
    selected(p) && forall k :: 0 <= k < |inputs| ==> inputs[k].path != p
  }

  /** A stray path lies in this directory. */
  predicate HasStray(w: World, selected: Path -> bool, inputs: seq<Input>, dir: Path) {
    exists p | p in w.Keys :: p != [] && Parent(p) == dir && Stray(selected, inputs, p)
  }

  /** Each listed directory was read at its own instant and held no stray path. */
  ghost predicate ClosedAt(w: Timeline, selected: Path -> bool, inputs: seq<Input>, paths: seq<Path>, times: seq<nat>,
      start: nat, end: nat) {
    && |times| == |paths| && start <= end
    && forall i :: 0 <= i < |paths| ==> start <= times[i] <= end && !HasStray(w(times[i]), selected, inputs, paths[i])
  }

  /** Every input is intact when it is hashed, from `start` on. */
  ghost predicate HashesHold(w: Timeline, delay: nat -> nat, start: nat, inputs: seq<Input>) {
    forall k :: 0 <= k < |inputs| ==> Intact(w(Instant(delay, start, 1 + k)), inputs[k])
  }

  /** No directory holds a stray path when it is listed, from `start` on. */
  ghost predicate ListingsHold(
    w: Timeline, delay: nat -> nat, start: nat, paths: seq<Path>, inputs: seq<Input>, selected: Path -> bool)
  {
    forall i :: 0 <= i < |paths| ==> !HasStray(w(Instant(delay, start, 1 + i)), selected, inputs, paths[i])
  }

  /** Every row has its recorded stamp when it is compared, from `start` on. */
  ghost predicate StampsHold(w: Timeline, delay: nat -> nat, start: nat, nodes: seq<Node>) {
    forall i :: 0 <= i < |nodes| ==> Stamp(w(Instant(delay, start, 1 + i)), nodes[i].path) == nodes[i].stamp
  }

  /** The metadata of every path as a capture from `start` on finds it. */
  function Nodes(w: Timeline, delay: nat -> nat, start: nat, paths: seq<Path>): seq<Node> {
    seq(|paths|, i requires 0 <= i < |paths| => Node(paths[i], Stamp(w(Instant(delay, start, 1 + i)), paths[i])))
  }

  /** When the last directory has been listed: after the capture and after the hashing. */
  function Closed(delay: nat -> nat, start: nat, paths: seq<Path>, inputs: seq<Input>): nat {
    Instant(delay, Instant(delay, Instant(delay, start, |paths|), |inputs|), |paths|)
  }

  /** What the source demands, observation by observation: after the capture every input is
      intact, then no listed directory holds a stray path, and only then every path has
      the stamp with which it was captured. */
  ghost predicate Undisturbed(
    w: Timeline, delay: nat -> nat, start: nat, paths: seq<Path>, inputs: seq<Input>, selected: Path -> bool)
  {
    var mid := Instant(delay, start, |paths|);
    && HashesHold(w, delay, mid, inputs)
    && ListingsHold(w, delay, Instant(delay, mid, |inputs|), paths, inputs, selected)
    && StampsHold(w, delay, Closed(delay, start, paths, inputs), Nodes(w, delay, start, paths))
  }

  /** Read the metadata of every path. */
  method Capture(w: Timeline, delay: nat -> nat, start: nat, paths: seq<Path>)
    returns (nodes: seq<Node>, times: seq<nat>, clock: nat)
    ensures nodes == Nodes(w, delay, start, paths) && clock == Instant(delay, start, |paths|)
    ensures CapturedAt(w, paths, nodes, times, start, clock)
    ensures forall i :: 0 <= i < |paths| ==> times[i] == Instant(delay, start, 1 + i)
  {
    clock, nodes, times := start, [], [];
    for i := 0 to |paths|
      invariant CapturedAt(w, paths[..i], nodes, times, start, clock) && clock == Instant(delay, start, i)
      invariant forall k :: 0 <= k < i ==> times[k] == Instant(delay, start, 1 + k)
    {
      clock := clock + delay(clock);
      nodes := nodes + [Node(paths[i], Stamp(w(clock), paths[i]))];
      times := times + [clock];
    }
    assert paths[..|paths|] == paths;
  }

  /** Hash every input, up to the first that is not as recorded. */
  method HashInputs(w: Timeline, delay: nat -> nat, start: nat, inputs: seq<Input>)
    returns (ok: bool, times: seq<nat>, clock: nat)
    ensures ok <==> HashesHold(w, delay, start, inputs)
    ensures ok ==> VerifiedAt(w, inputs, times, start, clock) && clock == Instant(delay, start, |inputs|)
  {
    clock, times := start, [];
    for i := 0 to |inputs|
      invariant VerifiedAt(w, inputs[..i], times, start, clock) && clock == Instant(delay, start, i)
      invariant forall k :: 0 <= k < i ==> Intact(w(Instant(delay, start, 1 + k)), inputs[k])
    {
      clock := clock + delay(clock);
      if !Intact(w(clock), inputs[i]) {
        return false, times, clock;
      }
      times := times + [clock];
    }
    assert inputs[..|inputs|] == inputs;
    ok := true;
  }

  /** List every directory, up to the first that holds a stray path. */
  method ListDirectories(
    w: Timeline, delay: nat -> nat, start: nat, paths: seq<Path>, inputs: seq<Input>, selected: Path -> bool)
    returns (ok: bool, times: seq<nat>, clock: nat)
    ensures ok <==> ListingsHold(w, delay, start, paths, inputs, selected)
    ensures ok ==> ClosedAt(w, selected, inputs, paths, times, start, clock) && clock == Instant(delay, start, |paths|)
  {
    hide HasStray;
    clock, times := start, [];
    for i := 0 to |paths|
      invariant ClosedAt(w, selected, inputs, paths[..i], times, start, clock) && clock == Instant(delay, start, i)
      invariant forall k :: 0 <= k < i ==> !HasStray(w(Instant(delay, start, 1 + k)), selected, inputs, paths[k])
    {
      clock := clock + delay(clock);
      if HasStray(w(clock), selected, inputs, paths[i]) {
        return false, times, clock;
      }
      times := times + [clock];
    }
    assert paths[..|paths|] == paths;
    ok := true;
  }

  /** Compare every row with the metadata found now, up to the first that differs. */
  method MatchMetadata(w: Timeline, delay: nat -> nat, start: nat, nodes: seq<Node>)
    returns (ok: bool, times: seq<nat>, clock: nat)
    ensures ok <==> StampsHold(w, delay, start, nodes)
    ensures ok ==> MatchedAt(w, nodes, times, start) && start <= clock
    ensures ok ==> forall i :: 0 <= i < |nodes| ==> times[i] <= clock
  {
    clock, times := start, [];
    for i := 0 to |nodes|
      invariant start <= clock == Instant(delay, start, i) && MatchedAt(w, nodes[..i], times, start)
      invariant forall k :: 0 <= k < i ==> times[k] <= clock
      invariant forall k :: 0 <= k < i ==> Stamp(w(Instant(delay, start, 1 + k)), nodes[k].path) == nodes[k].stamp
    {
      clock := clock + delay(clock);
      if Stamp(w(clock), nodes[i].path) != nodes[i].stamp {
        return false, times, clock;
      }
      times := times + [clock];
    }
    assert nodes[..|nodes|] == nodes;
    ok := true;
  }

  /** Capture the metadata, then check the inputs and their closure, then compare the metadata again;
      `delay` says how long each observation is held up. */
  method WriteCheckpoint(
    w: Timeline, delay: nat -> nat, start: nat, paths: seq<Path>, inputs: seq<Input>, selected: Path -> bool)
    returns (r: Option<Written>)
    ensures r.Some? <==> Undisturbed(w, delay, start, paths, inputs, selected)
    ensures r.Some? ==>
      && CapturedAt(w, paths, r.value.nodes, r.value.captured, start, r.value.mid)
      && VerifiedAt(w, inputs, r.value.verified, r.value.mid, r.value.closed)
      && ClosedAt(w, selected, inputs, paths, r.value.listed, r.value.mid, r.value.closed)
      && MatchedAt(w, r.value.nodes, r.value.rechecked, r.value.closed)
      && r.value.closed <= r.value.end && forall i :: 0 <= i < |paths| ==> r.value.rechecked[i] <= r.value.end
  {
    hide HasStray, Stamp, HashesHold, ListingsHold, StampsHold;
    var nodes, captured, mid := Capture(w, delay, start, paths);
    var intact, verified, hashed := HashInputs(w, delay, mid, inputs);
    if !intact {
      return None;
    }
    var clean, listed, closed := ListDirectories(w, delay, hashed, paths, inputs, selected);
    if !clean {
      return None;
    }
    var same, rechecked, end := MatchMetadata(w, delay, closed, nodes);
    if !same {
      return None;
    }
    return Some(Written(nodes, captured, mid, verified, listed, closed, rechecked, end));
  }

  /** Compare each recorded row with the metadata found now. */
  method ReadValidCheckpoint(w: Timeline, delay: nat -> nat, start: nat, nodes: seq<Node>)
    returns (hit: bool, times: seq<nat>)
    ensures hit <==> StampsHold(w, delay, start, nodes)
    ensures hit ==> MatchedAt(w, nodes, times, start)
  {
    var end: nat;
    hit, times, end := MatchMetadata(w, delay, start, nodes);
  }

  ghost predicate MatchedAt(w: Timeline, nodes: seq<Node>, times: seq<nat>, start: nat) {
    && |times| == |nodes|
    && forall i :: 0 <= i < |nodes| ==> start <= times[i] && Stamp(w(times[i]), nodes[i].path) == nodes[i].stamp
  }

  // --------------------------------------------------------------------- soundness

  /** The listing has every directory on the way, each before what it contains. */
  ghost predicate ParentsFirst(paths: seq<Path>) {
    forall i :: 0 <= i < |paths| && paths[i] != [] ==> exists j :: 0 <= j < i && paths[j] == Parent(paths[i])
  }

  /** A listed path that is absent when captured, present later and before the
      lookup begins, cannot make a hit: some directory above it has changed. */
  lemma {:induction false} AbsentWhenCapturedStaysAbsent(
    w: Timeline, paths: seq<Path>, nodes: seq<Node>, captured: seq<nat>, s: nat, mid: nat,
    times: seq<nat>, start: nat, i: nat, t: nat)
    requires Honest(w) && ParentsFirst(paths) && CapturedAt(w, paths, nodes, captured, s, mid)
    requires MatchedAt(w, nodes, times, start) && i < |paths| && captured[i] <= t <= start && mid <= start
    ensures nodes[i].stamp.None? ==> paths[i] !in w(t)
    decreases i
  {
    var p := paths[i];
    if nodes[i].stamp.None? {
      assert p !in w(captured[i]) && p != [];
      var j :| 0 <= j < i && paths[j] == Parent(p);
      AbsentWhenCapturedStaysAbsent(w, paths, nodes, captured, s, mid, times, start, j, t);
      assert captured[j] <= captured[i];
      if nodes[j].stamp.Some? {
        var c, l := captured[j], times[j];
        assert w(c)[Parent(p)].stamp == w(l)[Parent(p)].stamp;
        assert w(captured[i])[Parent(p)] == w(c)[Parent(p)] && w(t)[Parent(p)] == w(c)[Parent(p)];
      }
    }
  }

  /** Nothing moves under a checkpoint while it is written: every captured path, present or
      absent, is as it was captured until the inputs are hashed and the directories listed. */
  lemma NothingMovesMeanwhile(
    w: Timeline, paths: seq<Path>, nodes: seq<Node>, captured: seq<nat>, s: nat, mid: nat,
    rechecked: seq<nat>, closed: nat, i: nat, t: nat)
    requires Honest(w) && ParentsFirst(paths) && CapturedAt(w, paths, nodes, captured, s, mid) && mid <= closed
    requires MatchedAt(w, nodes, rechecked, closed) && i < |paths| && captured[i] <= t <= closed
    ensures paths[i] in w(t) <==> paths[i] in w(captured[i])
    ensures paths[i] in w(t) ==> w(t)[paths[i]] == w(captured[i])[paths[i]]
  {
    if nodes[i].stamp.Some? {
      assert w(captured[i])[paths[i]].stamp == w(rechecked[i])[paths[i]].stamp;
    } else {
      AbsentWhenCapturedStaysAbsent(w, paths, nodes, captured, s, mid, rechecked, closed, i, t);
    }
  }

  /** So an edit is noticed: a captured path that was present and is gone or changed at some
      instant up to the last hashing or listing leaves no checkpoint. */
  lemma EditIsNoticed(
    w: Timeline, delay: nat -> nat, start: nat, paths: seq<Path>, inputs: seq<Input>, selected: Path -> bool,
    i: nat, t: nat)
    requires StampsNeverRepeat(w) && i < |paths|
    requires Instant(delay, start, 1 + i) <= t <= Closed(delay, start, paths, inputs)
    requires var p, c := paths[i], w(Instant(delay, start, 1 + i));
             p in c && !(p in w(t) && w(t)[p] == c[p])
    ensures !Undisturbed(w, delay, start, paths, inputs, selected)
  {
    hide HashesHold, ListingsHold, HasStray;
    var closed := Closed(delay, start, paths, inputs);
    InstantsRise(delay, closed, 0, 1 + i);
    assert Nodes(w, delay, start, paths)[i].path == paths[i];
    assert Stamp(w(Instant(delay, closed, 1 + i)), paths[i]) != Stamp(w(Instant(delay, start, 1 + i)), paths[i]);
  }

  /** Checkpoint soundness: if a checkpoint was written and a later lookup hits, then
      every input had exactly the recorded content from the instant it was verified
      to the instant its row was compared, whatever was edited meanwhile. */
  lemma CheckpointIsSound(
    w: Timeline, paths: seq<Path>, inputs: seq<Input>, written: Written, s: nat,
    times: seq<nat>, start: nat, k: nat, i: nat)
    requires Honest(w) && ParentsFirst(paths)
    requires CapturedAt(w, paths, written.nodes, written.captured, s, written.mid)
    requires VerifiedAt(w, inputs, written.verified, written.mid, written.closed)
    requires MatchedAt(w, written.nodes, times, start) && written.closed <= start
    requires k < |inputs| && i < |paths| && paths[i] == inputs[k].path
    ensures forall t: nat :: written.verified[k] <= t <= times[i] ==>
              paths[i] in w(t) && w(t)[paths[i]].content == inputs[k].content
  {
    var p := inputs[k].path;
    var v := written.verified[k];
    assert p in w(v);
    AbsentWhenCapturedStaysAbsent(w, paths, written.nodes, written.captured, s, written.mid, times, start, i, v);
    var c := written.captured[i];
    assert w(c)[p].stamp == w(times[i])[p].stamp;
    forall t: nat | v <= t <= times[i]
      ensures p in w(t) && w(t)[p].content == inputs[k].content
    {
      assert p in w(t) && w(t)[p] == w(c)[p] && w(v)[p] == w(c)[p];
    }
  }

  /** While a listed directory keeps its stamp from capture to comparison, nothing is
      created in it or removed from it. */
  lemma ListedDirectoryIsFrozen(
    w: Timeline, paths: seq<Path>, nodes: seq<Node>, captured: seq<nat>, s: nat, mid: nat,
    times: seq<nat>, start: nat, i: nat, p: Path, t: nat)
    requires Honest(w) && CapturedAt(w, paths, nodes, captured, s, mid) && MatchedAt(w, nodes, times, start)
    requires i < |paths| && nodes[i].stamp.Some? && p != [] && Parent(p) == paths[i]
    requires captured[i] <= t <= times[i]
    ensures p in w(t) <==> p in w(captured[i])
  {
    var c, l := captured[i], times[i];
    assert w(c)[paths[i]].stamp == w(l)[paths[i]].stamp;
    assert w(t)[paths[i]] == w(c)[paths[i]];
    assert w(c)[Parent(p)].stamp == w(t)[Parent(p)].stamp;
  }

  /** A hit also rules out new inputs: no path that the registry selects and that is not
      an input was in a listed directory at any instant from the closure check until
      that directory's row was compared, or, if the directory itself was absent, until
      the lookup began. */
  lemma NoNewInput(
    w: Timeline, selected: Path -> bool, paths: seq<Path>, inputs: seq<Input>, written: Written, s: nat,
    times: seq<nat>, start: nat, i: nat, p: Path, t: nat)
    requires Honest(w) && ParentsFirst(paths)
    requires CapturedAt(w, paths, written.nodes, written.captured, s, written.mid)
    requires ClosedAt(w, selected, inputs, paths, written.listed, written.mid, written.closed)
    requires MatchedAt(w, written.nodes, times, start) && written.closed <= start
    requires i < |paths| && p != [] && Parent(p) == paths[i] && Stray(selected, inputs, p)
    requires written.listed[i] <= t <= times[i] && (written.nodes[i].stamp.Some? || t <= start)
    ensures p !in w(t)
  {
    var v := written.listed[i];
    if written.nodes[i].stamp.Some? {
      ListedDirectoryIsFrozen(w, paths, written.nodes, written.captured, s, written.mid, times, start, i, p, v);
      ListedDirectoryIsFrozen(w, paths, written.nodes, written.captured, s, written.mid, times, start, i, p, t);
      assert !HasStray(w(v), selected, inputs, paths[i]);
    } else {
      AbsentWhenCapturedStaysAbsent(w, paths, written.nodes, written.captured, s, written.mid, times, start, i, t);
    }
  }

  /** A tree at rest gets a checkpoint, and a later lookup hits, exactly if every input is there
      with its recorded content and every selected path in a listed directory is an input. */
  lemma TreeAtRest(
    w: World, delay: nat -> nat, start: nat, later: nat, paths: seq<Path>, inputs: seq<Input>, selected: Path -> bool)
    ensures var still := (t: nat) => w;
            && StampsHold(still, delay, later, Nodes(still, delay, start, paths))
            && (Undisturbed(still, delay, start, paths, inputs, selected) <==>
                  && (forall k :: 0 <= k < |inputs| ==>
                        inputs[k].path in w && w[inputs[k].path].content == inputs[k].content)
                  && (forall p :: p in w && p != [] && Parent(p) in paths && selected(p) ==>
                        exists k :: 0 <= k < |inputs| && inputs[k].path == p))
  {
    var still := (t: nat) => w;
    hide Instant;
    assert StampsHold(still, delay, Closed(delay, start, paths, inputs), Nodes(still, delay, start, paths));
    var hashed := Instant(delay, Instant(delay, start, |paths|), |inputs|);
    if ListingsHold(still, delay, hashed, paths, inputs, selected) {
      forall p | p in w && p != [] && Parent(p) in paths && selected(p)
        ensures exists k :: 0 <= k < |inputs| && inputs[k].path == p
      {
        var i :| 0 <= i < |paths| && paths[i] == Parent(p);
        assert !HasStray(still(Instant(delay, hashed, 1 + i)), selected, inputs, paths[i]);
      }
    }
  }
}
