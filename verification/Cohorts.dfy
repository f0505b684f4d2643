/** Cold-gate cohorts (scripts/cold_multicore_gate.py): receipts published by
    linking before unlinking, completion at the COMPLETE link, and recovery of
    stale runs by other controllers, with a crash possible at every step. */
module Cohorts {
  import opened Base

  type Pid = nat
  type Inode = nat
  type Token = string

  const COHORT := 0
  const REPORT := 5
  const COMPLETE := 6
  const ARMS := 4
  const KINDS := 7
  const LAST := 21

  /** Digests are free constructors over what they are taken of. */
  datatype Authority = Authority(nonce: string, source: string)
  datatype CohortId = CohortSha(authority: Authority)
  datatype Arm = Arm(cohort: CohortId, sequence: nat, predecessor: Option<ArmDigest>, measured: string)
  datatype ArmDigest = ArmSha(arm: Arm)
  datatype Report = Aggregate(arms: seq<Arm>, authority: Authority)
  datatype ReportDigest = ReportSha(report: Report)
  datatype Completion = Completion(cohort: CohortId, armCount: nat, finalArm: ArmDigest, report: ReportDigest)

  datatype Value =
    | CohortValue(authority: Authority)
    | ArmValue(arm: Arm)
    | ReportValue(report: Report)
    | CompleteValue(completion: Completion)

  /** A receipt under its own name or under a temporary one. Kind 0 is cohort.json,
      1 to 4 are the arm receipts, 5 is REPORT.json and 6 is COMPLETE.json. */
  datatype FileName = Named(kind: nat) | Temp(kind: nat, token: Token)

  datatype File = File(inode: Inode, value: Value)

  type Files = map<FileName, File>

  function Links(files: Files, inode: Inode): nat {
    |set n | n in files && files[n].inode == inode|
  }

  /** _read_exact_json: the receipt must have exactly one link. */
  function Read(files: Files, kind: nat): Option<Value> {
    if Named(kind) in files && Links(files, files[Named(kind)].inode) == 1 then Some(files[Named(kind)].value) else None
  }

  // ------------------------------------------------------------- completed cohorts

  /** The arm receipts, each naming its predecessor. */
  predicate ArmChain(arms: seq<Arm>, id: CohortId) {
    && |arms| == ARMS
    && forall i :: 0 <= i < ARMS ==>
         && arms[i].cohort == id && arms[i].sequence == i + 1
         && arms[i].predecessor == (if i == 0 then None else Some(ArmSha(arms[i - 1])))
  }

  /** _read_persisted_arm_chain. */
  function ReadArm(files: Files, kind: nat): Option<Arm> {
    var v :- Read(files, kind);
    if v.ArmValue? then Some(v.arm) else None
  }

  function ReadArms(files: Files, id: CohortId): Option<seq<Arm>> {
    if exists n :: n in files && 1 <= n.kind <= ARMS && n.Temp? then None
    else
      var a :- ReadArm(files, 1);
      var b :- ReadArm(files, 2);
      var c :- ReadArm(files, 3);
      var d :- ReadArm(files, 4);
      if ArmChain([a, b, c, d], id) then Some([a, b, c, d]) else None
  }

  /** _valid_complete: the whole directory is exactly one finished cohort. */
  predicate ValidComplete(files: Files, authority: Authority) {
    var id := CohortSha(authority);
    var complete := Read(files, COMPLETE);
    var report := Read(files, REPORT);
    var arms := ReadArms(files, id);
    && complete.Some? && complete.value.CompleteValue?
    && complete.value.completion.cohort == id && complete.value.completion.armCount == ARMS
    && arms.Some? && |arms.value| == ARMS
    && report == Some(ReportValue(Aggregate(arms.value, authority)))
    && complete.value.completion.report == ReportSha(Aggregate(arms.value, authority))
    && complete.value.completion.finalArm == ArmSha(arms.value[ARMS - 1])
    && (forall n :: n in files ==> n.Named?)
    && Named(COHORT) in files
  }

  /** _recover_completed_receipt_publication: finish only a link-before-unlink. */
  function Repair(files: Files): Option<Files>
    requires Named(COMPLETE) in files
  {
    var inode := files[Named(COMPLETE)].inode;
    var temps := set n | n in files && n.Temp? && n.kind == COMPLETE;
    if Links(files, inode) == 1 && temps == {} then Some(files)
    else if |temps| != 1 || Links(files, inode) != 2 then None
    else if exists n :: n in temps && files[n] != files[Named(COMPLETE)] then None
    else Some(map n | n in files && n !in temps :: files[n])
  }

  // --------------------------------------------------------------- writing receipts

  /** What an owner writes, in order: the value of each receipt and the temporary
      name and inode it will get. */
  datatype Plan = Plan(authority: Authority, arms: seq<Arm>, inodes: seq<Inode>, tokens: seq<Token>)

  predicate PlanOk(p: Plan) {
    && ArmChain(p.arms, CohortSha(p.authority))
    && |p.inodes| == KINDS && |p.tokens| == KINDS
    && forall i, j :: 0 <= i < j < KINDS ==> p.inodes[i] != p.inodes[j]
  }

  function ValueOf(p: Plan, kind: nat): Value
    requires PlanOk(p) && kind < KINDS
  {
    if kind == COHORT then CohortValue(p.authority)
    else if kind <= ARMS then ArmValue(p.arms[kind - 1])
    else if kind == REPORT then ReportValue(Aggregate(p.arms, p.authority))
    else CompleteValue(Completion(CohortSha(p.authority), ARMS, ArmSha(p.arms[ARMS - 1]),
      ReportSha(Aggregate(p.arms, p.authority))))
  }

  function FileOf(p: Plan, kind: nat): File
    requires PlanOk(p) && kind < KINDS
  {
    File(p.inodes[kind], ValueOf(p, kind))
  }

  /** Step `s` of the 21 steps: each receipt is created under its temporary name,
      linked under its own, and the temporary name unlinked. */
  function Write(files: Files, s: nat, p: Plan): Files
    requires PlanOk(p) && s < LAST
  {
    var kind := s / 3;
    match s % 3
    case 0 => files[Temp(kind, p.tokens[kind]) := FileOf(p, kind)]
    case 1 => files[Named(kind) := FileOf(p, kind)]
    case _ => files - {Temp(kind, p.tokens[kind])}
  }

  /** The name exists after the first `s` steps. */
  predicate Present(n: FileName, s: nat, p: Plan)
    requires PlanOk(p)
  {
    && n.kind < KINDS
    && if n.Named? then s >= 3 * n.kind + 2
       else n.token == p.tokens[n.kind] && 3 * n.kind + 1 <= s <= 3 * n.kind + 2
  }

  /** One step adds or removes one name. */
  lemma PresentStep(n: FileName, s: nat, p: Plan)
    requires PlanOk(p) && s < LAST
    ensures var kind := s / 3;
            Present(n, s + 1, p) <==>
              match s % 3
              case 0 => Present(n, s, p) || n == Temp(kind, p.tokens[kind])
              case 1 => Present(n, s, p) || n == Named(kind)
              case _ => Present(n, s, p) && n != Temp(kind, p.tokens[kind])
  {
    hide PlanOk;
    assert s == 3 * (s / 3) + s % 3;
  }

  /** The directory after exactly the first `s` steps. */
  ghost predicate AtStage(files: Files, s: nat, p: Plan) {
    && PlanOk(p) && s <= LAST
    && (forall n :: n in files <==> Present(n, s, p))
    && (forall n :: n in files ==> files[n] == FileOf(p, n.kind))
  }

  lemma WriteAdvances(files: Files, s: nat, p: Plan)
    requires AtStage(files, s, p) && s < LAST
    ensures AtStage(Write(files, s, p), s + 1, p)
  {
    forall n
      ensures n in Write(files, s, p) <==> Present(n, s + 1, p)
    {
      PresentStep(n, s, p);
    }
    hide FileOf, PlanOk, Present;
  }

  /** A receipt is readable exactly once its temporary name is gone. */
  lemma ReadAtStage(files: Files, s: nat, p: Plan, kind: nat)
    requires AtStage(files, s, p) && kind < KINDS
    ensures Read(files, kind) == if s >= 3 * kind + 3 then Some(ValueOf(p, kind)) else None
    ensures s == 3 * kind + 2 ==> Links(files, p.inodes[kind]) == 2
    ensures s >= 3 * kind + 3 ==> Links(files, p.inodes[kind]) == 1
  {
    var names := set n | n in files && files[n].inode == p.inodes[kind];
    assert forall n :: n in names ==> n.kind == kind;
    if s >= 3 * kind + 3 {
      assert names == {Named(kind)};
    } else if s == 3 * kind + 2 {
      assert names == {Named(kind), Temp(kind, p.tokens[kind])};
    }
  }

  /** A finished directory passes the completeness check. */
  lemma FinishedIsValid(files: Files, p: Plan)
    requires AtStage(files, LAST, p)
    ensures ValidComplete(files, p.authority)
  {
    forall kind: nat | kind < KINDS
      ensures Read(files, kind) == Some(ValueOf(p, kind))
    {
      ReadAtStage(files, LAST, p, kind);
    }
    assert Read(files, 1) == Some(ArmValue(p.arms[0])) && Read(files, 2) == Some(ArmValue(p.arms[1]));
    assert Read(files, 3) == Some(ArmValue(p.arms[2])) && Read(files, 4) == Some(ArmValue(p.arms[3]));
    assert p.arms == [p.arms[0], p.arms[1], p.arms[2], p.arms[3]];
    assert ReadArms(files, CohortSha(p.authority)) == Some(p.arms);
  }

  /** Completion is atomic at the COMPLETE link: whatever step its owner died at,
      a directory with that link is repaired into a finished one. */
  lemma LinkedCompleteIsRepaired(files: Files, s: nat, p: Plan)
    requires AtStage(files, s, p) && Named(COMPLETE) in files
    ensures Repair(files).Some? && AtStage(Repair(files).value, LAST, p) &&
      ValidComplete(Repair(files).value, p.authority)
  {
    ReadAtStage(files, s, p, COMPLETE);
    var temps := set n | n in files && n.Temp? && n.kind == COMPLETE;
    if s == LAST {
      assert temps == {};
    } else {
      assert temps == {Temp(COMPLETE, p.tokens[COMPLETE])};
      assert AtStage(Repair(files).value, LAST, p);
    }
    FinishedIsValid(Repair(files).value, p);
  }

  /** Conversely, a directory of receipts that passes the check is a finished one. */
  lemma ValidIsFinished(files: Files, authority: Authority)
    requires ValidComplete(files, authority) && Read(files, COHORT) == Some(CohortValue(authority))
    requires forall n :: n in files ==> n.kind < KINDS
    ensures exists p: Plan :: p.authority == authority && AtStage(files, LAST, p)
  {
    var arms := ReadArms(files, CohortSha(authority)).value;
    assert forall kind: nat :: kind < KINDS ==> Named(kind) in files;
    var inodes := seq(KINDS, (i: nat) requires i < KINDS && Named(i) in files => files[Named(i)].inode);
    var p := Plan(authority, arms, inodes, ["", "", "", "", "", "", ""]);
    forall i: nat, j: nat | i < j < KINDS
      ensures inodes[i] != inodes[j]
    {
      SingleLink(files, Named(i), Named(j));
    }
    assert PlanOk(p);
    forall n | n in files
      ensures files[n] == FileOf(p, n.kind)
    {
      assert n == Named(n.kind);
      assert n.kind in {0, 1, 2, 3, 4, 5, 6};
    }
    assert AtStage(files, LAST, p);
  }

  /** The chain of arm receipts is read exactly if no arm has a temporary name left and the four
      receipts are there, readable, numbered, of this cohort, and each names the digest of
      the one before. */
  lemma ReadArmsIsExact(files: Files, id: CohortId, arms: seq<Arm>)
    ensures ReadArms(files, id) == Some(arms) <==>
      && (forall n :: n in files && n.Temp? ==> n.kind == 0 || n.kind > ARMS)
      && |arms| == ARMS
      && ArmAt(files, id, arms, 0) && ArmAt(files, id, arms, 1)
      && ArmAt(files, id, arms, 2) && ArmAt(files, id, arms, 3)
      && arms[0].predecessor.None? && arms[1].predecessor == Some(ArmSha(arms[0]))
      && arms[2].predecessor == Some(ArmSha(arms[1])) && arms[3].predecessor == Some(ArmSha(arms[2]))
  {
    hide Read;
    ChainIsFour(arms, id);
    hide ArmChain;
    if ReadArms(files, id).Some? {
      var v := ReadArms(files, id).value;
      ChainIsFour(v, id);
      assert v == [v[0], v[1], v[2], v[3]];
    }
    if |arms| == ARMS {
      assert arms == [arms[0], arms[1], arms[2], arms[3]];
    }
  }

  lemma Linked(arms: seq<Arm>, id: CohortId, i: nat)
    requires ArmChain(arms, id) && i < ARMS
    ensures arms[i].predecessor == if i == 0 then None else Some(ArmSha(arms[i - 1]))
  {
  }

  lemma ChainIsFour(arms: seq<Arm>, id: CohortId)
    ensures ArmChain(arms, id) <==>
      && |arms| == ARMS
      && arms[0].cohort == arms[1].cohort == arms[2].cohort == arms[3].cohort == id
      && arms[0].sequence == 1 && arms[1].sequence == 2 && arms[2].sequence == 3 && arms[3].sequence == 4
      && arms[0].predecessor.None? && arms[1].predecessor == Some(ArmSha(arms[0]))
      && arms[2].predecessor == Some(ArmSha(arms[1])) && arms[3].predecessor == Some(ArmSha(arms[2]))
  {
    if ArmChain(arms, id) {
      assert arms[0].cohort == id && arms[1].cohort == id && arms[2].cohort == id && arms[3].cohort == id;
      Linked(arms, id, 0);
      Linked(arms, id, 1);
      Linked(arms, id, 2);
      Linked(arms, id, 3);
    } else if |arms| == ARMS {
      var i :| 0 <= i < ARMS &&
        !(arms[i].cohort == id && arms[i].sequence == i + 1 &&
          arms[i].predecessor == (if i == 0 then None else Some(ArmSha(arms[i - 1]))));
      assert i == 0 || i == 1 || i == 2 || i == 3;
    }
  }

  /** Arm `i` is in its own file, of this cohort and numbered. */
  predicate ArmAt(files: Files, id: CohortId, arms: seq<Arm>, i: nat)
    requires i < |arms|
  {
    Read(files, i + 1) == Some(ArmValue(arms[i])) && arms[i].cohort == id && arms[i].sequence == i + 1
  }

  /** The receipt under its own name and one temporary name, and under no other. */
  ghost predicate HalfPublished(files: Files, temp: FileName)
    requires Named(COMPLETE) in files
  {
    && temp in files && temp.Temp? && temp.kind == COMPLETE && files[temp] == files[Named(COMPLETE)]
    && (forall n :: n in files && n.Temp? && n.kind == COMPLETE ==> n == temp)
    && forall n :: n in files && files[n].inode == files[temp].inode ==> n == temp || n == Named(COMPLETE)
  }

  /** The repair leaves a receipt with one name alone, drops the temporary name of a
      half-published one, and refuses everything else. */
  lemma RepairIsExact(files: Files)
    requires Named(COMPLETE) in files
    ensures var whole := forall n :: n in files && n != Named(COMPLETE) ==>
              files[n].inode != files[Named(COMPLETE)].inode && !(n.Temp? && n.kind == COMPLETE);
            && (whole ==> Repair(files) == Some(files))
            && (forall temp :: HalfPublished(files, temp) ==> Repair(files) == Some(files - {temp}))
            && (Repair(files).Some? ==> whole || exists temp :: HalfPublished(files, temp))
  {
    var own := Named(COMPLETE);
    var names := set n | n in files && files[n].inode == files[own].inode;
    var temps := set n | n in files && n.Temp? && n.kind == COMPLETE;
    assert own in names;
    if Repair(files).Some? {
      if temps == {} {
        OnlyOne(names, own);
        assert forall n :: n in files && files[n].inode == files[own].inode ==> n in names;
        assert forall n :: n in files && n.Temp? && n.kind == COMPLETE ==> n in temps;
      } else {
        var temp :| temp in temps;
        OnlyOne(temps, temp);
        assert files[temp] == files[own];
        OnlyOne(names - {temp}, own);
        assert forall n :: n in files && n.Temp? && n.kind == COMPLETE ==> n in temps;
        assert forall n :: n in files && files[n].inode == files[own].inode ==> n in names;
        assert forall n :: n in names ==> n == temp || n in names - {temp};
        assert HalfPublished(files, temp);
      }
    }
    forall temp | HalfPublished(files, temp)
      ensures Repair(files) == Some(files - {temp})
    {
      assert temps == {temp} && names == {own, temp};
      assert (map n | n in files && n !in temps :: files[n]) == files - {temp};
    }
    if forall n :: n in files && n != own ==> files[n].inode != files[own].inode && !(n.Temp? && n.kind == COMPLETE) {
      assert names == {own} && temps == {};
    }
  }

  lemma OnlyOne<T>(s: set<T>, x: T)
    requires |s| == 1 && x in s
    ensures s == {x}
  {
    assert |s - {x}| == 0;
  }

  /** Each arm fixes its predecessor, so the last one fixes the whole chain and its cohort. */
  lemma LastArmFixesChain(a: seq<Arm>, b: seq<Arm>, id: CohortId, id': CohortId)
    requires ArmChain(a, id) && ArmChain(b, id') && a[ARMS - 1] == b[ARMS - 1]
    ensures a == b && id == id'
  {
    assert a[2] == b[2];
    assert a[1] == b[1];
    assert a[0] == b[0];
  }

  /** A completion receipt fixes everything in its cohort: valid directories whose COMPLETE
      names the same last arm hold the same arms and the same report, for one authority. */
  lemma CompletionFixesCohort(x: Files, y: Files, a: Authority, b: Authority)
    requires ValidComplete(x, a) && ValidComplete(y, b)
    requires Read(x, COMPLETE).value.completion.finalArm == Read(y, COMPLETE).value.completion.finalArm
    ensures a == b && ReadArms(x, CohortSha(a)) == ReadArms(y, CohortSha(b))
    ensures Read(x, REPORT) == Read(y, REPORT) && Read(x, COMPLETE) == Read(y, COMPLETE)
  {
    hide Read, ArmChain;
    var v, w := ReadArms(x, CohortSha(a)).value, ReadArms(y, CohortSha(b)).value;
    LastArmFixesChain(v, w, CohortSha(a), CohortSha(b));
  }

  lemma SingleLink(files: Files, a: FileName, b: FileName)
    requires a in files && b in files && a != b && Links(files, files[a].inode) == 1
    ensures files[a].inode != files[b].inode
  {
    var names := set n | n in files && files[n].inode == files[a].inode;
    assert a in names && |names| == 1;
    assert |names - {a}| == |names| - 1;
    assert b !in names - {a};
  }

  // -------------------------------------------------------------------- the machine

  datatype Name = CandidateDir(token: Token) | CohortDir(id: CohortId)

  /** A directory, who holds its lock, and what its creator set out to write. */
  datatype Dir = Dir(files: Files, owner: Option<Pid>, plan: Plan)

  /** How far a recovery has come: the names of its listing that it has not visited yet,
      in whatever order it takes them, and the cohorts it found held by a live owner. */
  datatype Scan = Scan(left: set<Name>, skipped: set<CohortId>)

  function Past(scan: Scan, n: Name): Scan {
    scan.(left := scan.left - {n})
  }

  /** A controller. Scanning, Creating, Repairing and Cleaning hold admission. */
  datatype Pc =
    | Out
    | Scanning(scan: Scan)
    | Creating(token: Token, s: nat)
    | Owning(id: CohortId, s: nat)
    | Repairing(id: CohortId, scan: Scan)
    | Cleaning(name: Name, scan: Scan)

  datatype State = State(dirs: map<Name, Dir>, pcs: map<Pid, Pc>)

  datatype Event =
    | Begin(pid: Pid)
    | MakeCandidate(pid: Pid, token: Token, plan: Plan)
    | WriteStep(pid: Pid)
    | RenameFinal(pid: Pid)
    | Close(pid: Pid)
    | FindCandidate(pid: Pid, token: Token)
    | FindCohort(pid: Pid, id: CohortId)
    | RepairStep(pid: Pid)
    | RemoveFile(pid: Pid, file: FileName)
    | RemoveDir(pid: Pid)
    | Die(pid: Pid)

  function PcOf(st: State, p: Pid): Pc {
    if p in st.pcs then st.pcs[p] else Out
  }

  predicate HasAdmission(pc: Pc) {
    !pc.Out? && !pc.Owning?
  }

  predicate AdmissionFree(st: State) {
    forall p :: p in st.pcs ==> !HasAdmission(st.pcs[p])
  }

  function Goto(st: State, p: Pid, pc: Pc): State {
    st.(pcs := st.pcs[p := pc])
  }

  /** The next file a cleanup removes: cohort.json sorts after all the others. */
  predicate NextRemoved(files: Files, n: FileName) {
    n in files && (n == Named(COHORT) ==> files.Keys == {n})
  }

  /** Dropping the locks of a process. */
  function Unlock(dirs: map<Name, Dir>, p: Pid): map<Name, Dir> {
    map n | n in dirs :: if dirs[n].owner == Some(p) then dirs[n].(owner := None) else dirs[n]
  }

  /** The state after an event; None when it cannot happen. A refusal ends the
      controller, which is what turns up as Out. */
  ghost function Next(st: State, e: Event): Option<State> {
    var pc := PcOf(st, e.pid);
    match e
    case Begin(p) =>
      if pc.Out? && AdmissionFree(st) then Some(Goto(st, p, Scanning(Scan(st.dirs.Keys, {})))) else None
    case MakeCandidate(p, token, plan) =>
      if !pc.Scanning? || pc.scan.left != {} || CandidateDir(token) in st.dirs || !PlanOk(plan) ||
        CohortDir(CohortSha(plan.authority)) in st.dirs then None
      else Some(State(st.dirs[CandidateDir(token) := Dir(map[], Some(p), plan)], st.pcs[p := Creating(token, 0)]))
    case WriteStep(p) =>
      if pc.Creating? && pc.s < 3 && CandidateDir(pc.token) in st.dirs &&
        PlanOk(st.dirs[CandidateDir(pc.token)].plan) then
        var d := st.dirs[CandidateDir(pc.token)];
        Some(State(st.dirs[CandidateDir(pc.token) := d.(files := Write(d.files, pc.s, d.plan))],
          st.pcs[p := Creating(pc.token, pc.s + 1)]))
      else if pc.Owning? && pc.s < LAST && CohortDir(pc.id) in st.dirs && PlanOk(st.dirs[CohortDir(pc.id)].plan) then
        var d := st.dirs[CohortDir(pc.id)];
        Some(State(st.dirs[CohortDir(pc.id) := d.(files := Write(d.files, pc.s, d.plan))],
          st.pcs[p := Owning(pc.id, pc.s + 1)]))
      else None
    case RenameFinal(p) =>
      if !pc.Creating? || pc.s != 3 || CandidateDir(pc.token) !in st.dirs then None
      else
        var d := st.dirs[CandidateDir(pc.token)];
        var id := CohortSha(d.plan.authority);
        Some(State((st.dirs - {CandidateDir(pc.token)})[CohortDir(id) := d], st.pcs[p := Owning(id, 3)]))
    case Close(p) =>
      if pc.Owning? || pc.Scanning? then Some(State(Unlock(st.dirs, p), st.pcs[p := Out])) else None
    case FindCandidate(p, token) =>
      var n := CandidateDir(token);
      if !pc.Scanning? || n !in pc.scan.left || n !in st.dirs then None
      else Some(Goto(st, p, Cleaning(n, Past(pc.scan, n))))
    case FindCohort(p, id) =>
      var n := CohortDir(id);
      if !pc.Scanning? || n !in pc.scan.left || n !in st.dirs then None
      else
        var d := st.dirs[n];
        var scan := Past(pc.scan, n);
        if !Admissible(d.files, id) then Some(State(Unlock(st.dirs, p), st.pcs[p := Out]))
        else if d.owner.Some? then Some(Goto(st, p, Scanning(scan.(skipped := scan.skipped + {id}))))
        else Some(State(st.dirs[n := d.(owner := Some(p))],
                        st.pcs[p := if Named(COMPLETE) in d.files then Repairing(id, scan) else Cleaning(n, scan)]))
    case RepairStep(p) =>
      if !pc.Repairing? || CohortDir(pc.id) !in st.dirs || Named(COMPLETE) !in st.dirs[CohortDir(pc.id)].files then None
      else
        var d := st.dirs[CohortDir(pc.id)];
        if Repair(d.files).None? || !ValidComplete(Repair(d.files).value, pc.id.authority)
        then Some(State(Unlock(st.dirs, p), st.pcs[p := Out]))
        else Some(State(st.dirs[CohortDir(pc.id) := d.(files := Repair(d.files).value, owner := None)],
          st.pcs[p := Scanning(pc.scan)]))
    case RemoveFile(p, n) =>
      if !pc.Cleaning? || pc.name !in st.dirs || !NextRemoved(st.dirs[pc.name].files, n) then None
      else
        var d := st.dirs[pc.name];
        Some(st.(dirs := st.dirs[pc.name := d.(files := d.files - {n})]))
    case RemoveDir(p) =>
      if !pc.Cleaning? || pc.name !in st.dirs || st.dirs[pc.name].files != map[] then None
      else Some(State(st.dirs - {pc.name}, st.pcs[p := Scanning(pc.scan)]))
    case Die(p) => Some(State(Unlock(st.dirs, p), st.pcs[p := Out]))
  }

  /** A stale cohort is looked into only when its cohort.json reads back and is
      the one its directory is named after. */
  predicate Admissible(files: Files, id: CohortId) {
    Read(files, COHORT) == Some(CohortValue(id.authority))
  }

  // ---------------------------------------------------------------------- invariants

  /** What is left of a cohort that some recovery began to remove. */
  ghost predicate Ruin(files: Files, id: CohortId) {
    && Named(COMPLETE) !in files
    && (files == map[] || Admissible(files, id))
  }

  /** Every cohort directory is as its owner left it, or is being removed. */
  ghost predicate CohortInv(d: Dir, id: CohortId) {
    || (d.plan.authority == id.authority && exists s :: 3 <= s && AtStage(d.files, s, d.plan))
    || Ruin(d.files, id)
  }

  ghost predicate OwnerInv(st: State) {
    forall n :: n in st.dirs && st.dirs[n].owner.Some? ==>
      var pc := PcOf(st, st.dirs[n].owner.value);
      if n.CandidateDir? then pc.Creating? && pc.token == n.token
      else (pc.Owning? && pc.id == n.id) || (pc.Repairing? && pc.id == n.id) || (pc.Cleaning? && pc.name == n)
  }

  ghost predicate PointInv(st: State, p: Pid) {
    match PcOf(st, p)
    case Out => true
    case Scanning(_) => true
    case Creating(token, s) =>
      && CandidateDir(token) in st.dirs && st.dirs[CandidateDir(token)].owner == Some(p)
      && s <= 3 && AtStage(st.dirs[CandidateDir(token)].files, s, st.dirs[CandidateDir(token)].plan)
      && CohortDir(CohortSha(st.dirs[CandidateDir(token)].plan.authority)) !in st.dirs
    case Owning(id, s) =>
      && CohortDir(id) in st.dirs && st.dirs[CohortDir(id)].owner == Some(p)
      && 3 <= s && AtStage(st.dirs[CohortDir(id)].files, s, st.dirs[CohortDir(id)].plan)
      && st.dirs[CohortDir(id)].plan.authority == id.authority
    case Repairing(id, _) =>
      && CohortDir(id) in st.dirs && st.dirs[CohortDir(id)].owner == Some(p)
      && Named(COMPLETE) in st.dirs[CohortDir(id)].files
    case Cleaning(name, _) =>
      && name in st.dirs
      && (name.CohortDir? ==> st.dirs[name].owner == Some(p) && Ruin(st.dirs[name].files, name.id))
  }

  ghost predicate Inv(st: State) {
    && Exclusive(st)
    && OwnerInv(st)
    && (forall p :: PointInv(st, p))
    && (forall n :: n in st.dirs && n.CohortDir? ==> CohortInv(st.dirs[n], n.id))
  }

  lemma StageIsAdmissible(d: Dir, s: nat, id: CohortId)
    requires 3 <= s && AtStage(d.files, s, d.plan) && d.plan.authority == id.authority
    ensures Admissible(d.files, id)
    ensures Named(COMPLETE) !in d.files ==> Ruin(d.files, id)
  {
    ReadAtStage(d.files, s, d.plan, COHORT);
  }

  /** Removing the next file of a ruin leaves a ruin. */
  lemma RuinStaysRuin(files: Files, n: FileName, id: CohortId)
    requires Ruin(files, id) && NextRemoved(files, n)
    ensures Ruin(files - {n}, id)
  {
    if n != Named(COHORT) {
      var inode := files[Named(COHORT)].inode;
      SingleLink(files, Named(COHORT), n);
      assert (set m | m in files - {n} && (files - {n})[m].inode == inode) == (set m | m in files &&
        files[m].inode == inode);
    } else {
      assert files - {n} == map[];
    }
  }

  /** One controller at a time holds admission. */
  ghost predicate Exclusive(st: State) {
    forall p, q :: HasAdmission(PcOf(st, p)) && HasAdmission(PcOf(st, q)) ==> p == q
  }

  /** Only the acting controller moves, and it gets admission only when it is free. */
  lemma NextKeepsExclusive(st: State, e: Event)
    requires Exclusive(st) && Next(st, e).Some?
    ensures Exclusive(Next(st, e).value)
  {
    hide Admissible, Repair, ValidComplete, Write, PlanOk;
    var st' := Next(st, e).value;
    assert forall q :: q != e.pid ==> PcOf(st', q) == PcOf(st, q);
  }

  lemma UnlockKeepsInv(st: State, p: Pid)
    requires Inv(st)
    ensures Inv(State(Unlock(st.dirs, p), st.pcs[p := Out]))
  {
    var st' := State(Unlock(st.dirs, p), st.pcs[p := Out]);
    NextKeepsExclusive(st, Die(p));
    forall q
      ensures PointInv(st', q)
    {
      assert PointInv(st, q);
    }
    forall n | n in st'.dirs && n.CohortDir?
      ensures CohortInv(st'.dirs[n], n.id)
    {
      assert CohortInv(st.dirs[n], n.id);
    }
  }

  /** The directory a controller is working on. */
  function Target(pc: Pc): Option<Name> {
    match pc
    case Creating(token, _) => Some(CandidateDir(token))
    case Owning(id, _) => Some(CohortDir(id))
    case Repairing(id, _) => Some(CohortDir(id))
    case Cleaning(name, _) => Some(name)
    case _ => None
  }

  /** A step that touches only directories nobody else has locked, and adds cohort
      directories or removes directories only under admission, keeps the invariant
      for everyone else. */
  lemma Frame(st: State, st': State, p: Pid, ns: set<Name>)
    requires Inv(st) && Exclusive(st') && PointInv(st', p)
    requires forall q :: q != p ==> PcOf(st', q) == PcOf(st, q)
    requires forall n :: n !in ns ==> (n in st'.dirs <==> n in st.dirs)
    requires forall n :: n !in ns && n in st.dirs ==> st'.dirs[n] == st.dirs[n] && st.dirs[n].owner != Some(p)
    requires forall n :: n in ns && n in st.dirs ==> st.dirs[n].owner in {None, Some(p)}
    requires forall n :: n in ns && n in st'.dirs ==>
      && (st'.dirs[n].owner == None || (st'.dirs[n].owner == Some(p) && Target(PcOf(st', p)) == Some(n)))
      && (n.CohortDir? ==> CohortInv(st'.dirs[n], n.id))
    requires forall n :: n in ns && ((n in st.dirs) != (n in st'.dirs)) ==> HasAdmission(PcOf(st, p))
    requires PcOf(st', p).Cleaning? ==> PcOf(st', p).name.CohortDir? || st'.dirs[PcOf(st', p).name].owner.None?
    ensures Inv(st')
  {
    forall q
      ensures PointInv(st', q)
    {
      assert PointInv(st, q);
    }
    forall n | n in st'.dirs && n.CohortDir?
      ensures CohortInv(st'.dirs[n], n.id)
    {
      if n !in ns {
        assert CohortInv(st.dirs[n], n.id);
      }
    }
    assert OwnerInv(st');
  }

  /** What a controller has locked is what it is working on. */
  lemma LockedIsTarget(st: State, n: Name, p: Pid)
    requires Inv(st) && n in st.dirs && st.dirs[n].owner == Some(p)
    ensures Target(PcOf(st, p)) == Some(n)
  {
  }

  lemma LockedElsewhere(st: State, p: Pid, n: Name)
    requires Inv(st) && (Target(PcOf(st, p)) == None || Target(PcOf(st, p)) == Some(n))
    ensures forall m :: m in st.dirs && m != n ==> st.dirs[m].owner != Some(p)
  {
    forall m | m in st.dirs && m != n
      ensures st.dirs[m].owner != Some(p)
    {
      if st.dirs[m].owner == Some(p) {
        LockedIsTarget(st, m, p);
      }
    }
  }

  lemma MakeKeepsInv(st: State, e: Event)
    requires Inv(st) && e.MakeCandidate? && Next(st, e).Some?
    ensures Inv(Next(st, e).value)
  {
    NextKeepsExclusive(st, e);
    LockedElsewhere(st, e.pid, CandidateDir(e.token));
    Frame(st, Next(st, e).value, e.pid, {CandidateDir(e.token)});
  }

  lemma WriteKeepsInv(st: State, e: Event)
    requires Inv(st) && e.WriteStep? && Next(st, e).Some?
    ensures Inv(Next(st, e).value)
  {
    NextKeepsExclusive(st, e);
    var pc := PcOf(st, e.pid);
    assert PointInv(st, e.pid);
    var n := Target(pc).value;
    WriteAdvances(st.dirs[n].files, pc.s, st.dirs[n].plan);
    LockedElsewhere(st, e.pid, n);
    Frame(st, Next(st, e).value, e.pid, {n});
  }

  lemma RenameKeepsInv(st: State, e: Event)
    requires Inv(st) && e.RenameFinal? && Next(st, e).Some?
    ensures Inv(Next(st, e).value)
  {
    NextKeepsExclusive(st, e);
    assert PointInv(st, e.pid);
    var n := Target(PcOf(st, e.pid)).value;
    LockedElsewhere(st, e.pid, n);
    Frame(st, Next(st, e).value, e.pid, {n, CohortDir(CohortSha(st.dirs[n].plan.authority))});
  }

  lemma FindKeepsInv(st: State, e: Event)
    requires Inv(st) && (e.Begin? || e.FindCandidate?) && Next(st, e).Some?
    ensures Inv(Next(st, e).value)
  {
    NextKeepsExclusive(st, e);
    if e.FindCandidate? {
      LockedElsewhere(st, e.pid, CandidateDir(e.token));
      CandidateIsStale(st, e.pid, e.token);
      Frame(st, Next(st, e).value, e.pid, {CandidateDir(e.token)});
    } else {
      Frame(st, Next(st, e).value, e.pid, {});
    }
  }

  /** A candidate that another controller meets has no live owner: its owner would
      still be holding admission. */
  lemma CandidateIsStale(st: State, p: Pid, token: Token)
    requires Inv(st) && CandidateDir(token) in st.dirs && HasAdmission(PcOf(st, p)) && !PcOf(st, p).Creating?
    ensures st.dirs[CandidateDir(token)].owner.None?
  {
    var owner := st.dirs[CandidateDir(token)].owner;
    if owner.Some? {
      LockedIsTarget(st, CandidateDir(token), owner.value);
      assert HasAdmission(PcOf(st, owner.value));
    }
  }

  lemma FindCohortKeepsInv(st: State, e: Event)
    requires Inv(st) && e.FindCohort? && Next(st, e).Some?
    ensures Inv(Next(st, e).value)
  {
    NextKeepsExclusive(st, e);
    var n := CohortDir(e.id);
    var d := st.dirs[n];
    assert CohortInv(d, e.id);
    if !Admissible(d.files, e.id) {
      UnlockKeepsInv(st, e.pid);
    } else if d.owner.None? {
      if Named(COMPLETE) !in d.files {
        assert Ruin(d.files, e.id);
      }
      LockedElsewhere(st, e.pid, n);
      Frame(st, Next(st, e).value, e.pid, {n});
    } else {
      Frame(st, Next(st, e).value, e.pid, {});
    }
  }

  lemma RepairKeepsInv(st: State, e: Event)
    requires Inv(st) && e.RepairStep? && Next(st, e).Some?
    ensures Inv(Next(st, e).value)
  {
    NextKeepsExclusive(st, e);
    assert PointInv(st, e.pid);
    var n := Target(PcOf(st, e.pid)).value;
    RepairNeverRefuses(st, e.pid);
    LockedElsewhere(st, e.pid, n);
    Frame(st, Next(st, e).value, e.pid, {n});
  }

  /** The repair of a cohort with a COMPLETE link always yields a finished one. */
  lemma RepairNeverRefuses(st: State, p: Pid)
    requires Inv(st) && PcOf(st, p).Repairing?
    ensures var n := CohortDir(PcOf(st, p).id);
            && n in st.dirs && Named(COMPLETE) in st.dirs[n].files && Repair(st.dirs[n].files).Some?
            && ValidComplete(Repair(st.dirs[n].files).value, n.id.authority)
            && AtStage(Repair(st.dirs[n].files).value, LAST, st.dirs[n].plan)
            && st.dirs[n].plan.authority == n.id.authority
  {
    assert PointInv(st, p);
    var n := CohortDir(PcOf(st, p).id);
    var d := st.dirs[n];
    assert CohortInv(d, n.id);
    var s :| 3 <= s && AtStage(d.files, s, d.plan);
    LinkedCompleteIsRepaired(d.files, s, d.plan);
  }

  lemma RemoveKeepsInv(st: State, e: Event)
    requires Inv(st) && (e.RemoveFile? || e.RemoveDir?) && Next(st, e).Some?
    ensures Inv(Next(st, e).value)
  {
    NextKeepsExclusive(st, e);
    assert PointInv(st, e.pid);
    var n := PcOf(st, e.pid).name;
    CleaningIsSafe(st, e.pid);
    LockedElsewhere(st, e.pid, n);
    if e.RemoveFile? && n.CohortDir? {
      RuinStaysRuin(st.dirs[n].files, e.file, n.id);
    }
    Frame(st, Next(st, e).value, e.pid, {n});
  }

  /** A controller only ever deletes from a directory that no live controller but
      itself holds: never a live owner's candidate or cohort. */
  lemma CleaningIsSafe(st: State, p: Pid)
    requires Inv(st) && PcOf(st, p).Cleaning?
    ensures var n := PcOf(st, p).name;
            && n in st.dirs && (n.CandidateDir? ==> st.dirs[n].owner.None?) &&
              (n.CohortDir? ==> st.dirs[n].owner == Some(p))
            && (n.CohortDir? ==> Named(COMPLETE) !in st.dirs[n].files)
  {
    assert PointInv(st, p);
    if PcOf(st, p).name.CandidateDir? {
      CandidateIsStale(st, p, PcOf(st, p).name.token);
    }
  }

  lemma NextKeepsInv(st: State, e: Event)
    requires Inv(st) && Next(st, e).Some?
    ensures Inv(Next(st, e).value)
  {
    hide Inv;
    match e {
      case Begin(_) => FindKeepsInv(st, e);
      case FindCandidate(_, _) => FindKeepsInv(st, e);
      case MakeCandidate(_, _, _) => MakeKeepsInv(st, e);
      case WriteStep(_) => WriteKeepsInv(st, e);
      case RenameFinal(_) => RenameKeepsInv(st, e);
      case FindCohort(_, _) => FindCohortKeepsInv(st, e);
      case RepairStep(_) => RepairKeepsInv(st, e);
      case RemoveFile(_, _) => RemoveKeepsInv(st, e);
      case RemoveDir(_) => RemoveKeepsInv(st, e);
      case Close(p) => UnlockKeepsInv(st, p);
      case Die(p) => UnlockKeepsInv(st, p);
    }
  }

  // ------------------------------------------------------------------------ whole runs

  const EMPTY := State(map[], map[])

  ghost predicate Possible(st: State, events: seq<Event>)
    decreases events
  {
    events == [] || (Next(st, events[0]).Some? && Possible(Next(st, events[0]).value, events[1..]))
  }

  ghost function Run(st: State, events: seq<Event>): State
    requires Possible(st, events)
    decreases events
  {
    if events == [] then st else Run(Next(st, events[0]).value, events[1..])
  }

  lemma {:induction false} RunKeepsInv(st: State, events: seq<Event>)
    requires Inv(st) && Possible(st, events)
    ensures Inv(Run(st, events))
    decreases events
  {
    hide Next, Inv;
    if events != [] {
      NextKeepsInv(st, events[0]);
      RunKeepsInv(Next(st, events[0]).value, events[1..]);
    }
  }

  /** Over every run of controllers and crashes, what a recovery sets out to do with a
      cohort directory that it meets and can lock:
      - it refuses it exactly if the directory is empty, which an interrupted removal
        leaves after it has unlinked cohort.json;
      - it is going to repair it exactly if it has the COMPLETE link, and the repair will
        pass the completeness check;
      - otherwise it is going to remove it. */
  lemma RecoveryIsExact(events: seq<Event>, p: Pid, id: CohortId)
    requires Possible(EMPTY, events)
    requires var st := Run(EMPTY, events);
             var pc := PcOf(st, p);
             pc.Scanning? && CohortDir(id) in pc.scan.left && CohortDir(id) in st.dirs &&
               st.dirs[CohortDir(id)].owner.None?
    ensures var st := Run(EMPTY, events);
            var d := st.dirs[CohortDir(id)];
            && Next(st, FindCohort(p, id)).Some?
            && var found := PcOf(Next(st, FindCohort(p, id)).value, p);
            var scan := Past(PcOf(st, p).scan, CohortDir(id));
            && (found == Out <==> d.files == map[])
            && (found == Repairing(id, scan) <==> Named(COMPLETE) in d.files)
            && (found == Cleaning(CohortDir(id), scan) <==> d.files != map[] && Named(COMPLETE) !in d.files)
            && (Named(COMPLETE) in d.files ==>
                  Repair(d.files).Some? && ValidComplete(Repair(d.files).value, id.authority))
  {
    RunKeepsInv(EMPTY, events);
    var st := Run(EMPTY, events);
    assert CohortInv(st.dirs[CohortDir(id)], id);
    hide *;
    CohortIsAdmissible(st.dirs[CohortDir(id)], id);
  }

  /** A cohort directory can be read unless it is empty, and is repaired if completed. */
  lemma CohortIsAdmissible(d: Dir, id: CohortId)
    requires CohortInv(d, id)
    ensures Admissible(d.files, id) <==> d.files != map[]
    ensures Named(COMPLETE) in d.files ==>
              Repair(d.files).Some? && ValidComplete(Repair(d.files).value, id.authority)
  {
    NothingToRead(id);
    hide AtStage, Repair, ValidComplete, Admissible;
    if s :| 3 <= s && AtStage(d.files, s, d.plan) && d.plan.authority == id.authority {
      StageIsAdmissible(d, s, id);
      if Named(COMPLETE) in d.files {
        LinkedCompleteIsRepaired(d.files, s, d.plan);
      }
    }
  }

  // --------------------------------------------------------------- the recovery pass

  /** A finished cohort that nobody holds. */
  ghost predicate Settled(d: Dir, id: CohortId) {
    d.owner.None? && d.plan.authority == id.authority && AtStage(d.files, LAST, d.plan)
  }

  function ScanOf(pc: Pc): Option<Scan> {
    match pc
    case Scanning(scan) => Some(scan)
    case Repairing(_, scan) => Some(scan)
    case Cleaning(_, scan) => Some(scan)
    case _ => None
  }

  /** Every directory is still to be visited, is being dealt with, or is a cohort that was
      found held or is finished. */
  ghost predicate Accounted(dirs: map<Name, Dir>, scan: Scan, current: Option<Name>) {
    && (forall n :: n in scan.left ==> n in dirs && current != Some(n))
    && (forall n :: n in dirs ==>
          n in scan.left || current == Some(n) || (n.CohortDir? && (n.id in scan.skipped || Settled(dirs[n], n.id))))
  }

  ghost predicate ScanInv(st: State) {
    forall p :: ScanOf(PcOf(st, p)).Some? ==> Accounted(st.dirs, ScanOf(PcOf(st, p)).value, Target(PcOf(st, p)))
  }

  /** Without admission a controller only works on what it holds. */
  lemma OwnerStep(st: State, e: Event)
    requires Inv(st) && Next(st, e).Some? && !HasAdmission(PcOf(st, e.pid)) && !e.Begin?
    ensures var st' := Next(st, e).value;
            && st'.dirs.Keys == st.dirs.Keys
            && (forall n :: n in st.dirs ==> st'.dirs[n] == st.dirs[n] || st.dirs[n].owner.Some?)
            && ScanOf(PcOf(st', e.pid)).None?
  {
    hide AtStage, PlanOk, Write, Admissible, Repair, ValidComplete;
    assert PointInv(st, e.pid);
  }

  /** What a recovery's own events do to its account. */
  lemma ScannerStep(st: State, e: Event)
    requires Inv(st) && ScanInv(st) && Next(st, e).Some? && HasAdmission(PcOf(st, e.pid))
    ensures var st' := Next(st, e).value;
            ScanOf(PcOf(st', e.pid)).Some? ==>
              Accounted(st'.dirs, ScanOf(PcOf(st', e.pid)).value, Target(PcOf(st', e.pid)))
  {
    hide *;
    if e.RepairStep? {
      RepairAccounts(st, e);
    } else if e.FindCandidate? || e.FindCohort? {
      FindAccounts(st, e);
    } else {
      RemovalAccounts(st, e);
    }
  }

  lemma RepairsOnly(st: State, e: Event)
    requires e.RepairStep? && Next(st, e).Some?
    ensures PcOf(st, e.pid).Repairing?
  {
    hide AtStage, Admissible, Repair, ValidComplete;
  }

  /** A repaired cohort is finished. */
  lemma RepairAccounts(st: State, e: Event)
    requires Inv(st) && ScanInv(st) && e.RepairStep? && Next(st, e).Some?
    ensures var st' := Next(st, e).value;
            ScanOf(PcOf(st', e.pid)).Some? ==>
              Accounted(st'.dirs, ScanOf(PcOf(st', e.pid)).value, Target(PcOf(st', e.pid)))
  {
    hide Inv, Next, Repaired, AtStage, Settled;
    RepairsOnly(st, e);
    RepairSettles(st, e.pid);
    RepairStepIs(st, e.pid);
  }

  /** Removing keeps the account, and so does beginning a candidate of one's own. */
  lemma RemovalAccounts(st: State, e: Event)
    requires Inv(st) && ScanInv(st) && Next(st, e).Some? && HasAdmission(PcOf(st, e.pid))
    requires !e.RepairStep? && !e.FindCandidate? && !e.FindCohort?
    ensures var st' := Next(st, e).value;
            ScanOf(PcOf(st', e.pid)).Some? ==>
              Accounted(st'.dirs, ScanOf(PcOf(st', e.pid)).value, Target(PcOf(st', e.pid)))
  {
    PointOf(st, e.pid);
    hide AtStage, PlanOk, Write, Admissible, Repair, ValidComplete, Inv, CohortInv, Exclusive, OwnerInv;
  }

  lemma PointOf(st: State, p: Pid)
    requires Inv(st)
    ensures PointInv(st, p)
  {
  }

  /** Visiting a directory moves it from the listing to the one at hand or to the held ones. */
  lemma FindAccounts(st: State, e: Event)
    requires ScanInv(st) && (e.FindCandidate? || e.FindCohort?) && Next(st, e).Some?
    ensures var st' := Next(st, e).value;
            ScanOf(PcOf(st', e.pid)).Some? ==>
              Accounted(st'.dirs, ScanOf(PcOf(st', e.pid)).value, Target(PcOf(st', e.pid)))
  {
    assert Accounted(st.dirs, PcOf(st, e.pid).scan, None);
    hide AtStage, Admissible, ScanInv;
  }

  lemma RepairSettles(st: State, p: Pid)
    requires Inv(st) && PcOf(st, p).Repairing?
    ensures Settled(Repaired(st, p), PcOf(st, p).id)
  {
    RepairNeverRefuses(st, p);
    hide Inv, AtStage, ValidComplete, Repair;
  }

  lemma NextKeepsScan(st: State, e: Event)
    requires Inv(st) && ScanInv(st) && Next(st, e).Some?
    ensures ScanInv(Next(st, e).value)
  {
    var st' := Next(st, e).value;
    forall q | ScanOf(PcOf(st', q)).Some?
      ensures Accounted(st'.dirs, ScanOf(PcOf(st', q)).value, Target(PcOf(st', q)))
    {
      if q != e.pid {
        OthersMove(st, e, q);
        OwnerStep(st, e);
      } else if e.Begin? {
        hide AtStage;
      } else if HasAdmission(PcOf(st, q)) {
        ScannerStep(st, e);
      } else {
        OwnerStep(st, e);
      }
    }
  }

  /** While another controller has admission, the acting one has not. */
  lemma OthersMove(st: State, e: Event, q: Pid)
    requires Inv(st) && Next(st, e).Some? && q != e.pid && ScanOf(PcOf(Next(st, e).value, q)).Some?
    ensures PcOf(st, q) == PcOf(Next(st, e).value, q) && !HasAdmission(PcOf(st, e.pid)) && !e.Begin?
  {
    hide AtStage, PlanOk, Write, Admissible, Repair, ValidComplete;
    assert HasAdmission(PcOf(st, q));
    assert q in st.pcs;
  }

  lemma {:induction false} RunKeepsScan(st: State, events: seq<Event>)
    requires Inv(st) && ScanInv(st) && Possible(st, events)
    ensures ScanInv(Run(st, events))
    decreases events
  {
    hide Next, Inv, ScanInv;
    if events != [] {
      NextKeepsInv(st, events[0]);
      NextKeepsScan(st, events[0]);
      RunKeepsScan(Next(st, events[0]).value, events[1..]);
    }
  }

  /** Over every run, however controllers, crashes and live owners interleave: when a
      recovery has visited its whole listing no candidate is left, and every cohort
      that is left passes the completeness check and is free, or was found held. */
  lemma RecoveryLeavesNothingStale(events: seq<Event>, p: Pid)
    requires Possible(EMPTY, events)
    requires PcOf(Run(EMPTY, events), p).Scanning? && PcOf(Run(EMPTY, events), p).scan.left == {}
    ensures var st := Run(EMPTY, events);
            && (forall n :: n in st.dirs ==> n.CohortDir?)
            && (forall n :: n in st.dirs && n.id !in PcOf(st, p).scan.skipped ==>
                  st.dirs[n].owner.None? && ValidComplete(st.dirs[n].files, n.id.authority))
  {
    RunKeepsScan(EMPTY, events);
    var st := Run(EMPTY, events);
    assert Accounted(st.dirs, PcOf(st, p).scan, None);
    hide AtStage, ValidComplete, ScanInv, Run, Possible;
    forall n | n in st.dirs && n.CohortDir? && n.id !in PcOf(st, p).scan.skipped
      ensures st.dirs[n].owner.None? && ValidComplete(st.dirs[n].files, n.id.authority)
    {
      FinishedIsValid(st.dirs[n].files, st.dirs[n].plan);
    }
  }

  /** The events of a recovery that is neither interrupted nor finished. */
  predicate IsRecovery(e: Event, p: Pid) {
    e.pid == p && (e.FindCandidate? || e.FindCohort? || e.RepairStep? || e.RemoveFile? || e.RemoveDir?)
  }

  ghost predicate Recovers(events: seq<Event>, p: Pid) {
    forall e :: e in events ==> IsRecovery(e, p)
  }

  /** The recovery was refused or has visited its whole listing. */
  predicate Ended(st: State, p: Pid) {
    PcOf(st, p) == Out || (PcOf(st, p).Scanning? && PcOf(st, p).scan.left == {})
  }

  /** A recovery has always something left to do until its listing is done. */
  lemma RecoveryProgresses(st: State, p: Pid)
    requires Inv(st) && ScanInv(st) && ScanOf(PcOf(st, p)).Some?
    ensures (exists e :: IsRecovery(e, p) && Next(st, e).Some?) <==>
      !(PcOf(st, p).Scanning? && PcOf(st, p).scan.left == {})
  {
    var pc := PcOf(st, p);
    assert PointInv(st, p) && Accounted(st.dirs, ScanOf(pc).value, Target(pc));
    hide AtStage, PlanOk, Write, Admissible, Repair, ValidComplete, Inv, ScanInv;
    match pc
    case Scanning(scan) =>
      if scan.left != {} {
        var n :| n in scan.left;
        var e := if n.CandidateDir? then FindCandidate(p, n.token) else FindCohort(p, n.id);
        assert IsRecovery(e, p) && Next(st, e).Some?;
      }
    case Repairing(_, _) =>
      assert IsRecovery(RepairStep(p), p) && Next(st, RepairStep(p)).Some?;
    case Cleaning(name, _) =>
      var files := st.dirs[name].files;
      if files == map[] {
        assert IsRecovery(RemoveDir(p), p) && Next(st, RemoveDir(p)).Some?;
      } else {
        var n := SomeRemoved(files);
        assert IsRecovery(RemoveFile(p, n), p) && Next(st, RemoveFile(p, n)).Some?;
      }
  }

  ghost function SomeRemoved(files: Files): (n: FileName)
    requires files != map[]
    ensures NextRemoved(files, n)
  {
    if n :| n in files && n != Named(COHORT) then n
    else
      assert files.Keys == {Named(COHORT)};
      Named(COHORT)
  }

  /** What a recovery still has to do. */
  function Effort(st: State, p: Pid): (nat, nat) {
    match PcOf(st, p)
    case Scanning(scan) => (|scan.left|, 0)
    case Repairing(_, scan) => (|scan.left|, 1)
    case Cleaning(name, scan) => (|scan.left|, if name in st.dirs then 1 + |st.dirs[name].files| else 1)
    case _ => (0, 0)
  }

  /** Every event of a recovery brings it nearer to its end: it terminates in every order. */
  lemma RecoveryTerminates(st: State, e: Event)
    requires IsRecovery(e, e.pid) && Next(st, e).Some?
    ensures var st' := Next(st, e).value;
            var (a, b), (a', b') := Effort(st, e.pid), Effort(st', e.pid);
            PcOf(st', e.pid) == Out || a' < a || (a' == a && b' < b)
  {
    hide AtStage, PlanOk, Write, Admissible, Repair, ValidComplete;
    var pc := PcOf(st, e.pid);
    if e.FindCandidate? || e.FindCohort? {
      FindShortens(pc.scan, if e.FindCandidate? then CandidateDir(e.token) else CohortDir(e.id));
    } else if e.RemoveFile? {
      RemoveShortens(st.dirs[pc.name].files, e.file);
    }
  }

  lemma FindShortens(scan: Scan, n: Name)
    requires n in scan.left
    ensures |Past(scan, n).left| < |scan.left|
  {
  }

  lemma RemoveShortens(files: Files, n: FileName)
    requires n in files
    ensures |files - {n}| < |files|
  {
    assert (files - {n}).Keys == files.Keys - {n};
  }

  // ------------------------------------------------------ what an uninterrupted pass does

  function Get(dirs: map<Name, Dir>, n: Name): Option<Dir> {
    if n in dirs then Some(dirs[n]) else None
  }

  /** A cohort directory from which an interrupted removal has unlinked everything. */
  predicate Hollow(dirs: map<Name, Dir>, n: Name) {
    n.CohortDir? && n in dirs && dirs[n].files == map[]
  }

  /** What is to become of a directory: held cohorts stay as they are, completed ones are
      repaired, and everything else goes. */
  function Fate(d: Dir, n: Name): Option<Dir> {
    if n.CandidateDir? then None
    else if d.owner.Some? then Some(d)
    else if Named(COMPLETE) in d.files && Repair(d.files).Some? then Some(d.(files := Repair(d.files).value))
    else None
  }

  /** The directory a pass is dealing with, compared with what it was at the start. */
  ghost predicate Ongoing(before: map<Name, Dir>, dirs: map<Name, Dir>, pc: Pc, n: Name, p: Pid) {
    && n in before && n in dirs && !Hollow(before, n)
    && (pc.Cleaning? ==> Fate(before[n], n).None?)
    && (pc.Repairing? ==>
          before[n].owner.None? && Named(COMPLETE) in before[n].files && dirs[n] == before[n].(owner := Some(p)))
  }

  /** A pass over `listing` so far: what it has visited has met its fate and was not
      hollow, and everything else is as it was. */
  ghost predicate Sofar(before: map<Name, Dir>, listing: set<Name>, st: State, p: Pid) {
    var pc := PcOf(st, p);
    && ScanOf(pc).Some? && ScanOf(pc).value.left <= listing
    && (Target(pc).Some? ==> Target(pc).value in listing - ScanOf(pc).value.left)
    && forall n ::
         if n !in listing || n in ScanOf(pc).value.left then Get(st.dirs, n) == Get(before, n)
         else if Target(pc) == Some(n) then Ongoing(before, st.dirs, pc, n, p)
         else n in before && !Hollow(before, n) && Get(st.dirs, n) == Fate(before[n], n)
  }

  lemma PassFindsCandidate(before: map<Name, Dir>, listing: set<Name>, st: State, e: Event)
    requires Sofar(before, listing, st, e.pid) && e.FindCandidate? && Next(st, e).Some?
    ensures Sofar(before, listing, Next(st, e).value, e.pid)
  {
    hide Repair;
  }

  lemma PassFindsCohort(before: map<Name, Dir>, listing: set<Name>, st: State, e: Event)
    requires Inv(st) && Sofar(before, listing, st, e.pid) && e.FindCohort? && Next(st, e).Some?
    ensures var st' := Next(st, e).value;
            if PcOf(st', e.pid) == Out then CohortDir(e.id) in listing && Hollow(before, CohortDir(e.id))
            else Sofar(before, listing, st', e.pid)
  {
    var n := CohortDir(e.id);
    assert CohortInv(st.dirs[n], e.id);
    CohortIsAdmissible(st.dirs[n], e.id);
    hide Inv, Admissible, Repair, ValidComplete, CohortInv;
    assert Get(st.dirs, n) == Get(before, n);
    hide Sofar;
    if st.dirs[n].files != map[] {
      if st.dirs[n].owner.Some? {
        PassSkips(before, listing, st, e.pid, e.id);
      } else {
        PassTakes(before, listing, st, e.pid, e.id);
      }
    }
  }

  /** A cohort found held stays as it is. */
  lemma PassSkips(before: map<Name, Dir>, listing: set<Name>, st: State, p: Pid, id: CohortId)
    requires var n := CohortDir(id);
             && Sofar(before, listing, st, p) && PcOf(st, p).Scanning? && n in PcOf(st, p).scan.left
             && n in before && Get(st.dirs, n) == Get(before, n) && before[n].owner.Some? && !Hollow(before, n)
    ensures var n := CohortDir(id);
            var scan := Past(PcOf(st, p).scan, n);
            Sofar(before, listing, Goto(st, p, Scanning(scan.(skipped := scan.skipped + {id}))), p)
  {
    hide Repair;
  }

  /** A cohort that nobody holds is locked, to be repaired or removed. */
  lemma PassTakes(before: map<Name, Dir>, listing: set<Name>, st: State, p: Pid, id: CohortId)
    requires var n := CohortDir(id);
             && Sofar(before, listing, st, p) && PcOf(st, p).Scanning? && n in PcOf(st, p).scan.left
             && n in before && Get(st.dirs, n) == Get(before, n) && before[n].owner.None? && !Hollow(before, n)
    ensures var n := CohortDir(id);
            var scan := Past(PcOf(st, p).scan, n);
            var pc := if Named(COMPLETE) in before[n].files then Repairing(id, scan) else Cleaning(n, scan);
            Sofar(before, listing, State(st.dirs[n := before[n].(owner := Some(p))], st.pcs[p := pc]), p)
  {
    hide Repair, Hollow;
  }

  lemma PassRepairs(before: map<Name, Dir>, listing: set<Name>, st: State, e: Event)
    requires Inv(st) && Sofar(before, listing, st, e.pid) && e.RepairStep? && Next(st, e).Some?
    ensures Sofar(before, listing, Next(st, e).value, e.pid)
  {
    hide Inv, Next, Hollow;
    RepairsOnly(st, e);
    RepairStepIs(st, e.pid);
    RepairIsFate(before, listing, st, e.pid);
  }

  /** The directory of a repairing controller, repaired and released. */
  ghost function Repaired(st: State, p: Pid): Dir
    requires Inv(st) && PcOf(st, p).Repairing?
  {
    RepairNeverRefuses(st, p);
    var d := st.dirs[CohortDir(PcOf(st, p).id)];
    d.(files := Repair(d.files).value, owner := None)
  }

  lemma RepairStepIs(st: State, p: Pid)
    requires Inv(st) && PcOf(st, p).Repairing?
    ensures Next(st, RepairStep(p)) ==
      Some(State(st.dirs[CohortDir(PcOf(st, p).id) := Repaired(st, p)], st.pcs[p := Scanning(PcOf(st, p).scan)]))
  {
    hide Inv, AtStage, ValidComplete, Repair, Admissible, Write, PlanOk, NextRemoved, Unlock;
    RepairNeverRefuses(st, p);
  }

  lemma RepairIsFate(before: map<Name, Dir>, listing: set<Name>, st: State, p: Pid)
    requires Inv(st) && Sofar(before, listing, st, p) && PcOf(st, p).Repairing?
    ensures var n := CohortDir(PcOf(st, p).id); n in before && Fate(before[n], n) == Some(Repaired(st, p))
  {
    RepairNeverRefuses(st, p);
    hide Inv, AtStage, ValidComplete, Repair;
    assert Ongoing(before, st.dirs, PcOf(st, p), CohortDir(PcOf(st, p).id), p);
  }

  lemma PassRemoves(before: map<Name, Dir>, listing: set<Name>, st: State, e: Event)
    requires Sofar(before, listing, st, e.pid) && (e.RemoveFile? || e.RemoveDir?) && Next(st, e).Some?
    ensures Sofar(before, listing, Next(st, e).value, e.pid)
  {
    hide Repair;
  }

  lemma PassStep(before: map<Name, Dir>, listing: set<Name>, st: State, e: Event)
    requires Inv(st) && Sofar(before, listing, st, e.pid) && IsRecovery(e, e.pid) && Next(st, e).Some?
    ensures var st' := Next(st, e).value;
            if PcOf(st', e.pid) == Out then exists n :: n in listing && Hollow(before, n)
            else Sofar(before, listing, st', e.pid)
  {
    hide Sofar, Next, Inv;
    if e.FindCohort? {
      PassFindsCohort(before, listing, st, e);
    } else {
      if e.FindCandidate? {
        PassFindsCandidate(before, listing, st, e);
      } else if e.RepairStep? {
        PassRepairs(before, listing, st, e);
      } else {
        PassRemoves(before, listing, st, e);
      }
      SofarIsIn(before, listing, Next(st, e).value, e.pid);
    }
  }

  lemma SofarIsIn(before: map<Name, Dir>, listing: set<Name>, st: State, p: Pid)
    requires Sofar(before, listing, st, p)
    ensures PcOf(st, p) != Out
  {
  }

  lemma {:induction false} PassRun(before: map<Name, Dir>, listing: set<Name>, st: State, events: seq<Event>, p: Pid)
    requires Inv(st) && Sofar(before, listing, st, p)
    requires Possible(st, events) && Recovers(events, p)
    ensures var st' := Run(st, events);
            if PcOf(st', p) == Out then exists n :: n in listing && Hollow(before, n)
            else Sofar(before, listing, st', p)
    decreases events
  {
    hide Sofar, Next, Inv;
    SofarIsIn(before, listing, st, p);
    if events != [] {
      var e, st' := events[0], Next(st, events[0]).value;
      assert IsRecovery(e, p) && e in events;
      NextKeepsInv(st, e);
      PassStep(before, listing, st, e);
      if PcOf(st', p) == Out {
        OutIsOut(st', events[1..], p);
      } else {
        PassRun(before, listing, st', events[1..], p);
      }
    }
  }

  lemma OutIsOut(st: State, events: seq<Event>, p: Pid)
    requires PcOf(st, p) == Out && Possible(st, events) && Recovers(events, p)
    ensures events == []
  {
    forall e | e in events
      ensures Next(st, e).None?
    {
    }
    hide Next;
  }

  /** An uninterrupted recovery, exactly. Whatever the order in which it takes its
      listing, if it has come to an end then
      - it was refused exactly when its listing held a hollow cohort directory;
      - otherwise no candidate of the listing is left, a cohort of the listing is left
        exactly if it was held or had the COMPLETE link, held ones are untouched, the
        others pass the completeness check, and nothing else has changed. */
  lemma PassIsExact(st: State, events: seq<Event>, p: Pid)
    requires Inv(st) && PcOf(st, p).Scanning?
    requires Possible(st, events) && Recovers(events, p) && Ended(Run(st, events), p)
    ensures var listing := PcOf(st, p).scan.left;
            var st' := Run(st, events);
            && (PcOf(st', p) == Out <==> exists n :: n in listing && Hollow(st.dirs, n))
            && (PcOf(st', p) != Out ==>
                  forall n :: Get(st'.dirs, n) == if n in listing && n in st.dirs then Fate(st.dirs[n], n)
                    else Get(st.dirs, n))
    ensures forall n: Name :: n.CohortDir? && n in st.dirs && st.dirs[n].owner.None? ==>
              && (Fate(st.dirs[n], n).Some? <==> Named(COMPLETE) in st.dirs[n].files)
              && (Fate(st.dirs[n], n).Some? ==> ValidComplete(Fate(st.dirs[n], n).value.files, n.id.authority))
  {
    var listing := PcOf(st, p).scan.left;
    assert Sofar(st.dirs, listing, st, p);
    PassRun(st.dirs, listing, st, events, p);
    forall n: Name | n.CohortDir? && n in st.dirs && st.dirs[n].owner.None?
      ensures Fate(st.dirs[n], n).Some? <==> Named(COMPLETE) in st.dirs[n].files
      ensures Fate(st.dirs[n], n).Some? ==> ValidComplete(Fate(st.dirs[n], n).value.files, n.id.authority)
    {
      FateIsValid(st, n);
    }
    hide Run, Possible, Next, Inv, Fate, ValidComplete;
  }

  lemma FateIsValid(st: State, n: Name)
    requires Inv(st) && n.CohortDir? && n in st.dirs && st.dirs[n].owner.None?
    ensures Fate(st.dirs[n], n).Some? <==> Named(COMPLETE) in st.dirs[n].files
    ensures Fate(st.dirs[n], n).Some? ==> ValidComplete(Fate(st.dirs[n], n).value.files, n.id.authority)
  {
    assert CohortInv(st.dirs[n], n.id);
    CohortIsAdmissible(st.dirs[n], n.id);
    hide Repair, ValidComplete, Admissible;
  }

  /** Left to itself a recovery does come to its end. */
  lemma {:induction false} PassEnds(st: State, p: Pid)
    requires Inv(st) && ScanInv(st) && (PcOf(st, p) == Out || ScanOf(PcOf(st, p)).Some?)
    ensures exists events, st' :: Reaches(st, events, st') && Recovers(events, p) && Ended(st', p)
    decreases Effort(st, p).0, Effort(st, p).1
  {
    hide Next, Inv, ScanInv, IsRecovery;
    if Ended(st, p) {
      assert Reaches(st, [], st) && Recovers([], p);
    } else {
      RecoveryProgresses(st, p);
      var e :| IsRecovery(e, p) && Next(st, e).Some?;
      RecoveryIsBy(e, p);
      var mid := Next(st, e).value;
      NextKeepsInv(st, e);
      NextKeepsScan(st, e);
      RecoveryTerminates(st, e);
      RecoveryGoesOn(st, e);
      if PcOf(mid, p) == Out {
        Prepend(st, e, mid, [], mid);
        assert Recovers([e] + [], p);
      } else {
        PassEnds(mid, p);
        var events, st' :| Reaches(mid, events, st') && Recovers(events, p) && Ended(st', p);
        Prepend(st, e, mid, events, st');
        assert Recovers([e] + events, p);
      }
    }
  }

  lemma RecoveryIsBy(e: Event, p: Pid)
    requires IsRecovery(e, p)
    ensures e.pid == p
  {
  }

  lemma RecoveryGoesOn(st: State, e: Event)
    requires IsRecovery(e, e.pid) && Next(st, e).Some?
    ensures var pc := PcOf(Next(st, e).value, e.pid); pc == Out || ScanOf(pc).Some?
  {
    hide AtStage, PlanOk, Write, Admissible, Repair, ValidComplete;
  }

  lemma Prepend(st: State, e: Event, mid: State, events: seq<Event>, st': State)
    requires Next(st, e) == Some(mid) && Reaches(mid, events, st')
    ensures Reaches(st, [e] + events, st')
  {
    hide Next;
    assert ([e] + events)[1..] == events;
  }

  /** Over every run, whatever a recovering controller is deleting has no other
      live owner and is not a completed cohort. */
  lemma LiveOwnersAreSafe(events: seq<Event>, p: Pid)
    requires Possible(EMPTY, events) && PcOf(Run(EMPTY, events), p).Cleaning?
    ensures var st := Run(EMPTY, events);
            var n := PcOf(st, p).name;
            && n in st.dirs && st.dirs[n].owner in {None, Some(p)}
            && (forall q :: q != p ==> Target(PcOf(st, q)) != Some(n))
            && (n.CohortDir? ==> Named(COMPLETE) !in st.dirs[n].files)
  {
    RunKeepsInv(EMPTY, events);
    var st := Run(EMPTY, events);
    CleaningIsSafe(st, p);
    forall q | q != p
      ensures Target(PcOf(st, q)) != Some(PcOf(st, p).name)
    {
      assert PointInv(st, q);
    }
  }

  /** A cohort that is completed stays completed: no event after the COMPLETE link
      removes it, whoever crashes. */
  lemma CompletionIsPermanent(st: State, e: Event, id: CohortId)
    requires Inv(st) && CohortDir(id) in st.dirs && Named(COMPLETE) in st.dirs[CohortDir(id)].files && Next(st, e).Some?
    ensures var dirs' := Next(st, e).value.dirs;
            CohortDir(id) in dirs' && Named(COMPLETE) in dirs'[CohortDir(id)].files
  {
    hide AtStage, PlanOk, ValidComplete, Admissible, CohortInv, OwnerInv, Exclusive;
    assert PointInv(st, e.pid);
    if e.RepairStep? {
      RepairNeverRefuses(st, e.pid);
    } else if e.WriteStep? {
      WriteKeepsComplete(st, e.pid, id);
    }
    hide Repair, Write;
  }

  lemma WriteKeepsComplete(st: State, p: Pid, id: CohortId)
    requires Inv(st) && CohortDir(id) in st.dirs && Named(COMPLETE) in st.dirs[CohortDir(id)].files
    requires Next(st, WriteStep(p)).Some?
    ensures var dirs' := Next(st, WriteStep(p)).value.dirs;
            CohortDir(id) in dirs' && Named(COMPLETE) in dirs'[CohortDir(id)].files
  {
    hide AtStage, PlanOk, ValidComplete, Admissible, Inv;
  }

  lemma {:induction false} PossibleSplit(st: State, a: seq<Event>, b: seq<Event>)
    requires Possible(st, a) && Possible(Run(st, a), b)
    ensures Possible(st, a + b) && Run(st, a + b) == Run(Run(st, a), b)
    decreases a
  {
    if a == [] {
      assert a + b == b;
    } else {
      assert (a + b)[0] == a[0] && (a + b)[1..] == a[1..] + b;
      PossibleSplit(Next(st, a[0]).value, a[1..], b);
    }
  }

  ghost predicate Reaches(st: State, events: seq<Event>, st': State) {
    Possible(st, events) && Run(st, events) == st'
  }

  lemma Extend(st: State, events: seq<Event>, mid: State, e: Event, st': State)
    requires Reaches(st, events, mid) && Next(mid, e) == Some(st')
    ensures Reaches(st, events + [e], st')
  {
    assert [e][1..] == [];
    PossibleSplit(st, events, [e]);
  }

  lemma NothingToRead(id: CohortId)
    ensures !Admissible(map[], id)
  {
  }

  /** A removal that has come down to cohort.json and dies before it removes the
      directory leaves an empty one, with nobody at work. */
  lemma HollowAfterCrash(st: State, p: Pid, id: CohortId)
    requires Inv(st) && PcOf(st, p).Cleaning? && PcOf(st, p).name == CohortDir(id)
    requires CohortDir(id) in st.dirs && st.dirs[CohortDir(id)].files.Keys == {Named(COHORT)}
    ensures var events := [RemoveFile(p, Named(COHORT)), Die(p)];
            && Possible(st, events)
            && (forall q :: q != p ==> PcOf(Run(st, events), q) == PcOf(st, q))
            && AdmissionFree(Run(st, events))
            && CohortDir(id) in Run(st, events).dirs && Run(st, events).dirs[CohortDir(id)].files == map[]
  {
    hide Admissible, Repair, ValidComplete, PlanOk;
    var s1 := Next(st, RemoveFile(p, Named(COHORT))).value;
    assert s1.dirs[CohortDir(id)].files == map[];
    Extend(st, [], st, RemoveFile(p, Named(COHORT)), s1);
    var s2 := Next(s1, Die(p)).value;
    Extend(st, [RemoveFile(p, Named(COHORT))], s1, Die(p), s2);
    assert forall q :: q != p ==> PcOf(s2, q) == PcOf(st, q);
    forall r | r in s2.pcs
      ensures !HasAdmission(s2.pcs[r])
    {
      assert HasAdmission(PcOf(st, p));
      assert r != p ==> s2.pcs[r] == PcOf(st, r);
    }
  }

  /** Every controller refuses an empty cohort directory and leaves it there. */
  lemma HollowIsRefused(st: State, q: Pid, id: CohortId)
    requires AdmissionFree(st) && PcOf(st, q).Out?
    requires CohortDir(id) in st.dirs && st.dirs[CohortDir(id)].files == map[]
    ensures var events := [Begin(q), FindCohort(q, id)];
            && Possible(st, events)
            && PcOf(Run(st, events), q).Out?
            && CohortDir(id) in Run(st, events).dirs && Run(st, events).dirs[CohortDir(id)].files == map[]
  {
    NothingToRead(id);
    hide Admissible, Repair, ValidComplete, PlanOk;
    var s1 := Next(st, Begin(q)).value;
    Extend(st, [], st, Begin(q), s1);
    var s2 := Next(s1, FindCohort(q, id)).value;
    Extend(st, [Begin(q)], s1, FindCohort(q, id), s2);
  }

  /** The one refusal that does occur. From any state in which a removal has come
      down to cohort.json: the controller dies between unlinking it and removing the
      empty directory, and the next one refuses and leaves the directory there. */
  lemma HollowCohortRefused(st: State, p: Pid, q: Pid, id: CohortId)
    requires Inv(st) && PcOf(st, p).Cleaning? && PcOf(st, p).name == CohortDir(id) && q != p && PcOf(st, q).Out?
    requires CohortDir(id) in st.dirs && st.dirs[CohortDir(id)].files.Keys == {Named(COHORT)}
    ensures var events := [RemoveFile(p, Named(COHORT)), Die(p)] + [Begin(q), FindCohort(q, id)];
            && Possible(st, events)
            && PcOf(Run(st, events), q).Out?
            && CohortDir(id) in Run(st, events).dirs && Run(st, events).dirs[CohortDir(id)].files == map[]
  {
    hide Next, Inv;
    HollowAfterCrash(st, p, id);
    HollowIsRefused(Run(st, [RemoveFile(p, Named(COHORT)), Die(p)]), q, id);
    PossibleSplit(st, [RemoveFile(p, Named(COHORT)), Die(p)], [Begin(q), FindCohort(q, id)]);
  }

  // The refusal is not hypothetical: the lemmas below lead a run from the empty
  // state to it. Controller 0 creates a cohort and dies before its first arm;
  // controller 1 finds it stale, removes cohort.json and dies; controller 2 refuses.

  /** Controller 0 is writing its candidate. */
  function Drafting(p: Plan, files: Files, s: nat): State {
    State(map[CandidateDir("") := Dir(files, Some(0), p)], map[0 := Creating("", s)])
  }

  /** The cohort is in place, held by `owner`, with these controllers. */
  function Placed(p: Plan, owner: Option<Pid>, pcs: map<Pid, Pc>): State
    requires PlanOk(p)
  {
    State(map[CohortDir(CohortSha(p.authority)) := Dir(map[Named(COHORT) := FileOf(p, COHORT)], owner, p)], pcs)
  }

  lemma StartDrafting(p: Plan)
    requires PlanOk(p)
    ensures Reaches(EMPTY, [Begin(0), MakeCandidate(0, "", p)], Drafting(p, map[], 0))
  {
    hide PlanOk;
    var s1 := State(map[], map[0 := Scanning(Scan({}, {}))]);
    var s2 := Drafting(p, map[], 0);
    assert EMPTY.dirs.Keys == {};
    assert Next(EMPTY, Begin(0)) == Some(s1);
    assert Next(s1, MakeCandidate(0, "", p)).value.dirs == s2.dirs;
    assert Next(s1, MakeCandidate(0, "", p)).value.pcs == s2.pcs;
    Extend(EMPTY, [], EMPTY, Begin(0), s1);
    Extend(EMPTY, [Begin(0)], s1, MakeCandidate(0, "", p), s2);
  }

  lemma DraftStep(p: Plan, files: Files, s: nat)
    requires PlanOk(p) && s < 3
    ensures Next(Drafting(p, files, s), WriteStep(0)) == Some(Drafting(p, Write(files, s, p), s + 1))
  {
    hide PlanOk, Write;
    var st, st' := Next(Drafting(p, files, s), WriteStep(0)).value, Drafting(p, Write(files, s, p), s + 1);
    assert st.dirs == st'.dirs && st.pcs == st'.pcs;
  }

  lemma DraftIsWritten(p: Plan)
    requires PlanOk(p)
    ensures Write(Write(Write(map[], 0, p), 1, p), 2, p) == map[Named(COHORT) := FileOf(p, COHORT)]
  {
  }

  lemma PlaceDraft(p: Plan)
    requires PlanOk(p)
    ensures Next(Drafting(p, map[Named(COHORT) := FileOf(p, COHORT)], 3), RenameFinal(0))
         == Some(Placed(p, Some(0), map[0 := Owning(CohortSha(p.authority), 3)]))
  {
    hide PlanOk, FileOf;
    var st := Next(Drafting(p, map[Named(COHORT) := FileOf(p, COHORT)], 3), RenameFinal(0)).value;
    var st' := Placed(p, Some(0), map[0 := Owning(CohortSha(p.authority), 3)]);
    assert st.dirs == st'.dirs && st.pcs == st'.pcs;
  }

  function Created(p: Plan): seq<Event> {
    [Begin(0), MakeCandidate(0, "", p)] + [WriteStep(0)] + [WriteStep(0)] + [WriteStep(0)] + [RenameFinal(0)]
  }

  lemma CohortIsCreated(p: Plan)
    requires PlanOk(p)
    ensures Reaches(EMPTY, Created(p), Placed(p, Some(0), map[0 := Owning(CohortSha(p.authority), 3)]))
  {
    hide PlanOk, Write, Next, Reaches, Drafting, Placed;
    StartDrafting(p);
    var f0: Files := map[];
    var f1 := Write(f0, 0, p);
    var f2 := Write(f1, 1, p);
    var f3 := Write(f2, 2, p);
    DraftStep(p, f0, 0);
    DraftStep(p, f1, 1);
    DraftStep(p, f2, 2);
    DraftIsWritten(p);
    PlaceDraft(p);
    var events := [Begin(0), MakeCandidate(0, "", p)];
    Extend(EMPTY, events, Drafting(p, f0, 0), WriteStep(0), Drafting(p, f1, 1));
    Extend(EMPTY, events + [WriteStep(0)], Drafting(p, f1, 1), WriteStep(0), Drafting(p, f2, 2));
    Extend(EMPTY, events + [WriteStep(0)] + [WriteStep(0)], Drafting(p, f2, 2), WriteStep(0), Drafting(p, f3, 3));
    Extend(EMPTY, events + [WriteStep(0)] + [WriteStep(0)] + [WriteStep(0)], Drafting(p, f3, 3), RenameFinal(0),
           Placed(p, Some(0), map[0 := Owning(CohortSha(p.authority), 3)]));
  }

  lemma CreatedIsAdmissible(p: Plan)
    requires PlanOk(p)
    ensures Admissible(map[Named(COHORT) := FileOf(p, COHORT)], CohortSha(p.authority))
  {
    var files := map[Named(COHORT) := FileOf(p, COHORT)];
    assert (set n | n in files && files[n].inode == p.inodes[COHORT]) == {Named(COHORT)};
  }

  lemma FoundStale(p: Plan)
    requires PlanOk(p)
    ensures var id := CohortSha(p.authority);
            Reaches(Placed(p, Some(0), map[0 := Owning(id, 3)]), [Die(0), Begin(1)] + [FindCohort(1, id)],
                    Placed(p, Some(1), map[0 := Out, 1 := Cleaning(CohortDir(id), Scan({}, {}))]))
  {
    CreatedIsAdmissible(p);
    hide PlanOk, FileOf, Admissible;
    var id := CohortSha(p.authority);
    var s0 := Placed(p, Some(0), map[0 := Owning(id, 3)]);
    var s1 := Placed(p, None, map[0 := Out]);
    var s2 := Placed(p, None, map[0 := Out, 1 := Scanning(Scan({CohortDir(id)}, {}))]);
    var s3 := Placed(p, Some(1), map[0 := Out, 1 := Cleaning(CohortDir(id), Scan({}, {}))]);
    assert Next(s0, Die(0)).value.dirs == s1.dirs && Next(s0, Die(0)).value.pcs == s1.pcs;
    assert s1.dirs.Keys == {CohortDir(id)} && Past(Scan({CohortDir(id)}, {}), CohortDir(id)) == Scan({}, {});
    assert Next(s1, Begin(1)).value.pcs == s2.pcs;
    assert Next(s2, FindCohort(1, id)).value.dirs == s3.dirs && Next(s2, FindCohort(1, id)).value.pcs == s3.pcs;
    Extend(s0, [], s0, Die(0), s1);
    Extend(s0, [Die(0)], s1, Begin(1), s2);
    Extend(s0, [Die(0), Begin(1)], s2, FindCohort(1, id), s3);
  }

  /** A whole run from the empty state that ends in the refusal. */
  lemma HollowCohortIsReached(p: Plan)
    requires PlanOk(p)
    ensures var id := CohortSha(p.authority);
            var events := Created(p) + ([Die(0), Begin(1)] + [FindCohort(1, id)])
                        + ([RemoveFile(1, Named(COHORT)), Die(1)] + [Begin(2), FindCohort(2, id)]);
            && Possible(EMPTY, events)
            && PcOf(Run(EMPTY, events), 2).Out?
            && CohortDir(id) in Run(EMPTY, events).dirs && Run(EMPTY, events).dirs[CohortDir(id)].files == map[]
  {
    var id := CohortSha(p.authority);
    CohortIsCreated(p);
    FoundStale(p);
    var stale := [Die(0), Begin(1)] + [FindCohort(1, id)];
    PossibleSplit(EMPTY, Created(p), stale);
    RunKeepsInv(EMPTY, Created(p) + stale);
    var st := Run(EMPTY, Created(p) + stale);
    assert st == Placed(p, Some(1), map[0 := Out, 1 := Cleaning(CohortDir(id), Scan({}, {}))]);
    HollowCohortRefused(st, 1, 2, id);
    PossibleSplit(EMPTY, Created(p) + stale, [RemoveFile(1, Named(COHORT)), Die(1)] + [Begin(2), FindCohort(2, id)]);
  }
}
