/**
 * Admission of a cold runtime build by the host's cores and memory.
 *
 * `RuntimeBuildPlan` is the bootstrap's own arithmetic; `ExpectedBuildResources`
 * is the gate's independent recomputation. Python's `//` by a positive constant
 * floors, as Dafny's `/` by a positive constant does, so both agree on the
 * negative totals that the source does not exclude.
 */
module BuildPlan {
  import opened Base

  const MIB: int := 1024 * 1024
  const GIB: int := 1024 * MIB
  const GRADLE_MIN_HEAP: int := 2 * GIB
  const GRADLE_MAX_HEAP: int := 8 * GIB
  const GRADLE_NON_HEAP: int := 2 * GIB
  const TOOLCHAIN_WORKER: int := 1536 * MIB

  datatype Plan = Plan(
    profile: string,
    parallel: bool,
    resources: Resources)

  datatype Resources = Resources(
    cargoWorkers: int,
    gradleHeap: int,
    gradleWorkers: int,
    inputWorkers: int,
    packageWorkers: int,
    memoryBudget: int)

  function Min(a: int, b: int): int { if a <= b then a else b }

  function Max(a: int, b: int): int { if a >= b then a else b }

  /** Rounds down to a whole number of mebibytes. */
  function WholeMiB(n: int): int { n / MIB * MIB }

  /** What is left for the build once the host's reserve is set aside. */
  function MemoryBudget(total: int): int {
    Max(0, total - Max(GIB, total * 15 / 100)) * 70 / 100
  }

  predicate ParallelAdmissible(cores: int, budget: int) {
    var gradleBudget := budget * 55 / 100;
    && cores >= 2
    && Max(0, gradleBudget - GRADLE_NON_HEAP) >= GRADLE_MIN_HEAP
    && budget - gradleBudget >= TOOLCHAIN_WORKER
  }

  function RuntimeBuildPlan(cpuCount: int, total: int, profile: string): (r: Option<Plan>) {
    if profile !in {"AUTO", "SERIAL", "PARALLEL"} then
      None
    else
      var cores := Max(1, cpuCount);
      var budget := MemoryBudget(total);
      var admissible := ParallelAdmissible(cores, budget);
      if profile == "PARALLEL" && !admissible then
        None
      else
        var parallel := if profile == "AUTO" then admissible else profile == "PARALLEL";
        if parallel then
          Some(Plan(profile, true, ParallelResources(cores, budget)))
        else
          var heap := WholeMiB(Min(GRADLE_MAX_HEAP, Max(0, budget - GRADLE_NON_HEAP)));
          if heap < GRADLE_MIN_HEAP then
            None
          else
            Some(Plan(profile, false,
                      if profile == "SERIAL" then Resources(1, heap, 1, 1, 1, budget)
                        else SequentialResources(cores, budget)))
  }

  /** Resources of the one-stage-at-a-time plan that AUTO falls back to. */
  function SequentialResources(cores: int, budget: int): Resources {
    var heap := WholeMiB(Min(GRADLE_MAX_HEAP, Max(0, budget - GRADLE_NON_HEAP)));
    Resources(Min(cores, Max(1, budget / TOOLCHAIN_WORKER)), heap, Min(cores, Max(1, heap / TOOLCHAIN_WORKER)), 1, 1,
      budget)
  }

  function ParallelResources(cores: int, budget: int): Resources {
    var gradleBudget := budget * 55 / 100;
    var cargoBudget := budget - gradleBudget;
    var heap := WholeMiB(Min(GRADLE_MAX_HEAP, Max(0, gradleBudget - GRADLE_NON_HEAP)));
    var desiredCargo := Max(1, cores / 2);
    var desiredGradle := Max(1, cores - desiredCargo);
    Resources(
      Min(desiredCargo, Max(1, cargoBudget / TOOLCHAIN_WORKER)),
      heap,
      Min(desiredGradle, Max(1, heap / TOOLCHAIN_WORKER)),
      Min(8, cores),
      Min(8, cores),
      budget)
  }

  /** The gate's recomputation, which clamps nothing and refuses nothing. */
  function ExpectedBuildResources(cores: int, total: int, profile: string): Resources {
    var budget := MemoryBudget(total);
    if profile == "PARALLEL" then
      var gradleBudget := budget * 55 / 100;
      var cargoBudget := budget - gradleBudget;
      var heap := WholeMiB(Min(GRADLE_MAX_HEAP, Max(0, gradleBudget - GRADLE_NON_HEAP)));
      var desiredCargo := Max(1, cores / 2);
      var desiredGradle := Max(1, cores - desiredCargo);
      Resources(
        Min(desiredCargo, Max(1, cargoBudget / TOOLCHAIN_WORKER)), heap,
        Min(desiredGradle, Max(1, heap / TOOLCHAIN_WORKER)), Min(8, cores), Min(8, cores), budget)
    else
      Resources(1, WholeMiB(Min(GRADLE_MAX_HEAP, Max(0, budget - GRADLE_NON_HEAP))), 1, 1, 1, budget)
  }

  /** `gradle_jvm_options`, reduced to its one variable: the `-Xmx` mebibytes. */
  function GradleHeapOption(heap: int): Option<int> {
    if heap < GRADLE_MIN_HEAP || heap > GRADLE_MAX_HEAP || heap % MIB != 0 then None else Some(heap / MIB)
  }

  /** The heap option is given exactly for whole mebibytes within the bounds. */
  lemma HeapOptionIsExact(heap: int, mebibytes: int)
    ensures GradleHeapOption(heap) == Some(mebibytes) <==>
      GRADLE_MIN_HEAP <= heap <= GRADLE_MAX_HEAP && heap == mebibytes * MIB
  {
  }

  /** Every plan for a named profile is the plan the gate expects to find in the receipt. */
  lemma PlanIsExpected(cpuCount: int, total: int, profile: string)
    requires profile != "AUTO"
    ensures var r := RuntimeBuildPlan(cpuCount, total, profile);
      r.Some? ==> r.value == Plan(profile, profile == "PARALLEL", ExpectedBuildResources(cpuCount, total, profile))
  {
  }

  /** The budget never falls as the host grows. */
  lemma BudgetIsMonotone(small: int, large: int)
    requires small <= large
    ensures MemoryBudget(small) <= MemoryBudget(large)
  {
    assert large * 15 / 100 - small * 15 / 100 <= large - small;
  }

  /** The smallest total memory, in bytes, from which a serial and a parallel build are admitted. */
  const SERIAL_FROM: int := 7_218_432_430
  const PARALLEL_FROM: int := 13_124_422_602

  /** The share left to Cargo is never what refuses a parallel build: the Gradle share is. */
  lemma ParallelThreshold(cores: int, budget: int)
    ensures ParallelAdmissible(cores, budget) <==> cores >= 2 && budget * 55 >= 400 * GIB
  {
    var gradle := budget * 55 / 100;
    assert gradle >= 4 * GIB <==> budget * 55 >= 400 * GIB;
    if gradle >= 4 * GIB {
      assert budget - gradle >= TOOLCHAIN_WORKER;
    }
  }

  /**
   * Exact admission, for every core count and every memory size: two thresholds in
   * bytes decide, so admission is monotone in memory and in cores, parallel
   * admission implies serial admission, and AUTO is admitted exactly when SERIAL is.
   */
  lemma AdmissionIsExact(cpuCount: int, total: int)
    ensures RuntimeBuildPlan(cpuCount, total, "SERIAL").Some? <==> total >= SERIAL_FROM
    ensures RuntimeBuildPlan(cpuCount, total, "PARALLEL").Some? <==> cpuCount >= 2 && total >= PARALLEL_FROM
    ensures RuntimeBuildPlan(cpuCount, total, "AUTO").Some? <==> total >= SERIAL_FROM
    ensures var r := RuntimeBuildPlan(cpuCount, total, "AUTO");
      r.Some? ==> (r.value.parallel <==> cpuCount >= 2 && total >= PARALLEL_FROM)
  {
    ParallelThreshold(Max(1, cpuCount), MemoryBudget(total));
    SerialMemory(total);
    ParallelMemory(total);
    hide MemoryBudget, ParallelAdmissible, WholeMiB, ParallelResources;
  }

  /** The budgets at the thresholds and one byte below. */
  lemma BudgetsAtThresholds()
    ensures MemoryBudget(SERIAL_FROM) == 4_294_967_296 && MemoryBudget(SERIAL_FROM - 1) == 4_294_967_295
    ensures MemoryBudget(PARALLEL_FROM) == 7_809_031_448 && MemoryBudget(PARALLEL_FROM - 1) == 7_809_031_447
  {
  }

  lemma SerialMemory(total: int)
    ensures WholeMiB(Min(GRADLE_MAX_HEAP, Max(0, MemoryBudget(total) - GRADLE_NON_HEAP))) >= GRADLE_MIN_HEAP <==>
      total >= SERIAL_FROM
  {
    BudgetsAtThresholds();
    hide MemoryBudget;
    if total >= SERIAL_FROM {
      BudgetIsMonotone(SERIAL_FROM, total);
    } else {
      BudgetIsMonotone(total, SERIAL_FROM - 1);
    }
  }

  lemma ParallelMemory(total: int)
    ensures MemoryBudget(total) * 55 >= 400 * GIB <==> total >= PARALLEL_FROM
    ensures total >= PARALLEL_FROM ==> total >= SERIAL_FROM
  {
    BudgetsAtThresholds();
    hide MemoryBudget;
    if total >= PARALLEL_FROM {
      BudgetIsMonotone(PARALLEL_FROM, total);
    } else {
      BudgetIsMonotone(total, PARALLEL_FROM - 1);
    }
  }

  lemma FloorIsMonotone(a: int, b: int, d: int)
    requires a <= b && d > 0
    ensures a / d <= b / d
  {
    var q, q' := a / d, b / d;
    assert a == q * d + a % d && b == q' * d + b % d;
    assert (q' + 1 - q) * d == q' * d + d - q * d > 0;
  }

  lemma WholeMiBIsMonotone(a: int, b: int)
    requires a <= b
    ensures WholeMiB(a) <= WholeMiB(b)
  {
    FloorIsMonotone(a, b, MIB);
  }

  /** Field by field, `r` asks for no more than `r'`. */
  predicate NoMore(r: Resources, r': Resources) {
    && r.cargoWorkers <= r'.cargoWorkers
    && r.gradleHeap <= r'.gradleHeap
    && r.gradleWorkers <= r'.gradleWorkers
    && r.inputWorkers <= r'.inputWorkers
    && r.packageWorkers <= r'.packageWorkers
    && r.memoryBudget <= r'.memoryBudget
  }

  lemma ParallelResourcesGrow(cores: int, cores': int, b: int, b': int)
    requires 0 <= b <= b' && 1 <= cores <= cores'
    ensures NoMore(ParallelResources(cores, b), ParallelResources(cores', b'))
  {
    var g, g' := b * 55 / 100, b' * 55 / 100;
    var h, h' := Min(GRADLE_MAX_HEAP, Max(0, g - GRADLE_NON_HEAP)), Min(GRADLE_MAX_HEAP, Max(0, g' - GRADLE_NON_HEAP));
    WholeMiBIsMonotone(h, h');
    FloorIsMonotone(WholeMiB(h), WholeMiB(h'), TOOLCHAIN_WORKER);
    FloorIsMonotone(b - g, b' - g', TOOLCHAIN_WORKER);
    hide WholeMiB;
  }

  lemma SequentialResourcesGrow(cores: int, cores': int, b: int, b': int)
    requires 0 <= b <= b' && 1 <= cores <= cores'
    ensures NoMore(SequentialResources(cores, b), SequentialResources(cores', b'))
  {
    var h, h' := Min(GRADLE_MAX_HEAP, Max(0, b - GRADLE_NON_HEAP)), Min(GRADLE_MAX_HEAP, Max(0, b' - GRADLE_NON_HEAP));
    WholeMiBIsMonotone(h, h');
    FloorIsMonotone(WholeMiB(h), WholeMiB(h'), TOOLCHAIN_WORKER);
    FloorIsMonotone(b, b', TOOLCHAIN_WORKER);
    hide WholeMiB;
  }

  /** A host on which AUTO builds one stage at a time grows into one on which it builds in
      parallel: when Gradle's share of the new budget reaches its ceiling or the old
      budget, in whole mebibytes, and the split cores and shares still hold the old workers. */
  predicate SplitGrows(cores: int, b: int, cores': int, b': int) {
    var share := b' * 55 / 100;
    && (share >= GRADLE_MAX_HEAP + GRADLE_NON_HEAP || b / MIB <= share / MIB)
    && Min(cores, b / TOOLCHAIN_WORKER) <= Min(cores' / 2, (b' - share) / TOOLCHAIN_WORKER)
    && Min(cores, WholeMiB(Min(GRADLE_MAX_HEAP, b - GRADLE_NON_HEAP)) / TOOLCHAIN_WORKER) <= cores' - cores' / 2
  }

  lemma WholeMiBShifts(n: int)
    ensures WholeMiB(n - GRADLE_NON_HEAP) == WholeMiB(n) - GRADLE_NON_HEAP
  {
  }

  /** The heap of the split plan is no smaller exactly under the first condition. */
  lemma HeapGrows(b: int, share: int)
    requires b >= GRADLE_MIN_HEAP + GRADLE_NON_HEAP && share >= GRADLE_MIN_HEAP + GRADLE_NON_HEAP
    ensures WholeMiB(Min(GRADLE_MAX_HEAP, b - GRADLE_NON_HEAP)) <= WholeMiB(Min(GRADLE_MAX_HEAP,
      share - GRADLE_NON_HEAP)) <==>
      share >= GRADLE_MAX_HEAP + GRADLE_NON_HEAP || b / MIB <= share / MIB
  {
    WholeMiBShifts(b);
    WholeMiBShifts(share);
    FloorBounds(b, MIB);
    FloorBounds(share, MIB);
  }

  lemma SplitIsExact(cores: int, b: int, cores': int, b': int)
    requires 1 <= cores <= cores' && GRADLE_MIN_HEAP + GRADLE_NON_HEAP <= b <= b' && ParallelAdmissible(cores', b')
    ensures NoMore(SequentialResources(cores, b), ParallelResources(cores', b')) <==> SplitGrows(cores, b, cores', b')
  {
    var share := b' * 55 / 100;
    HeapGrows(b, share);
    var h, h' := WholeMiB(Min(GRADLE_MAX_HEAP, b - GRADLE_NON_HEAP)),
      WholeMiB(Min(GRADLE_MAX_HEAP, share - GRADLE_NON_HEAP));
    HeapBounds(Min(GRADLE_MAX_HEAP, b - GRADLE_NON_HEAP));
    HeapBounds(Min(GRADLE_MAX_HEAP, share - GRADLE_NON_HEAP));
    hide WholeMiB;
    FloorBounds(b, TOOLCHAIN_WORKER);
    FloorBounds(b' - share, TOOLCHAIN_WORKER);
    FloorBounds(h, TOOLCHAIN_WORKER);
    FloorBounds(h', TOOLCHAIN_WORKER);
    if h <= h' {
      FloorIsMonotone(h, h', TOOLCHAIN_WORKER);
    }
  }

  /**
   * A larger host is admitted wherever a smaller one is, for every profile, and never goes
   * back from a parallel plan. It gets at least the smaller one's resources whenever both
   * plans are of one kind, as they always are for a named profile; where AUTO turns
   * parallel it does exactly under `SplitGrows`.
   */
  lemma MoreHostMoreBuild(cpuCount: int, total: int, cpuCount': int, total': int, profile: string)
    requires cpuCount <= cpuCount' && total <= total'
    ensures var r, r' := RuntimeBuildPlan(cpuCount, total, profile), RuntimeBuildPlan(cpuCount', total', profile);
      r.Some? ==>
        && r'.Some?
        && (r.value.parallel ==> r'.value.parallel)
        && (profile != "AUTO" ==> r.value.parallel == r'.value.parallel)
        && (NoMore(r.value.resources, r'.value.resources) <==>
              || r.value.parallel == r'.value.parallel
              || SplitGrows(Max(1, cpuCount), MemoryBudget(total), Max(1, cpuCount'), MemoryBudget(total')))
  {
    BudgetIsMonotone(total, total');
    AdmissionIsExact(cpuCount, total);
    AdmissionIsExact(cpuCount', total');
    var c, c', b, b' := Max(1, cpuCount), Max(1, cpuCount'), MemoryBudget(total), MemoryBudget(total');
    ParallelResourcesGrow(c, c', b, b');
    SequentialResourcesGrow(c, c', b, b');
    var r := RuntimeBuildPlan(cpuCount, total, profile);
    if r.Some? && !r.value.parallel {
      if ParallelAdmissible(c', b') {
        SplitIsExact(c, b, c', b');
      }
    }
    hide MemoryBudget, WholeMiB, ParallelResources, ParallelAdmissible, SplitGrows;
  }

  /** The first byte with which AUTO turns parallel on two cores shrinks Gradle's heap. */
  lemma AutoShrinksAtThreshold()
    ensures var r, r' := RuntimeBuildPlan(2, PARALLEL_FROM - 1, "AUTO"), RuntimeBuildPlan(2, PARALLEL_FROM, "AUTO");
      && r.Some? && r'.Some? && !r.value.parallel && r'.value.parallel
      && r'.value.resources.gradleHeap < r.value.resources.gradleHeap
      && !NoMore(r.value.resources, r'.value.resources)
  {
    AdmissionIsExact(2, PARALLEL_FROM - 1);
    AdmissionIsExact(2, PARALLEL_FROM);
  }

  /** Memory for the parts of one build that may run at the same time. */
  function Together(r: Resources): int { r.gradleHeap + GRADLE_NON_HEAP + r.cargoWorkers * TOOLCHAIN_WORKER }

  /** A plan's workers, each within the cores and each stage alone within the budget. */
  predicate Bounded(cores: int, p: Plan) {
    var r := p.resources;
    && 1 <= r.cargoWorkers && 1 <= r.gradleWorkers && 1 <= r.inputWorkers && 1 <= r.packageWorkers
    && (p.parallel ==> r.cargoWorkers + r.gradleWorkers <= cores)
    && r.cargoWorkers <= cores && r.gradleWorkers <= cores && r.inputWorkers <= cores && r.packageWorkers <= cores
    && r.gradleHeap + GRADLE_NON_HEAP <= r.memoryBudget
    && r.cargoWorkers * TOOLCHAIN_WORKER <= r.memoryBudget
    && r.gradleWorkers * TOOLCHAIN_WORKER <= r.gradleHeap
  }

  lemma FloorBounds(n: int, d: int)
    requires d > 0
    ensures n / d * d <= n < n / d * d + d
    ensures n >= 0 ==> n / d >= 0
    ensures n >= d ==> n / d >= 1
  {
  }

  lemma HeapBounds(n: int)
    requires n >= GRADLE_MIN_HEAP
    ensures GRADLE_MIN_HEAP <= WholeMiB(n) <= n < WholeMiB(n) + MIB
    ensures WholeMiB(n) % MIB == 0
    ensures GRADLE_MAX_HEAP <= n ==> GRADLE_MAX_HEAP <= WholeMiB(n)
  {
  }

  /** As many workers as are wanted and as the memory holds. */
  lemma WorkersFit(desired: int, memory: int)
    requires desired >= 1 && memory >= TOOLCHAIN_WORKER
    ensures var n := Min(desired, Max(1, memory / TOOLCHAIN_WORKER));
      1 <= n <= desired && n * TOOLCHAIN_WORKER <= memory
  {
    FloorBounds(memory, TOOLCHAIN_WORKER);
  }

  lemma ParallelPlanFits(cores: int, budget: int, profile: string)
    requires ParallelAdmissible(cores, budget)
    ensures var r := ParallelResources(cores, budget);
      && Bounded(cores, Plan(profile, true, r))
      && GradleHeapOption(r.gradleHeap).Some?
      && Together(r) <= budget
  {
    var gradleBudget := budget * 55 / 100;
    var heap := Min(GRADLE_MAX_HEAP, gradleBudget - GRADLE_NON_HEAP);
    HeapBounds(heap);
    WorkersFit(Max(1, cores / 2), budget - gradleBudget);
    var r := ParallelResources(cores, budget);
    assert r.gradleHeap == WholeMiB(heap);
    hide WholeMiB, MIB;
    WorkersFit(Max(1, cores - Max(1, cores / 2)), r.gradleHeap);
  }

  lemma SerialPlanFits(cores: int, budget: int, profile: string, heap: int, cargo: int, gradle: int)
    requires cores >= 1 && budget - GRADLE_NON_HEAP >= GRADLE_MIN_HEAP
    requires !(profile == "AUTO" && ParallelAdmissible(cores, budget))
    requires heap == WholeMiB(Min(GRADLE_MAX_HEAP, budget - GRADLE_NON_HEAP))
    requires cargo == 1 || (profile == "AUTO" && cargo == Min(cores, Max(1, budget / TOOLCHAIN_WORKER)))
    requires gradle == 1 || gradle == Min(cores, Max(1, heap / TOOLCHAIN_WORKER))
    ensures var r := Resources(cargo, heap, gradle, 1, 1, budget);
      && Bounded(cores, Plan(profile, false, r))
      && GradleHeapOption(heap).Some?
      && (Together(r) <= budget <==> budget >= GRADLE_MAX_HEAP + GRADLE_NON_HEAP + TOOLCHAIN_WORKER)
  {
    ParallelThreshold(cores, budget);
    HeapBounds(Min(GRADLE_MAX_HEAP, budget - GRADLE_NON_HEAP));
    FloorBounds(budget, TOOLCHAIN_WORKER);
    FloorBounds(heap, TOOLCHAIN_WORKER);
    hide WholeMiB, ParallelAdmissible;
  }

  /**
   * What every returned plan grants. The SERIAL and AUTO one-at-a-time plans fit stage
   * by stage; Gradle and Cargo fit together exactly when the plan is parallel or
   * the budget has reached the heap ceiling plus non-heap plus one worker.
   */
  lemma PlanFits(cpuCount: int, total: int, profile: string)
    ensures var r := RuntimeBuildPlan(cpuCount, total, profile);
      r.Some? ==>
        var p := r.value;
        && Bounded(Max(1, cpuCount), p)
        && GradleHeapOption(p.resources.gradleHeap).Some?
        && (Together(p.resources) <= p.resources.memoryBudget <==>
             p.parallel || p.resources.memoryBudget >= GRADLE_MAX_HEAP + GRADLE_NON_HEAP + TOOLCHAIN_WORKER)
  {
    var cores, budget := Max(1, cpuCount), MemoryBudget(total);
    var r := RuntimeBuildPlan(cpuCount, total, profile);
    if r.Some? && r.value.parallel {
      ParallelPlanFits(cores, budget, profile);
    } else if r.Some? {
      var res := r.value.resources;
      assert WholeMiB(Min(GRADLE_MAX_HEAP, Max(0, budget - GRADLE_NON_HEAP))) >= GRADLE_MIN_HEAP;
      SerialPlanFits(cores, budget, profile, res.gradleHeap, res.cargoWorkers, res.gradleWorkers);
    }
    hide MemoryBudget, WholeMiB, ParallelResources, ParallelAdmissible, Bounded, Together, GradleHeapOption;
  }

  /** The serial plan for the smallest admitted host does not leave room for Cargo beside Gradle. */
  lemma SmallestSerialPlan()
    ensures var r := RuntimeBuildPlan(1, SERIAL_FROM, "SERIAL");
      r.Some? && Together(r.value.resources) > r.value.resources.memoryBudget
  {
    PlanFits(1, SERIAL_FROM, "SERIAL");
  }
}
