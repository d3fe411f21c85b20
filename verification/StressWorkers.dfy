/** The virtual-user workers of the flow stress runner: goroutines that claim iteration
    numbers from one atomic counter, run the flow, and report under a mutex. The state
    machine takes one worker through one atomic action at a time, in any order. */
module StressWorkers {
  import opened StressModel

  datatype Config = Config(mode: string, iterations: int, workers: nat)

  /** One finished run of the flow. `measured` is what the schedule said when it ended. */
  datatype Flow = Flow(vu: nat, iteration: nat, items: seq<Observation>, failed: bool, measured: bool)

  datatype Worker =
    | Polling                   // at the head of the loop
    | Claiming                  // past the deadline and stage checks
    | Running(iteration: nat)   // executing the flow, without the lock
    | Reporting(flow: Flow)     // waiting for the mutex
    | Returned

  /** `claimed` .. `excluded` are the program's variables. `claims` and `flows` record the run:
      `claims[k]` is the worker that took index `k`, `flows` lists the finished flows. */
  datatype State = State(
    workers: seq<Worker>, claimed: nat, iterationCount: nat, failedIterations: nat,
    observations: seq<Observation>, excluded: nat, claims: seq<nat>, flows: seq<Flow>)

  datatype Step =
    | Expire(vu: nat)   // the deadline has passed
    | Wait(vu: nat)     // the stage does not want this worker now
    | Proceed(vu: nat)
    | Claim(vu: nat)
    | Finish(vu: nat, items: seq<Observation>, failed: bool, measured: bool)
    | Report(vu: nat)

  function Init(cfg: Config): State {
    State(seq(cfg.workers, _ => Polling), 0, 0, 0, [], 0, [], [])
  }

  predicate Enabled(cfg: Config, s: State, step: Step) {
    && step.vu < |s.workers|
    && match step
       case Expire(vu) => s.workers[vu].Polling? && (cfg.mode == "duration" || cfg.mode == "stages")
       case Wait(vu) => s.workers[vu].Polling? && cfg.mode == "stages"
       case Proceed(vu) => s.workers[vu].Polling?
       case Claim(vu) => s.workers[vu].Claiming?
       case Finish(vu, _, _, _) => s.workers[vu].Running?
       case Report(vu) => s.workers[vu].Reporting?
  }

  function Apply(cfg: Config, s: State, step: Step): State
    requires Enabled(cfg, s, step)
  {
    match step
    case Expire(vu) => s.(workers := s.workers[vu := Returned])
    case Wait(vu) => s
    case Proceed(vu) => s.(workers := s.workers[vu := Claiming])
    case Claim(vu) =>
      var iteration := s.claimed;
      if cfg.mode == "iterations" && iteration >= cfg.iterations
      then s.(claimed := s.claimed + 1, workers := s.workers[vu := Returned])
      else s.(claimed := s.claimed + 1, workers := s.workers[vu := Running(iteration)], claims := s.claims + [vu])
    case Finish(vu, items, failed, measured) =>
      var flow := Flow(vu, s.workers[vu].iteration, items, failed, measured);
      s.(workers := s.workers[vu := Reporting(flow)], flows := s.flows + [flow])
    case Report(vu) =>
      var flow := s.workers[vu].flow;
      var s' := s.(workers := s.workers[vu := Polling]);
      if flow.measured
      then s'.(observations := s.observations + flow.items, iterationCount := s.iterationCount + 1,
               failedIterations := s.failedIterations + if flow.failed then 1 else 0)
      else s'.(excluded := s.excluded + |flow.items|)
  }

  /** `steps` is an interleaving the workers can perform from `s`. */
  predicate Runs(cfg: Config, s: State, steps: seq<Step>)
    decreases |steps|
  {
    steps == [] || (Enabled(cfg, s, steps[0]) && Runs(cfg, Apply(cfg, s, steps[0]), steps[1..]))
  }

  function Execute(cfg: Config, s: State, steps: seq<Step>): State
    requires Runs(cfg, s, steps)
    decreases |steps|
  {
    if steps == [] then s else Execute(cfg, Apply(cfg, s, steps[0]), steps[1..])
  }

  // ----- sums over the workers

  ghost function Sum(workers: seq<Worker>, weight: Worker -> int): int {
    if workers == [] then 0 else weight(workers[0]) + Sum(workers[1..], weight)
  }

  lemma {:induction false} SumUpdate(workers: seq<Worker>, weight: Worker -> int, vu: nat, w: Worker)
    requires vu < |workers|
    ensures Sum(workers[vu := w], weight) == Sum(workers, weight) - weight(workers[vu]) + weight(w)
  {
    if vu == 0 {
      assert workers[0 := w][1..] == workers[1..];
    } else {
      assert workers[vu := w][1..] == workers[1..][vu - 1 := w];
      SumUpdate(workers[1..], weight, vu - 1, w);
    }
  }

  lemma OneMore(x: int, n: nat)
    ensures x * (n + 1) == x * n + x
  {
  }

  lemma {:induction false} SumBounds(workers: seq<Worker>, weight: Worker -> int, low: int, high: int)
    requires forall w <- workers :: low <= weight(w) <= high
    ensures low * |workers| <= Sum(workers, weight) <= high * |workers|
  {
    if workers != [] {
      var rest := workers[1..];
      assert workers[0] in workers && forall w <- rest :: w in workers;
      SumBounds(rest, weight, low, high);
      OneMore(low, |rest|);
      OneMore(high, |rest|);
    }
  }

  function HasReturned(w: Worker): int { if w.Returned? then 1 else 0 }

  ghost function ReturnedCount(s: State): int { Sum(s.workers, HasReturned) }

  // ----- what has been reported, what is still in flight

  /** A quantity a finished flow adds to the report: copies of one observation, excluded
      observations, measured iterations, failed measured iterations. */
  datatype Quantity = Copies(item: Observation) | Excluded | Iterations | Failures

  function Amount(q: Quantity, flow: Flow): int {
    match q
    case Copies(item) => if flow.measured then multiset(flow.items)[item] else 0
    case Excluded => if flow.measured then 0 else |flow.items|
    case Iterations => if flow.measured then 1 else 0
    case Failures => if flow.measured && flow.failed then 1 else 0
  }

  function Produced(q: Quantity, flows: seq<Flow>): int {
    if flows == [] then 0 else Produced(q, flows[..|flows| - 1]) + Amount(q, flows[|flows| - 1])
  }

  function Reported(q: Quantity, s: State): int {
    match q
    case Copies(item) => multiset(s.observations)[item]
    case Excluded => s.excluded
    case Iterations => s.iterationCount
    case Failures => s.failedIterations
  }

  function Pending(q: Quantity): Worker -> int {
    (w: Worker) => if w.Reporting? then Amount(q, w.flow) else 0
  }

  ghost function InFlight(q: Quantity, s: State): int {
    Sum(s.workers, Pending(q))
  }

  ghost predicate Conserved(q: Quantity, s: State) {
    Reported(q, s) + InFlight(q, s) == Produced(q, s.flows)
  }

  // ----- the invariant

  predicate HasFinished(s: State, k: nat) {
    exists i :: 0 <= i < |s.flows| && s.flows[i].iteration == k
  }

  predicate Owns(s: State, vu: nat, k: nat) {
    k < |s.claims| && s.claims[k] == vu
  }

  ghost predicate ClaimsAreOwned(s: State) {
    && (forall k :: 0 <= k < |s.claims| ==> s.claims[k] < |s.workers|)
    && (forall k: nat :: k < |s.claims| && !HasFinished(s, k) ==> s.workers[s.claims[k]] == Running(k))
    && (forall vu: nat :: vu < |s.workers| && s.workers[vu].Running? ==>
          Owns(s, vu, s.workers[vu].iteration) && !HasFinished(s, s.workers[vu].iteration))
  }

  ghost predicate FlowsAreDistinct(s: State) {
    && (forall i :: 0 <= i < |s.flows| ==> Owns(s, s.flows[i].vu, s.flows[i].iteration))
    && (forall i, j :: 0 <= i < j < |s.flows| ==> s.flows[i].iteration != s.flows[j].iteration)
  }

  ghost predicate CounterIsExact(cfg: Config, s: State) {
    if cfg.mode == "iterations"
    then s.claimed == |s.claims| + ReturnedCount(s) && |s.claims| == (if s.claimed < cfg.iterations then s.claimed else cfg.iterations)
    else s.claimed == |s.claims|
  }

  ghost predicate Inv(cfg: Config, s: State) {
    && |s.workers| == cfg.workers
    && ClaimsAreOwned(s) && FlowsAreDistinct(s) && CounterIsExact(cfg, s)
    && s.failedIterations <= s.iterationCount
  }

  lemma InitInv(cfg: Config)
    requires cfg.mode == "iterations" ==> cfg.iterations >= 0
    ensures Inv(cfg, Init(cfg))
  {
    SumBounds(Init(cfg).workers, HasReturned, 0, 0);
  }

  lemma ClaimInv(cfg: Config, s: State, vu: nat)
    requires Inv(cfg, s) && Enabled(cfg, s, Claim(vu))
    ensures Inv(cfg, Apply(cfg, s, Claim(vu)))
  {
    var s' := Apply(cfg, s, Claim(vu));
    SumUpdate(s.workers, HasReturned, vu, s'.workers[vu]);
    assert forall k: nat :: HasFinished(s', k) == HasFinished(s, k);
    if s'.workers[vu].Running? {
      assert !HasFinished(s, |s.claims|);
    }
  }

  lemma FinishInv(cfg: Config, s: State, step: Step)
    requires step.Finish? && Inv(cfg, s) && Enabled(cfg, s, step)
    ensures Inv(cfg, Apply(cfg, s, step))
  {
    var s' := Apply(cfg, s, step);
    var vu, k := step.vu, s.workers[step.vu].iteration;
    SumUpdate(s.workers, HasReturned, vu, s'.workers[vu]);
    assert s'.flows[|s.flows|].iteration == k;
    forall j: nat
      ensures HasFinished(s', j) == (HasFinished(s, j) || j == k)
    {
      if HasFinished(s, j) {
        var i :| 0 <= i < |s.flows| && s.flows[i].iteration == j;
        assert s'.flows[i].iteration == j;
      }
    }
  }

  lemma ReportInv(cfg: Config, s: State, vu: nat)
    requires Inv(cfg, s) && Enabled(cfg, s, Report(vu))
    ensures Inv(cfg, Apply(cfg, s, Report(vu)))
  {
    var s' := Apply(cfg, s, Report(vu));
    SumUpdate(s.workers, HasReturned, vu, Polling);
    assert forall k: nat :: HasFinished(s', k) == HasFinished(s, k);
  }

  lemma StepInv(cfg: Config, s: State, step: Step)
    requires Inv(cfg, s) && Enabled(cfg, s, step)
    ensures Inv(cfg, Apply(cfg, s, step))
  {
    var s', vu := Apply(cfg, s, step), step.vu;
    match step
    case Claim(_) => ClaimInv(cfg, s, vu);
    case Finish(_, _, _, _) => FinishInv(cfg, s, step);
    case Report(_) => ReportInv(cfg, s, vu);
    case Wait(_) =>
    case _ =>
      SumUpdate(s.workers, HasReturned, vu, s'.workers[vu]);
      assert forall k: nat :: HasFinished(s', k) == HasFinished(s, k);
  }

  lemma StepConserves(cfg: Config, s: State, step: Step, q: Quantity)
    requires Conserved(q, s) && Enabled(cfg, s, step)
    ensures Conserved(q, Apply(cfg, s, step))
  {
    var s', vu := Apply(cfg, s, step), step.vu;
    SumUpdate(s.workers, Pending(q), vu, s'.workers[vu]);
    assert s'.workers == s.workers[vu := s'.workers[vu]];
    if step.Finish? {
      assert s'.flows[..|s'.flows| - 1] == s.flows;
    }
  }

  lemma {:induction false} RunConserves(cfg: Config, s: State, steps: seq<Step>, q: Quantity)
    requires Conserved(q, s) && Runs(cfg, s, steps)
    ensures Conserved(q, Execute(cfg, s, steps))
    decreases |steps|
  {
    if steps != [] {
      StepConserves(cfg, s, steps[0], q);
      RunConserves(cfg, Apply(cfg, s, steps[0]), steps[1..], q);
    }
  }

  /** The invariant holds after every interleaving. */
  lemma {:induction false} RunInv(cfg: Config, s: State, steps: seq<Step>)
    requires Inv(cfg, s) && Runs(cfg, s, steps)
    ensures Inv(cfg, Execute(cfg, s, steps))
    decreases |steps|
  {
    if steps != [] {
      StepInv(cfg, s, steps[0]);
      RunInv(cfg, Apply(cfg, s, steps[0]), steps[1..]);
    }
  }

  // ----- main results

  ghost predicate AllReturned(s: State) {
    forall w <- s.workers :: w.Returned?
  }

  /** Index `k` was executed once: one finished flow carries it, and no other. */
  ghost predicate ExecutedOnce(s: State, k: nat) {
    exists i :: && 0 <= i < |s.flows| && s.flows[i].iteration == k
                && forall j :: 0 <= j < |s.flows| && s.flows[j].iteration == k ==> j == i
  }

  lemma FinishedOnce(s: State, k: nat)
    requires FlowsAreDistinct(s) && HasFinished(s, k)
    ensures ExecutedOnce(s, k)
  {
    var i :| 0 <= i < |s.flows| && s.flows[i].iteration == k;
    assert forall j :: 0 <= j < |s.flows| && s.flows[j].iteration == k ==> j == i;
  }

  /** At any moment of any run, an index is executed by one worker at most, and in iterations
      mode no index outside 0..iterations-1 is executed at all. */
  lemma NoIndexTwice(cfg: Config, steps: seq<Step>, k: nat, v1: nat, v2: nat)
    requires cfg.mode == "iterations" ==> cfg.iterations >= 0
    requires Runs(cfg, Init(cfg), steps)
    requires var s := Execute(cfg, Init(cfg), steps);
             v1 < |s.workers| && v2 < |s.workers| && s.workers[v1] == Running(k)
             && (s.workers[v2] == Running(k) || exists i :: 0 <= i < |s.flows| && s.flows[i].iteration == k && s.flows[i].vu == v2)
    ensures var s := Execute(cfg, Init(cfg), steps);
            v1 == v2 && !HasFinished(s, k) && (cfg.mode == "iterations" ==> k < cfg.iterations)
  {
    InitInv(cfg);
    RunInv(cfg, Init(cfg), steps);
    var s := Execute(cfg, Init(cfg), steps);
    assert Owns(s, v1, s.workers[v1].iteration);
    if s.workers[v2] == Running(k) {
      assert Owns(s, v2, s.workers[v2].iteration);
    }
  }

  /** In iterations mode, once every worker has returned, each index below `iterations` was
      executed exactly once and no other was; the counter overshoots by one per worker; the
      report holds exactly what the flows produced. */
  lemma AllIterationsExecutedOnce(cfg: Config, steps: seq<Step>)
    requires cfg.mode == "iterations" && cfg.iterations >= 1 && cfg.workers >= 1
    requires Runs(cfg, Init(cfg), steps) && AllReturned(Execute(cfg, Init(cfg), steps))
    ensures var s := Execute(cfg, Init(cfg), steps);
            && (forall k: nat :: k < cfg.iterations ==> ExecutedOnce(s, k))
            && (forall i :: 0 <= i < |s.flows| ==> s.flows[i].iteration < cfg.iterations)
            && s.claimed == cfg.iterations + cfg.workers
            && (forall q :: Reported(q, s) == Produced(q, s.flows))
            && s.failedIterations <= s.iterationCount <= cfg.iterations
  {
    InitInv(cfg);
    RunInv(cfg, Init(cfg), steps);
    var s := Execute(cfg, Init(cfg), steps);
    SumBounds(s.workers, HasReturned, 1, 1);
    NothingIsLost(cfg, steps);
    forall k: nat | k < cfg.iterations
      ensures ExecutedOnce(s, k)
    {
      assert HasFinished(s, k) by {
        assert s.workers[s.claims[k]] in s.workers;
      }
      FinishedOnce(s, k);
    }
    forall i | 0 <= i < |s.flows|
      ensures s.flows[i].iteration < cfg.iterations
    {
      assert Owns(s, s.flows[i].vu, s.flows[i].iteration);
    }
    ProducedAtMostFlows(s.flows);
    FlowsAtMostClaims(s, cfg.iterations);
  }

  lemma {:induction false} ProducedAtMostFlows(flows: seq<Flow>)
    ensures Produced(Iterations, flows) <= |flows|
  {
    if flows != [] {
      ProducedAtMostFlows(flows[..|flows| - 1]);
    }
  }

  lemma FlowsAtMostClaims(s: State, n: int)
    requires FlowsAreDistinct(s) && n >= 0 && forall i :: 0 <= i < |s.flows| ==> s.flows[i].iteration < n
    ensures |s.flows| <= n
  {
    var indices := seq(|s.flows|, i requires 0 <= i < |s.flows| => s.flows[i].iteration);
    DistinctBelow(indices, n);
  }

  lemma {:induction false} DistinctBelow(xs: seq<nat>, n: int)
    requires n >= 0 && (forall i :: 0 <= i < |xs| ==> xs[i] < n)
    requires forall i, j :: 0 <= i < j < |xs| ==> xs[i] != xs[j]
    ensures |xs| <= n
  {
    assert |xs| > 0 ==> xs[0] < n;
    if n > 0 {
      if i :| 0 <= i < |xs| && xs[i] == n - 1 {
        var rest := xs[..i] + xs[i + 1..];
        DistinctBelow(rest, n - 1);
      } else {
        DistinctBelow(xs, n - 1);
      }
    }
  }

  /** In every mode and at every moment, for every quantity: what was reported and what is in
      flight is what the finished flows produced. Nothing is in flight at the end. */
  lemma NothingIsLost(cfg: Config, steps: seq<Step>)
    requires Runs(cfg, Init(cfg), steps)
    ensures forall q :: Conserved(q, Execute(cfg, Init(cfg), steps))
    ensures var s := Execute(cfg, Init(cfg), steps);
            AllReturned(s) ==> forall q :: Reported(q, s) == Produced(q, s.flows)
  {
    var s := Execute(cfg, Init(cfg), steps);
    forall q
      ensures Conserved(q, s) && (AllReturned(s) ==> Reported(q, s) == Produced(q, s.flows))
    {
      SumBounds(Init(cfg).workers, Pending(q), 0, 0);
      RunConserves(cfg, Init(cfg), steps, q);
      if AllReturned(s) {
        SumBounds(s.workers, Pending(q), 0, 0);
      }
    }
  }

  // ----- termination

  function Rank(w: Worker): int {
    match w case Polling => 1 case Claiming => 0 case Running(_) => 3 case Reporting(_) => 2 case Returned => 0
  }

  ghost function Remaining(cfg: Config, s: State): int {
    4 * (cfg.iterations + cfg.workers - s.claimed) + Sum(s.workers, Rank)
  }

  lemma RemainingBounds(cfg: Config, s: State)
    requires cfg.mode == "iterations" && cfg.iterations >= 0 && Inv(cfg, s)
    ensures 0 <= Remaining(cfg, s)
  {
    SumBounds(s.workers, HasReturned, 0, 1);
    SumBounds(s.workers, Rank, 0, 3);
  }

  lemma {:induction false} StepsConsumeRank(cfg: Config, s: State, steps: seq<Step>)
    requires cfg.mode == "iterations" && cfg.iterations >= 0 && Inv(cfg, s) && Runs(cfg, s, steps)
    ensures |steps| + Remaining(cfg, Execute(cfg, s, steps)) <= Remaining(cfg, s)
    decreases |steps|
  {
    if steps != [] {
      var s' := Apply(cfg, s, steps[0]);
      StepInv(cfg, s, steps[0]);
      SumUpdate(s.workers, Rank, steps[0].vu, s'.workers[steps[0].vu]);
      StepsConsumeRank(cfg, s', steps[1..]);
    }
  }

  /** Some worker can act unless all have returned. */
  lemma NoDeadlock(cfg: Config, s: State)
    ensures (exists step :: Enabled(cfg, s, step)) <==> !AllReturned(s)
  {
    if !AllReturned(s) {
      var w :| w in s.workers && !w.Returned?;
      var vu: nat :| vu < |s.workers| && s.workers[vu] == w;
      var step := match w
        case Polling => Proceed(vu)
        case Claiming => Claim(vu)
        case Running(_) => Finish(vu, [], false, false)
        case Reporting(_) => Report(vu);
      assert Enabled(cfg, s, step);
    }
    forall step | Enabled(cfg, s, step)
      ensures !AllReturned(s)
    {
      assert s.workers[step.vu] in s.workers;
    }
  }

  /** In iterations mode no interleaving is longer than 4 * iterations + 5 * workers steps, and a
      run that cannot go on has all its workers returned: no schedule deadlocks or runs forever. */
  lemma EveryRunTerminates(cfg: Config, steps: seq<Step>)
    requires cfg.mode == "iterations" && cfg.iterations >= 0
    requires Runs(cfg, Init(cfg), steps)
    ensures |steps| <= 4 * cfg.iterations + 5 * cfg.workers
    ensures var s := Execute(cfg, Init(cfg), steps);
            (forall step :: !Enabled(cfg, s, step)) <==> AllReturned(s)
  {
    InitInv(cfg);
    RunInv(cfg, Init(cfg), steps);
    var s := Execute(cfg, Init(cfg), steps);
    StepsConsumeRank(cfg, Init(cfg), steps);
    RemainingBounds(cfg, s);
    SumBounds(Init(cfg).workers, Rank, 1, 1);
    NoDeadlock(cfg, s);
  }
}
