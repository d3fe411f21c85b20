/** The staged load schedule of the flow stress runner: how many virtual users are
    wanted at a moment, whether a moment is measured, and how much measured time has
    passed. Seconds are reals. */
module StressSchedule {
  import opened StressModel

  datatype Stage = Stage(durationS: real, targetVus: int, rampS: real, measure: bool)

  datatype Config = Config(mode: string, warmupS: real, stages: seq<Stage>)

  const MAX_VUS := 200

  function Max(a: real, b: real): real { if a < b then b else a }

  function Min(a: real, b: real): real { if a < b then a else b }

  predicate ValidStage(s: Stage) {
    s.durationS > 0.0 && 0 <= s.targetVus <= MAX_VUS && 0.0 <= s.rampS <= s.durationS
  }

  ghost predicate ValidStages(stages: seq<Stage>) {
    forall i :: 0 <= i < |stages| ==> ValidStage(stages[i])
  }

  function Total(stages: seq<Stage>): real {
    if stages == [] then 0.0 else stages[0].durationS + Total(stages[1..])
  }

  ghost predicate IsPeak(stages: seq<Stage>, peak: int) {
    && (forall s <- stages :: s.targetVus <= peak)
    && (if stages == [] then peak == 0 else exists s <- stages :: s.targetVus == peak)
  }

  /** What the plan check accepts, and the run length and worker pool it derives. */
  method CheckStages(stages: seq<Stage>) returns (ok: bool, total: real, peak: int)
    ensures ok <==> ValidStages(stages)
    ensures ok ==> total == Total(stages)
    ensures ok ==> IsPeak(stages, peak)
  {
    total, peak := 0.0, 0;
    for i := 0 to |stages|
      invariant ValidStages(stages[..i])
      invariant total + Total(stages[i..]) == Total(stages)
      invariant 0 <= peak && forall s <- stages[..i] :: s.targetVus <= peak
      invariant peak == 0 || exists s <- stages[..i] :: s.targetVus == peak
    {
      var stage := stages[i];
      assert stage in stages;
      if !ValidStage(stage) {
        return false, total, peak;
      }
      assert stages[i..][1..] == stages[i + 1..];
      assert stages[..i + 1] == stages[..i] + [stage];
      total := total + stage.durationS;
      if stage.targetVus > peak {
        peak := stage.targetVus;
      }
    }
    assert stages[..|stages|] == stages;
    if stages != [] && peak == 0 {
      assert stages[0] in stages && ValidStage(stages[0]);
    }
    ok := true;
  }

  // ----- the wanted number of virtual users

  function Ramp(span: real, within: real, ramp: real): real
    requires ramp > 0.0
  {
    span * within / ramp
  }

  function StageTarget(s: Stage, previous: int, within: real): int {
    if s.rampS > 0.0 && within < s.rampS
    then Round(previous as real + Ramp((s.targetVus - previous) as real, within, s.rampS))
    else s.targetVus
  }

  function TargetFrom(stages: seq<Stage>, offset: real, previous: int, elapsed: real): int {
    if stages == [] then 0
    else if elapsed < offset + stages[0].durationS then StageTarget(stages[0], previous, elapsed - offset)
    else TargetFrom(stages[1..], offset + stages[0].durationS, stages[0].targetVus, elapsed)
  }

  function TargetAt(stages: seq<Stage>, elapsed: real): int {
    TargetFrom(stages, 0.0, 0, elapsed)
  }

  method StressTargetAt(stages: seq<Stage>, elapsed: real) returns (target: int)
    ensures target == TargetAt(stages, elapsed)
  {
    var offset, previous := 0.0, 0;
    for i := 0 to |stages|
      invariant TargetFrom(stages[i..], offset, previous, elapsed) == TargetAt(stages, elapsed)
    {
      var stage := stages[i];
      if elapsed < offset + stage.durationS {
        var within := elapsed - offset;
        if stage.rampS > 0.0 && within < stage.rampS {
          return Round(previous as real + Ramp((stage.targetVus - previous) as real, within, stage.rampS));
        }
        return stage.targetVus;
      }
      assert stages[i..][1..] == stages[i + 1..];
      offset := offset + stage.durationS;
      previous := stage.targetVus;
    }
    target := 0;
  }

  /** The moment stage `i` begins, and the target it ramps away from. */
  function Begin(stages: seq<Stage>, i: nat): real
    requires i <= |stages|
  {
    Total(stages[..i])
  }

  function Previous(stages: seq<Stage>, i: nat): int
    requires i < |stages|
  {
    if i == 0 then 0 else stages[i - 1].targetVus
  }

  ghost predicate DuringStage(stages: seq<Stage>, i: nat, t: real)
    requires i < |stages|
  {
    Begin(stages, i) <= t < Begin(stages, i + 1)
  }

  lemma {:induction false} TotalAppend(a: seq<Stage>, b: seq<Stage>)
    ensures Total(a + b) == Total(a) + Total(b)
  {
    if a == [] {
      assert a + b == b;
    } else {
      assert (a + b)[1..] == a[1..] + b;
      TotalAppend(a[1..], b);
    }
  }

  lemma BeginStep(stages: seq<Stage>, i: nat)
    requires i < |stages|
    ensures Begin(stages, i + 1) == Begin(stages, i) + stages[i].durationS
  {
    assert stages[..i + 1] == stages[..i] + [stages[i]];
    TotalAppend(stages[..i], [stages[i]]);
    assert Total([stages[i]]) == stages[i].durationS;
  }

  lemma {:induction false} BeginMonotone(stages: seq<Stage>, i: nat, j: nat)
    requires ValidStages(stages) && i <= j <= |stages|
    ensures Begin(stages, i) <= Begin(stages, j)
    decreases j
  {
    if i < j {
      BeginMonotone(stages, i, j - 1);
      BeginStep(stages, j - 1);
    }
  }

  /** The loop finds the stage a moment falls in: skipping the first `k` stages is harmless
      while the moment is not before stage `k`. */
  lemma {:induction false} SkipStages(stages: seq<Stage>, k: nat, t: real)
    requires ValidStages(stages) && k <= |stages| && Begin(stages, k) <= t
    ensures TargetAt(stages, t) == TargetFrom(stages[k..], Begin(stages, k), if k == 0 then 0 else stages[k - 1].targetVus, t)
  {
    if k == 0 {
      assert stages[0..] == stages;
    } else {
      BeginStep(stages, k - 1);
      SkipStages(stages, k - 1, t);
      assert stages[k - 1..][1..] == stages[k..];
    }
  }

  lemma DuringStageTarget(stages: seq<Stage>, i: nat, t: real)
    requires ValidStages(stages) && i < |stages| && DuringStage(stages, i, t)
    ensures TargetAt(stages, t) == StageTarget(stages[i], Previous(stages, i), t - Begin(stages, i))
  {
    SkipStages(stages, i, t);
    BeginStep(stages, i);
  }

  lemma RoundMonotone(x: real, y: real)
    requires x <= y
    ensures Round(x) <= Round(y)
  {
  }

  lemma ProductSign(a: real, b: real)
    requires b >= 0.0
    ensures a >= 0.0 ==> a * b >= 0.0
    ensures a <= 0.0 ==> a * b <= 0.0
  {
  }

  lemma RampAsFactor(span: real, within: real, ramp: real)
    requires ramp > 0.0
    ensures Ramp(span, within, ramp) == span * (within / ramp)
  {
  }

  /** A linear ramp stays between its ends and moves in one direction. */
  lemma RampMonotone(span: real, w1: real, w2: real, ramp: real)
    requires w1 <= w2 && ramp > 0.0
    ensures span >= 0.0 ==> Ramp(span, w1, ramp) <= Ramp(span, w2, ramp)
    ensures span <= 0.0 ==> Ramp(span, w1, ramp) >= Ramp(span, w2, ramp)
  {
    RampAsFactor(span, w1, ramp);
    RampAsFactor(span, w2, ramp);
    var f1, f2 := w1 / ramp, w2 / ramp;
    assert f1 <= f2;
    assert span * f2 - span * f1 == span * (f2 - f1);
    ProductSign(span, f2 - f1);
  }

  lemma RampEnds(span: real, ramp: real)
    requires ramp > 0.0
    ensures Ramp(span, 0.0, ramp) == 0.0 && Ramp(span, ramp, ramp) == span
  {
    RampAsFactor(span, ramp, ramp);
    assert ramp / ramp == 1.0;
  }

  ghost predicate Between(x: int, a: int, b: int) {
    a <= x <= b || b <= x <= a
  }

  lemma StageTargetBetween(s: Stage, previous: int, within: real)
    requires ValidStage(s) && 0.0 <= within
    ensures Between(StageTarget(s, previous, within), previous, s.targetVus)
    ensures within >= s.rampS ==> StageTarget(s, previous, within) == s.targetVus
    ensures within == 0.0 && s.rampS > 0.0 ==> StageTarget(s, previous, within) == previous
  {
    if s.rampS > 0.0 && within < s.rampS {
      var span := (s.targetVus - previous) as real;
      RampEnds(span, s.rampS);
      RampMonotone(span, 0.0, within, s.rampS);
      RampMonotone(span, within, s.rampS, s.rampS);
      var x := previous as real + Ramp(span, within, s.rampS);
      if span >= 0.0 {
        RoundMonotone(previous as real, x);
        RoundMonotone(x, s.targetVus as real);
      } else {
        RoundMonotone(x, previous as real);
        RoundMonotone(s.targetVus as real, x);
      }
    }
  }

  lemma StageTargetMonotone(s: Stage, previous: int, w1: real, w2: real)
    requires ValidStage(s) && 0.0 <= w1 <= w2
    ensures previous <= s.targetVus ==> StageTarget(s, previous, w1) <= StageTarget(s, previous, w2)
    ensures previous >= s.targetVus ==> StageTarget(s, previous, w1) >= StageTarget(s, previous, w2)
  {
    StageTargetBetween(s, previous, w1);
    StageTargetBetween(s, previous, w2);
    if s.rampS > 0.0 && w2 < s.rampS {
      var span := (s.targetVus - previous) as real;
      RampMonotone(span, w1, w2, s.rampS);
      var x1, x2 := previous as real + Ramp(span, w1, s.rampS), previous as real + Ramp(span, w2, s.rampS);
      if previous <= s.targetVus {
        RoundMonotone(x1, x2);
      }
      if previous >= s.targetVus {
        RoundMonotone(x2, x1);
      }
    }
  }

  /** Inside a stage the wanted users lie between the previous and the stage's own target,
      leave the first, settle on the second once the ramp is over, and never turn back. */
  lemma TargetWithinStage(stages: seq<Stage>, i: nat, t1: real, t2: real)
    requires ValidStages(stages) && i < |stages|
    requires DuringStage(stages, i, t1) && DuringStage(stages, i, t2) && t1 <= t2
    ensures Between(TargetAt(stages, t1), Previous(stages, i), stages[i].targetVus)
    ensures Begin(stages, i) + stages[i].rampS <= t1 ==> TargetAt(stages, t1) == stages[i].targetVus
    ensures t1 == Begin(stages, i) && stages[i].rampS > 0.0 ==> TargetAt(stages, t1) == Previous(stages, i)
    ensures Previous(stages, i) <= stages[i].targetVus ==> TargetAt(stages, t1) <= TargetAt(stages, t2)
    ensures Previous(stages, i) >= stages[i].targetVus ==> TargetAt(stages, t1) >= TargetAt(stages, t2)
  {
    DuringStageTarget(stages, i, t1);
    DuringStageTarget(stages, i, t2);
    StageTargetBetween(stages[i], Previous(stages, i), t1 - Begin(stages, i));
    StageTargetMonotone(stages[i], Previous(stages, i), t1 - Begin(stages, i), t2 - Begin(stages, i));
  }

  /** Every moment from the start to the end of the schedule falls in one stage. */
  lemma {:induction false} FindStage(stages: seq<Stage>, n: nat, t: real) returns (i: nat)
    requires ValidStages(stages) && n <= |stages| && 0.0 <= t < Begin(stages, n)
    ensures i < n && DuringStage(stages, i, t)
  {
    assert n != 0 by { assert stages[..0] == []; }
    if Begin(stages, n - 1) <= t {
      i := n - 1;
    } else {
      i := FindStage(stages, n - 1, t);
    }
  }

  lemma TargetAfterEnd(stages: seq<Stage>, t: real)
    requires ValidStages(stages) && Total(stages) <= t
    ensures TargetAt(stages, t) == 0
  {
    assert stages[..|stages|] == stages;
    SkipStages(stages, |stages|, t);
  }

  /** No worker outside 0..peak-1 is ever wanted, so the pool of `peak` workers is enough. */
  lemma TargetWithinPeak(stages: seq<Stage>, peak: int, t: real)
    requires ValidStages(stages) && IsPeak(stages, peak) && 0.0 <= t
    ensures 0 <= TargetAt(stages, t) <= peak
  {
    if t >= Total(stages) {
      TargetAfterEnd(stages, t);
      if stages != [] {
        assert stages[0] in stages;
      }
    } else {
      assert stages[..|stages|] == stages;
      var i := FindStage(stages, |stages|, t);
      assert stages[i] in stages;
      if i > 0 {
        assert stages[i - 1] in stages;
      }
      TargetWithinStage(stages, i, t, t);
    }
  }

  lemma QuotientOfProduct(x: real, f: real)
    requires x != 0.0
    ensures x * f / x == f
  {
  }

  lemma RampAtFactor(span: real, f: real, ramp: real)
    requires ramp > 0.0
    ensures Ramp(span, ramp * f, ramp) == span * f
  {
    RampAsFactor(span, ramp * f, ramp);
    QuotientOfProduct(ramp, f);
  }

  /** The moment of a ramp when half a user is missing. */
  lemma HalfShort(span: real, ramp: real) returns (within: real)
    requires span >= 1.0 && ramp > 0.0
    ensures 0.0 <= within < ramp && Ramp(span, within, ramp) == span - 0.5
  {
    var half := 0.5 / span;
    assert half * span == 0.5;
    assert 0.0 < half <= 0.5;
    var f := 1.0 - half;
    within := ramp * f;
    ProductSign(f, ramp);
    ProductSign(half, ramp);
    assert half * ramp != 0.0;
    assert within == ramp - half * ramp;
    RampAtFactor(span, f, ramp);
    assert span * f == span - span * half;
  }

  lemma LateEnough(s: Stage, previous: int) returns (within: real)
    requires ValidStage(s) && 0 <= previous <= s.targetVus
    ensures 0.0 <= within < s.durationS && StageTarget(s, previous, within) == s.targetVus
  {
    if s.rampS < s.durationS {
      within := s.rampS;
    } else if previous == s.targetVus {
      within := 0.0;
      StageTargetBetween(s, previous, within);
    } else {
      within := HalfShort((s.targetVus - previous) as real, s.rampS);
    }
  }

  /** The pool is not too large either: at some moment all `peak` workers are wanted, even when
      the ramp fills its whole stage and the target itself is only approached. */
  lemma PeakIsReached(stages: seq<Stage>, peak: int) returns (t: real)
    requires ValidStages(stages) && IsPeak(stages, peak) && stages != []
    ensures 0.0 <= t < Total(stages) && TargetAt(stages, t) == peak
  {
    var i :| 0 <= i < |stages| && stages[i].targetVus == peak;
    if i > 0 {
      assert ValidStage(stages[i - 1]) && stages[i - 1] in stages;
    }
    assert ValidStage(stages[i]);
    var within := LateEnough(stages[i], Previous(stages, i));
    t := Begin(stages, i) + within;
    BeginStep(stages, i);
    assert stages[..0] == [];
    BeginMonotone(stages, 0, i);
    BeginMonotone(stages, i + 1, |stages|);
    assert stages[..|stages|] == stages;
    DuringStageTarget(stages, i, t);
  }

  // ----- measured time

  function MeasuredFrom(stages: seq<Stage>, offset: real, t: real): bool {
    if stages == [] then false
    else if t < offset + stages[0].durationS then stages[0].measure
    else MeasuredFrom(stages[1..], offset + stages[0].durationS, t)
  }

  function MeasuredAt(cfg: Config, t: real): bool {
    if cfg.mode != "stages" then t >= cfg.warmupS else MeasuredFrom(cfg.stages, 0.0, t)
  }

  function DurationFrom(stages: seq<Stage>, offset: real, t: real): real {
    if stages == [] then 0.0
    else (if stages[0].measure then Max(0.0, Min(stages[0].durationS, t - offset)) else 0.0)
         + DurationFrom(stages[1..], offset + stages[0].durationS, t)
  }

  function MeasuredDuration(cfg: Config, t: real): real {
    if cfg.mode != "stages" then Max(0.0, t - cfg.warmupS) else DurationFrom(cfg.stages, 0.0, t)
  }

  method StressMeasuredAt(cfg: Config, elapsed: real) returns (measured: bool)
    ensures measured == MeasuredAt(cfg, elapsed)
  {
    if cfg.mode != "stages" {
      return elapsed >= cfg.warmupS;
    }
    var offset := 0.0;
    for i := 0 to |cfg.stages|
      invariant MeasuredFrom(cfg.stages[i..], offset, elapsed) == MeasuredAt(cfg, elapsed)
    {
      var stage := cfg.stages[i];
      if elapsed < offset + stage.durationS {
        return stage.measure;
      }
      assert cfg.stages[i..][1..] == cfg.stages[i + 1..];
      offset := offset + stage.durationS;
    }
    measured := false;
  }

  method ComputeMeasuredDuration(cfg: Config, elapsed: real) returns (measured: real)
    ensures measured == MeasuredDuration(cfg, elapsed)
  {
    if cfg.mode != "stages" {
      return Max(0.0, elapsed - cfg.warmupS);
    }
    var offset, total := 0.0, 0.0;
    for i := 0 to |cfg.stages|
      invariant total + DurationFrom(cfg.stages[i..], offset, elapsed) == MeasuredDuration(cfg, elapsed)
    {
      var stage := cfg.stages[i];
      if stage.measure {
        total := total + Max(0.0, Min(stage.durationS, elapsed - offset));
      }
      assert cfg.stages[i..][1..] == cfg.stages[i + 1..];
      offset := offset + stage.durationS;
    }
    measured := total;
  }

  /** `points` cuts [a, b) into pieces on which "is this moment measured" does not change. */
  ghost predicate Cuts(cfg: Config, points: seq<real>, a: real, b: real) {
    && |points| > 0 && points[0] == a && points[|points| - 1] == b
    && forall i :: 0 <= i < |points| - 1 ==> points[i] <= points[i + 1] && Steady(cfg, points[i], points[i + 1])
  }

  ghost predicate Steady(cfg: Config, a: real, b: real) {
    forall t: real :: a <= t < b ==> MeasuredAt(cfg, t) == MeasuredAt(cfg, a)
  }

  /** The total length of the measured pieces. */
  ghost function MeasuredLength(cfg: Config, points: seq<real>): real {
    if |points| < 2 then 0.0
    else (if MeasuredAt(cfg, points[0]) then points[1] - points[0] else 0.0) + MeasuredLength(cfg, points[1..])
  }

  lemma {:induction false} BeforeOffset(stages: seq<Stage>, offset: real, t: real)
    requires ValidStages(stages) && t <= offset
    ensures DurationFrom(stages, offset, t) == 0.0
  {
    if stages != [] {
      BeforeOffset(stages[1..], offset + stages[0].durationS, t);
    }
  }

  lemma {:induction false} SteadyStages(stages: seq<Stage>, offset: real, a: real, b: real)
    requires ValidStages(stages) && offset <= a <= b
    requires forall t: real :: a <= t < b ==> MeasuredFrom(stages, offset, t) == MeasuredFrom(stages, offset, a)
    ensures DurationFrom(stages, offset, b) - DurationFrom(stages, offset, a)
            == if MeasuredFrom(stages, offset, a) then b - a else 0.0
  {
    if stages != [] {
      var end := offset + stages[0].durationS;
      if b <= end {
        BeforeOffset(stages[1..], end, a);
        BeforeOffset(stages[1..], end, b);
      } else {
        var from := Max(a, end);
        forall t: real | from <= t < b
          ensures MeasuredFrom(stages[1..], end, t) == MeasuredFrom(stages[1..], end, from)
        {
          assert MeasuredFrom(stages, offset, t) == MeasuredFrom(stages, offset, from);
        }
        assert MeasuredFrom(stages, offset, from) == MeasuredFrom(stages, offset, a);
        SteadyStages(stages[1..], end, from, b);
        if a < end {
          BeforeOffset(stages[1..], end, a);
          BeforeOffset(stages[1..], end, end);
        }
      }
    }
  }

  lemma SteadyPiece(cfg: Config, a: real, b: real)
    requires cfg.mode == "stages" ==> ValidStages(cfg.stages)
    requires 0.0 <= a <= b && Steady(cfg, a, b)
    ensures MeasuredDuration(cfg, b) - MeasuredDuration(cfg, a) == if MeasuredAt(cfg, a) then b - a else 0.0
  {
    if cfg.mode == "stages" {
      forall t: real | a <= t < b
        ensures MeasuredFrom(cfg.stages, 0.0, t) == MeasuredFrom(cfg.stages, 0.0, a)
      {
        assert MeasuredAt(cfg, t) == MeasuredAt(cfg, a);
      }
      SteadyStages(cfg.stages, 0.0, a, b);
    } else if a < cfg.warmupS < b {
      assert !MeasuredAt(cfg, a) && MeasuredAt(cfg, cfg.warmupS);
    }
  }

  /** The growth of the measured duration is the length of the measured part of [t1, t2),
      however that interval is cut into steady pieces. */
  lemma {:induction false} MeasuredDurationIsMeasuredLength(cfg: Config, points: seq<real>, t1: real, t2: real)
    requires cfg.mode == "stages" ==> ValidStages(cfg.stages)
    requires 0.0 <= t1 && Cuts(cfg, points, t1, t2)
    ensures MeasuredDuration(cfg, t2) - MeasuredDuration(cfg, t1) == MeasuredLength(cfg, points)
  {
    if |points| > 1 {
      var rest := points[1..];
      assert rest[|rest| - 1] == t2;
      forall i | 0 <= i < |rest| - 1
        ensures rest[i] <= rest[i + 1] && Steady(cfg, rest[i], rest[i + 1])
      {
        assert points[i + 1] <= points[i + 1 + 1];
      }
      assert points[0] <= points[1] && Steady(cfg, points[0], points[1]);
      SteadyPiece(cfg, points[0], points[1]);
      MeasuredDurationIsMeasuredLength(cfg, rest, points[1], t2);
    }
  }

  function StageCuts(stages: seq<Stage>, offset: real, a: real, b: real): seq<real> {
    if stages == [] || b <= offset + stages[0].durationS then [a, b]
    else
      var end := offset + stages[0].durationS;
      if end <= a then StageCuts(stages[1..], end, a, b)
      else [a] + StageCuts(stages[1..], end, end, b)
  }

  lemma {:induction false} StageCutsAreSteady(cfg: Config, k: nat, offset: real, a: real, b: real)
    requires cfg.mode == "stages" && ValidStages(cfg.stages) && k <= |cfg.stages|
    requires 0.0 <= offset <= a <= b
    requires forall t: real :: offset <= t ==> MeasuredAt(cfg, t) == MeasuredFrom(cfg.stages[k..], offset, t)
    ensures Cuts(cfg, StageCuts(cfg.stages[k..], offset, a, b), a, b)
    decreases |cfg.stages| - k
  {
    var stages := cfg.stages[k..];
    if stages != [] && offset + stages[0].durationS < b {
      var end := offset + stages[0].durationS;
      assert stages[1..] == cfg.stages[k + 1..];
      assert stages[0] in cfg.stages;
      forall t: real | end <= t
        ensures MeasuredAt(cfg, t) == MeasuredFrom(cfg.stages[k + 1..], end, t)
      {
      }
      StageCutsAreSteady(cfg, k + 1, end, Max(a, end), b);
      if a < end {
        assert Steady(cfg, a, end);
        var points, rest := StageCuts(stages, offset, a, b), StageCuts(stages[1..], end, end, b);
        assert points == [a] + rest;
        assert points[|points| - 1] == rest[|rest| - 1];
        forall i | 0 <= i < |points| - 1
          ensures points[i] <= points[i + 1] && Steady(cfg, points[i], points[i + 1])
        {
          if i > 0 {
            assert points[i] == rest[i - 1] && points[i + 1] == rest[i - 1 + 1];
          }
        }
      }
    } else {
      assert Steady(cfg, a, b);
    }
  }

  /** Every interval can be cut into steady pieces, so the measured length always exists. */
  lemma SteadyCutsExist(cfg: Config, a: real, b: real) returns (points: seq<real>)
    requires cfg.mode == "stages" ==> ValidStages(cfg.stages)
    requires 0.0 <= a <= b
    ensures Cuts(cfg, points, a, b)
  {
    if cfg.mode == "stages" {
      assert cfg.stages[0..] == cfg.stages;
      points := StageCuts(cfg.stages, 0.0, a, b);
      StageCutsAreSteady(cfg, 0, 0.0, a, b);
    } else if a < cfg.warmupS < b {
      points := [a, cfg.warmupS, b];
      assert Steady(cfg, a, cfg.warmupS) && Steady(cfg, cfg.warmupS, b);
    } else {
      points := [a, b];
      assert Steady(cfg, a, b);
    }
  }

  /** The throughput denominator at `t` is the measured part of [0, t) exactly when the plan
      is staged or its warm-up is not negative: a negative warm-up counts time before the run. */
  lemma DenominatorIsExact(cfg: Config, points: seq<real>, t: real)
    requires cfg.mode == "stages" ==> ValidStages(cfg.stages)
    requires 0.0 <= t && Cuts(cfg, points, 0.0, t)
    ensures MeasuredDuration(cfg, t) == MeasuredLength(cfg, points) <==> cfg.mode == "stages" || cfg.warmupS >= 0.0
  {
    MeasuredDurationIsMeasuredLength(cfg, points, 0.0, t);
    if cfg.mode == "stages" {
      BeforeOffset(cfg.stages, 0.0, 0.0);
    }
  }

  lemma NegativeWarmupOvercounts()
    ensures var cfg := Config("duration", -1.0, []);
            Cuts(cfg, [0.0, 2.0], 0.0, 2.0) && MeasuredLength(cfg, [0.0, 2.0]) == 2.0 && MeasuredDuration(cfg, 2.0) == 3.0
  {
    var cfg := Config("duration", -1.0, []);
    assert Steady(cfg, 0.0, 2.0);
    assert MeasuredLength(cfg, [0.0, 2.0][1..]) == 0.0;
  }
}
