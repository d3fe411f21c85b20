/** The statistics of a flow stress run: nearest-rank percentiles, APDEX, status counts and the
    grouping of failures. Ratios are reals; the error fingerprint is a parameter. */
module StressStats {
  import opened StressModel
  import Sorting

  function Ceil(x: real): int { -((-x).Floor) }

  // ----- counting

  function Count<T>(s: seq<T>, p: T -> bool): nat {
    if s == [] then 0 else Count(s[..|s| - 1], p) + if p(s[|s| - 1]) then 1 else 0
  }

  lemma {:induction false} CountAppend<T>(a: seq<T>, b: seq<T>, p: T -> bool)
    ensures Count(a + b, p) == Count(a, p) + Count(b, p)
  {
    if b == [] {
      assert a + b == a;
    } else {
      assert (a + b)[..|a + b| - 1] == a + b[..|b| - 1];
      CountAppend(a, b[..|b| - 1], p);
    }
  }

  lemma {:induction false} CountBounds<T>(s: seq<T>, p: T -> bool, q: T -> bool)
    requires forall x <- s :: p(x) ==> q(x)
    ensures Count(s, p) <= Count(s, q) <= |s|
  {
    if s != [] {
      CountBounds(s[..|s| - 1], p, q);
    }
  }

  lemma {:induction false} CountAll<T>(s: seq<T>, p: T -> bool)
    requires forall x <- s :: p(x)
    ensures Count(s, p) == |s|
  {
    if s != [] {
      CountAll(s[..|s| - 1], p);
    }
  }

  lemma {:induction false} CountNone<T>(s: seq<T>, p: T -> bool)
    requires forall x <- s :: !p(x)
    ensures Count(s, p) == 0
  {
    if s != [] {
      CountNone(s[..|s| - 1], p);
    }
  }

  // ----- percentiles

  predicate Sorted(s: seq<int>) {
    forall i, j :: 0 <= i < j < |s| ==> s[i] <= s[j]
  }

  predicate Within(x: int, y: int) { x <= y }

  /** What `slices.Sort` returns. */
  function Sort(s: seq<int>): seq<int> { Sorting.Sort(s, Within) }

  lemma SortIsSorted(s: seq<int>)
    ensures Sorted(Sort(s)) && |Sort(s)| == |s|
  {
    Sorting.SortOrders(s, Within);
    assert forall i, j :: 0 <= i < j < |s| ==> Within(Sort(s)[i], Sort(s)[j]);
  }

  lemma {:induction false} SortCounts(s: seq<int>, p: int -> bool)
    ensures Count(Sort(s), p) == Count(s, p)
  {
    if s != [] {
      var init, x := s[..|s| - 1], s[|s| - 1];
      SortCounts(init, p);
      CountInserted(Sort(init), x, Sorting.Place(x, Sort(init), Within), p);
    }
  }

  lemma CountInserted(s: seq<int>, x: int, n: nat, p: int -> bool)
    requires n <= |s|
    ensures Count(s[..n] + [x] + s[n..], p) == Count(s, p) + if p(x) then 1 else 0
  {
    CountAppend(s[..n] + [x], s[n..], p);
    CountAppend(s[..n], [x], p);
    CountAppend(s[..n], s[n..], p);
    assert s == s[..n] + s[n..];
  }

  function Rank(p: real, n: nat): int { Ceil(p * n as real) }

  lemma RankBounds(p: real, n: nat)
    requires 0.0 < p <= 1.0 && n > 0
    ensures 1 <= Rank(p, n) <= n
  {
    assert p * n as real > 0.0;
    assert p * n as real <= n as real;
  }

  function Percentile(sorted: seq<int>, p: real): int
    requires 0.0 < p <= 1.0
  {
    if |sorted| == 0 then 0
    else
      RankBounds(p, |sorted|);
      var index := if Rank(p, |sorted|) - 1 < 0 then 0 else Rank(p, |sorted|) - 1;
      sorted[index]
  }

  function Below(v: int): int -> bool { (x: int) => x < v }

  function AtMost(v: int): int -> bool { (x: int) => x <= v }

  function Any(x: int): bool { true }

  lemma SortedCounts(s: seq<int>, index: nat)
    requires Sorted(s) && index < |s|
    ensures Count(s, Below(s[index])) <= index < Count(s, AtMost(s[index]))
  {
    var v := s[index];
    assert s == s[..index] + s[index..] && s == s[..index + 1] + s[index + 1..];
    CountAppend(s[..index], s[index..], Below(v));
    CountNone(s[index..], Below(v));
    CountBounds(s[..index], Below(v), Any);
    CountAppend(s[..index + 1], s[index + 1..], AtMost(v));
    CountAll(s[..index + 1], AtMost(v));
  }

  lemma SortedPercentile(s: seq<int>, p: real)
    requires 0.0 < p <= 1.0 && s != [] && Sorted(s)
    ensures var v := Percentile(s, p); Count(s, Below(v)) < Rank(p, |s|) <= Count(s, AtMost(v))
  {
    RankBounds(p, |s|);
    SortedCounts(s, Rank(p, |s|) - 1);
  }

  /** A percentile is the nearest-rank element: at least ceil(p * n) of the latencies are at most
      it, and fewer than ceil(p * n) are strictly below it. */
  lemma PercentileIsNearestRank(latencies: seq<int>, p: real)
    requires 0.0 < p <= 1.0 && latencies != []
    ensures var v := Percentile(Sort(latencies), p);
            Count(latencies, Below(v)) < Rank(p, |latencies|) <= Count(latencies, AtMost(v))
  {
    var s := Sort(latencies);
    SortIsSorted(latencies);
    SortedPercentile(s, p);
    SortCounts(latencies, Below(Percentile(s, p)));
    SortCounts(latencies, AtMost(Percentile(s, p)));
  }

  lemma RankMonotone(p: real, q: real, n: nat)
    requires 0.0 < p <= q <= 1.0
    ensures Rank(p, n) <= Rank(q, n)
  {
    var d := q - p;
    assert d * n as real >= 0.0;
    assert q * n as real == p * n as real + d * n as real;
  }

  lemma SortedPercentiles(s: seq<int>, p: real, q: real)
    requires 0.0 < p <= q <= 1.0 && Sorted(s)
    ensures Percentile(s, p) <= Percentile(s, q)
  {
    if s != [] {
      RankBounds(p, |s|);
      RankBounds(q, |s|);
      RankMonotone(p, q, |s|);
    }
  }

  lemma PercentilesAreOrdered(latencies: seq<int>, p: real, q: real)
    requires 0.0 < p <= q <= 1.0
    ensures Percentile(Sort(latencies), p) <= Percentile(Sort(latencies), q)
  {
    SortIsSorted(latencies);
    SortedPercentiles(Sort(latencies), p, q);
  }

  // ----- status counts

  function Digits(n: nat): string {
    var d := ['0', '1', '2', '3', '4', '5', '6', '7', '8', '9'][n % 10];
    if n < 10 then [d] else Digits(n / 10) + [d]
  }

  function Itoa(n: int): string { if n < 0 then "-" + Digits(-n) else Digits(n) }

  function StatusKey(o: Observation): string { if o.status == 0 then "ERR" else Itoa(o.status) }

  function HasStatus(key: string): Observation -> bool { (o: Observation) => StatusKey(o) == key }

  ghost function SumValues(m: map<string, nat>): nat {
    if m == map[] then 0 else
    var k :| k in m;
    m[k] + SumValues(m - {k})
  }

  lemma {:induction false} SumValuesRemove(m: map<string, nat>, k: string)
    requires k in m
    ensures SumValues(m) == m[k] + SumValues(m - {k})
    decreases |m|
  {
    var k' :| k' in m && SumValues(m) == m[k'] + SumValues(m - {k'});
    if k' != k {
      SumValuesRemove(m - {k'}, k);
      SumValuesRemove(m - {k}, k');
      assert m - {k'} - {k} == m - {k} - {k'};
    }
  }

  lemma SumValuesIncrement(m: map<string, nat>, k: string)
    ensures SumValues(m[k := (if k in m then m[k] else 0) + 1]) == SumValues(m) + 1
  {
    var m' := m[k := (if k in m then m[k] else 0) + 1];
    SumValuesRemove(m', k);
    assert m' - {k} == m - {k};
    if k in m {
      SumValuesRemove(m, k);
    } else {
      assert m - {k} == m;
    }
  }

  // ----- the summary

  datatype Gates = Gates(apdexTMs: real, minApdex: real, maxP95Ms: real, maxErrorPct: real, minRps: real)

  datatype GateFailure = SlowP95 | NoLatency | ErrorRate | LowThroughput | LowApdex

  datatype Stats = Stats(
    requests: nat, errors: nat, rps: real, p50: int, p95: int, p99: int, apdex: real,
    statuses: map<string, nat>, gateFailures: seq<GateFailure>)

  predicate HasLatency(o: Observation) { !o.failed || o.status > 0 }

  predicate IsFailed(o: Observation) { o.failed }

  predicate IsOk(o: Observation) { !o.failed }

  function Latencies(items: seq<Observation>, keep: Observation -> bool): seq<int> {
    if items == [] then []
    else Latencies(items[..|items| - 1], keep)
         + if keep(items[|items| - 1]) then [items[|items| - 1].latencyMs] else []
  }

  predicate Satisfied(t: real, latency: int) { latency as real <= t }

  predicate Tolerated(t: real, latency: int) { !Satisfied(t, latency) && latency as real <= t * 4.0 }

  function SatisfiedCount(t: real, ok: seq<int>): nat { Count(ok, (x: int) => Satisfied(t, x)) }

  function ToleratedCount(t: real, ok: seq<int>): nat { Count(ok, (x: int) => Tolerated(t, x)) }

  function RawApdex(t: real, ok: seq<int>, requests: nat): real
    requires requests > 0
  {
    (SatisfiedCount(t, ok) as real + ToleratedCount(t, ok) as real / 2.0) / requests as real
  }

  function RoundedApdex(t: real, ok: seq<int>, requests: nat): real {
    if requests == 0 then 0.0 else Round(RawApdex(t, ok, requests) * 1000.0) as real / 1000.0
  }

  function ErrorPct(errors: nat, requests: nat): real {
    if requests == 0 then 0.0 else errors as real / requests as real * 100.0
  }

  ghost predicate GateHolds(g: Gates, s: Stats, measured: nat, failure: GateFailure) {
    match failure
    case SlowP95 => g.maxP95Ms > 0.0 ==> s.p95 as real <= g.maxP95Ms
    case NoLatency => g.maxP95Ms > 0.0 ==> measured > 0
    case ErrorRate => ErrorPct(s.errors, s.requests) <= g.maxErrorPct
    case LowThroughput => g.minRps > 0.0 ==> s.rps >= g.minRps
    case LowApdex => g.minApdex > 0.0 ==> s.apdex >= g.minApdex
  }

  function Rps(requests: nat, measuredMs: real): real {
    if measuredMs > 0.0 then Round(requests as real / (measuredMs / 1000.0) * 10.0) as real / 10.0 else 0.0
  }

  lemma GatesIgnoreFailures(g: Gates, s: Stats, failures: seq<GateFailure>, measured: nat)
    ensures forall f :: GateHolds(g, s.(gateFailures := failures), measured, f) == GateHolds(g, s, measured, f)
  {
  }

  method SummarizeStress(items: seq<Observation>, measuredMs: real, gates: Gates) returns (stats: Stats)
    ensures stats.requests == |items| && stats.errors == Count(items, IsFailed)
    ensures forall key :: (if key in stats.statuses then stats.statuses[key] else 0) == Count(items, HasStatus(key))
    ensures SumValues(stats.statuses) == stats.requests
    ensures var sorted := Sort(Latencies(items, HasLatency));
            && stats.p50 == Percentile(sorted, 0.50) && stats.p95 == Percentile(sorted, 0.95)
            && stats.p99 == Percentile(sorted, 0.99)
    ensures stats.apdex == RoundedApdex(gates.apdexTMs, Latencies(items, IsOk), |items|)
    ensures stats.rps == Rps(|items|, measuredMs)
    ensures forall f :: f in stats.gateFailures <==> !GateHolds(gates, stats, |Latencies(items, HasLatency)|, f)
  {
    var latencies, okLatencies, statuses, errors := CollectStatistics(items);
    var sorted := Sort(latencies);
    var apdex := ComputeApdex(okLatencies, |items|, gates.apdexTMs);
    SortIsSorted(latencies);
    stats := Stats(|items|, errors, Rps(|items|, measuredMs), Percentile(sorted, 0.50), Percentile(sorted, 0.95),
                   Percentile(sorted, 0.99), apdex, statuses, []);
    var failures := CheckGates(gates, stats, |sorted|);
    GatesIgnoreFailures(gates, stats, failures, |sorted|);
    stats := stats.(gateFailures := failures);
  }

  /** The one pass over the observations. */
  method CollectStatistics(items: seq<Observation>)
    returns (latencies: seq<int>, okLatencies: seq<int>, statuses: map<string, nat>, errors: nat)
    ensures latencies == Latencies(items, HasLatency) && okLatencies == Latencies(items, IsOk)
    ensures forall key :: (if key in statuses then statuses[key] else 0) == Count(items, HasStatus(key))
    ensures SumValues(statuses) == |items| && errors == Count(items, IsFailed)
  {
    latencies, okLatencies, statuses, errors := [], [], map[], 0;
    for i := 0 to |items|
      invariant latencies == Latencies(items[..i], HasLatency) && okLatencies == Latencies(items[..i], IsOk)
      invariant errors == Count(items[..i], IsFailed)
      invariant forall key :: (if key in statuses then statuses[key] else 0) == Count(items[..i], HasStatus(key))
      invariant SumValues(statuses) == i
    {
      var item := items[i];
      assert items[..i + 1][..i] == items[..i] && items[..i + 1][i] == item;
      if !item.failed || item.status > 0 {
        latencies := latencies + [item.latencyMs];
      }
      if !item.failed {
        okLatencies := okLatencies + [item.latencyMs];
      }
      var key := StatusKey(item);
      SumValuesIncrement(statuses, key);
      statuses := statuses[key := (if key in statuses then statuses[key] else 0) + 1];
      if item.failed {
        errors := errors + 1;
      }
    }
    assert items[..|items|] == items;
  }

  method ComputeApdex(okLatencies: seq<int>, requests: nat, t: real) returns (apdex: real)
    ensures apdex == RoundedApdex(t, okLatencies, requests)
  {
    var satisfied, tolerated := CountApdex(okLatencies, t);
    apdex := 0.0;
    if requests > 0 {
      apdex := Round((satisfied as real + tolerated as real / 2.0) / requests as real * 1000.0) as real / 1000.0;
    }
  }

  method CountApdex(okLatencies: seq<int>, t: real) returns (satisfied: nat, tolerated: nat)
    ensures satisfied == SatisfiedCount(t, okLatencies) && tolerated == ToleratedCount(t, okLatencies)
  {
    satisfied, tolerated := 0, 0;
    for i := 0 to |okLatencies|
      invariant satisfied == SatisfiedCount(t, okLatencies[..i]) && tolerated == ToleratedCount(t, okLatencies[..i])
    {
      assert okLatencies[..i + 1][..i] == okLatencies[..i];
      if okLatencies[i] as real <= t {
        satisfied := satisfied + 1;
      } else if okLatencies[i] as real <= t * 4.0 {
        tolerated := tolerated + 1;
      }
    }
    assert okLatencies[..|okLatencies|] == okLatencies;
  }

  method CheckGates(g: Gates, s: Stats, measured: nat) returns (failures: seq<GateFailure>)
    ensures forall f :: f in failures <==> !GateHolds(g, s, measured, f)
  {
    failures := [];
    if g.maxP95Ms > 0.0 && s.p95 as real > g.maxP95Ms { failures := failures + [SlowP95]; }
    if g.maxP95Ms > 0.0 && measured == 0 { failures := failures + [NoLatency]; }
    if ErrorPct(s.errors, s.requests) > g.maxErrorPct { failures := failures + [ErrorRate]; }
    if g.minRps > 0.0 && s.rps < g.minRps { failures := failures + [LowThroughput]; }
    if g.minApdex > 0.0 && s.apdex < g.minApdex { failures := failures + [LowApdex]; }
  }

  lemma {:induction false} OkLatenciesCount(items: seq<Observation>)
    ensures |Latencies(items, IsOk)| + Count(items, IsFailed) == |items|
  {
    if items != [] {
      OkLatenciesCount(items[..|items| - 1]);
    }
  }

  lemma {:induction false} ApdexClasses(t: real, ok: seq<int>)
    ensures SatisfiedCount(t, ok) + ToleratedCount(t, ok) <= |ok|
  {
    if ok != [] {
      ApdexClasses(t, ok[..|ok| - 1]);
    }
  }

  /** Errors can never be satisfied: APDEX is at most the share of requests that did not fail, and
      what is reported after rounding stays within [0, 1]. */
  lemma ApdexBound(items: seq<Observation>, t: real)
    requires items != []
    ensures var ok := Latencies(items, IsOk);
            && 0.0 <= RawApdex(t, ok, |items|) <= 1.0 - Count(items, IsFailed) as real / |items| as real
            && 0.0 <= RoundedApdex(t, ok, |items|) <= 1.0
  {
    var ok := Latencies(items, IsOk);
    OkLatenciesCount(items);
    RawApdexBound(t, ok, |items|, Count(items, IsFailed));
  }

  lemma RawApdexBound(t: real, ok: seq<int>, requests: nat, errors: nat)
    requires requests > 0 && |ok| + errors == requests
    ensures 0.0 <= RawApdex(t, ok, requests) <= 1.0 - errors as real / requests as real
    ensures 0.0 <= RoundedApdex(t, ok, requests) <= 1.0
  {
    ApdexClasses(t, ok);
    ShareBound(SatisfiedCount(t, ok) as real + ToleratedCount(t, ok) as real / 2.0, errors, requests);
    RoundUnit(RawApdex(t, ok, requests));
  }

  lemma ShareBound(points: real, errors: nat, n: nat)
    requires n > 0 && 0.0 <= points <= n as real - errors as real
    ensures 0.0 <= points / n as real <= 1.0 - errors as real / n as real <= 1.0
  {
    DivideMonotone(0.0, points, n as real);
    DivideMonotone(points, n as real - errors as real, n as real);
    DivideMonotone(0.0, errors as real, n as real);
    var failed := errors as real / n as real;
    assert failed * n as real == errors as real;
    Quotient(1.0 - failed, n as real - errors as real, n as real);
  }

  lemma Quotient(x: real, y: real, n: real)
    requires n > 0.0 && x * n == y
    ensures y / n == x
  {
  }

  lemma DivideMonotone(a: real, b: real, n: real)
    requires a <= b && n > 0.0
    ensures a / n <= b / n
  {
  }

  lemma RoundUnit(x: real)
    requires 0.0 <= x <= 1.0
    ensures 0.0 <= Round(x * 1000.0) as real / 1000.0 <= 1.0
  {
  }

  // ----- error groups

  const MAX_GROUPS := 200
  const REPORTED := 5
  const OTHER := "other failures"
  const NO_MESSAGE := "request failed without a message"

  datatype Group = Group(message: string, count: nat, status: int, steps: seq<string>)

  /** The outside functions: the normalised message, and the excerpt that is shown. */
  datatype Messages = Messages(fingerprint: string -> string, excerpt: string -> string)

  function KeyOf(m: Messages, o: Observation): string {
    var key := m.fingerprint(o.error);
    if key == NO_MESSAGE && o.status > 0 then "HTTP " + Itoa(o.status) else key
  }

  function Failures(items: seq<Observation>): seq<Observation> {
    if items == [] then []
    else Failures(items[..|items| - 1]) + if items[|items| - 1].failed then [items[|items| - 1]] else []
  }

  /** The keys of some failures, each once, in first-seen order. */
  function Distinct(m: Messages, fs: seq<Observation>): seq<string> {
    if fs == [] then []
    else
      var d, k := Distinct(m, fs[..|fs| - 1]), KeyOf(m, fs[|fs| - 1]);
      if k in d then d else d + [k]
  }

  function Admitted(d: seq<string>): seq<string> { if |d| <= MAX_GROUPS then d else d[..MAX_GROUPS] }

  /** The first 200 keys keep their own group, later ones share one. */
  function Assign(d: seq<string>, k: string): string { if k in Admitted(d) then k else OTHER }

  function Names(d: seq<string>): seq<string> {
    if |d| <= MAX_GROUPS || OTHER in d[..MAX_GROUPS] then Admitted(d) else d[..MAX_GROUPS] + [OTHER]
  }

  function Members(m: Messages, fs: seq<Observation>, d: seq<string>, name: string): seq<Observation> {
    if fs == [] then []
    else
      Members(m, fs[..|fs| - 1], d, name)
      + if Assign(d, KeyOf(m, fs[|fs| - 1])) == name then [fs[|fs| - 1]] else []
  }

  function Extend(g: Group, o: Observation): Group {
    Group(g.message, g.count + 1, g.status,
          if o.step != "" && |g.steps| < 3 && o.step !in g.steps then g.steps + [o.step] else g.steps)
  }

  /** The group of some failures: message and status of the first, their number, and up to three
      different step names. */
  function GroupOf(m: Messages, members: seq<Observation>): Group
    requires members != []
  {
    var n := |members| - 1;
    Extend(if n == 0 then Group(m.excerpt(members[0].error), 0, members[0].status, []) else GroupOf(m, members[..n]), members[n])
  }

  /** The failures of each group, groups in first-seen order of their names. */
  function Parts(m: Messages, fs: seq<Observation>): seq<seq<Observation>> {
    var d := Distinct(m, fs);
    seq(|Names(d)|, i requires 0 <= i < |Names(d)| => Members(m, fs, d, Names(d)[i]))
  }

  ghost predicate Summarises(m: Messages, parts: seq<seq<Observation>>, order: seq<Group>) {
    && |order| == |parts|
    && forall i :: 0 <= i < |order| ==> parts[i] != [] && order[i] == GroupOf(m, parts[i])
  }

  /** `order` lists the groups of the failures `fs`. */
  ghost predicate Grouped(m: Messages, fs: seq<Observation>, order: seq<Group>) {
    Summarises(m, Parts(m, fs), order)
  }

  function TotalCount(order: seq<Group>): nat {
    if order == [] then 0 else TotalCount(order[..|order| - 1]) + order[|order| - 1].count
  }

  lemma {:induction false} DistinctHolds(m: Messages, fs: seq<Observation>)
    ensures forall o <- fs :: KeyOf(m, o) in Distinct(m, fs)
    ensures forall i, j :: 0 <= i < j < |Distinct(m, fs)| ==> Distinct(m, fs)[i] != Distinct(m, fs)[j]
  {
    if fs != [] {
      DistinctHolds(m, fs[..|fs| - 1]);
      assert fs == fs[..|fs| - 1] + [fs[|fs| - 1]];
    }
  }

  lemma {:induction false} MembersStable(m: Messages, fs: seq<Observation>, d: seq<string>, d': seq<string>, name: string)
    requires forall o <- fs :: Assign(d, KeyOf(m, o)) == Assign(d', KeyOf(m, o))
    ensures Members(m, fs, d, name) == Members(m, fs, d', name)
  {
    if fs != [] {
      MembersStable(m, fs[..|fs| - 1], d, d', name);
    }
  }

  lemma {:induction false} NoMembers(m: Messages, fs: seq<Observation>, d: seq<string>, name: string)
    requires forall o <- fs :: Assign(d, KeyOf(m, o)) != name
    ensures Members(m, fs, d, name) == []
  {
    if fs != [] {
      NoMembers(m, fs[..|fs| - 1], d, name);
    }
  }

  function Fresh(m: Messages, o: Observation): Group { Group(m.excerpt(o.error), 0, o.status, []) }

  /** How the name list grows with one more failure. */
  lemma NamesGrow(m: Messages, fs: seq<Observation>, o: Observation)
    ensures var d, d', k := Distinct(m, fs), Distinct(m, fs + [o]), KeyOf(m, o);
            && Assign(d', k) == (if k in Names(d) then k else if |Names(d)| >= MAX_GROUPS then OTHER else k)
            && Names(d') == Names(d) + (if Assign(d', k) in Names(d) then [] else [Assign(d', k)])
            && (forall x <- d :: Assign(d', x) == Assign(d, x) && Assign(d, x) in Names(d))
  {
    var d, d', k := Distinct(m, fs), Distinct(m, fs + [o]), KeyOf(m, o);
    assert (fs + [o])[..|fs|] == fs;
    assert d' == if k in d then d else d + [k];
    if k !in d {
      if |d| < MAX_GROUPS {
        assert Names(d') == d + [k];
      } else {
        assert d'[..MAX_GROUPS] == d[..MAX_GROUPS];
      }
    }
  }

  lemma MembersStep(m: Messages, fs: seq<Observation>, o: Observation, name: string)
    ensures var d, d' := Distinct(m, fs), Distinct(m, fs + [o]);
            Members(m, fs + [o], d', name) == Members(m, fs, d, name) + if Assign(d', KeyOf(m, o)) == name then [o] else []
    ensures name !in Names(Distinct(m, fs)) ==> Members(m, fs, Distinct(m, fs), name) == []
  {
    var d, d' := Distinct(m, fs), Distinct(m, fs + [o]);
    assert (fs + [o])[..|fs|] == fs;
    NamesGrow(m, fs, o);
    DistinctHolds(m, fs);
    MembersStable(m, fs, d, d', name);
    if name !in Names(d) {
      NoMembers(m, fs, d, name);
    }
  }

  lemma GroupOfStep(m: Messages, members: seq<Observation>, o: Observation)
    ensures GroupOf(m, members + [o]) == Extend(if members == [] then Fresh(m, o) else GroupOf(m, members), o)
  {
    assert (members + [o])[..|members|] == members;
  }

  lemma PartStep(m: Messages, fs: seq<Observation>, o: Observation, i: nat)
    requires i < |Names(Distinct(m, fs))|
    ensures var names, name := Names(Distinct(m, fs)), Assign(Distinct(m, fs + [o]), KeyOf(m, o));
            && i < |Names(Distinct(m, fs + [o]))|
            && Parts(m, fs + [o])[i] == Parts(m, fs)[i] + if names[i] == name then [o] else []
  {
    NamesGrow(m, fs, o);
    MembersStep(m, fs, o, Names(Distinct(m, fs))[i]);
  }

  lemma LastPart(m: Messages, fs: seq<Observation>, o: Observation)
    requires Assign(Distinct(m, fs + [o]), KeyOf(m, o)) !in Names(Distinct(m, fs))
    ensures var n := |Names(Distinct(m, fs))|;
      |Parts(m, fs)| == n && |Parts(m, fs + [o])| == n + 1 && Parts(m, fs + [o])[n] == [o]
  {
    NamesGrow(m, fs, o);
    MembersStep(m, fs, o, Assign(Distinct(m, fs + [o]), KeyOf(m, o)));
  }

  lemma PartKept(m: Messages, fs: seq<Observation>, o: Observation, i: nat)
    requires i < |Names(Distinct(m, fs))|
    requires Assign(Distinct(m, fs + [o]), KeyOf(m, o)) !in Names(Distinct(m, fs))
    ensures i < |Parts(m, fs)| && i < |Parts(m, fs + [o])| && Parts(m, fs + [o])[i] == Parts(m, fs)[i]
  {
    PartStep(m, fs, o, i);
    LastPart(m, fs, o);
    assert Names(Distinct(m, fs))[i] in Names(Distinct(m, fs));
    assert Parts(m, fs)[i] + [] == Parts(m, fs)[i];
  }

  lemma OneLonger<T>(longer: seq<T>, s: seq<T>, x: T)
    requires |longer| == |s| + 1 && longer[|s|] == x && forall i :: 0 <= i < |s| ==> longer[i] == s[i]
    ensures longer == s + [x]
  {
  }

  lemma PartsNew(m: Messages, fs: seq<Observation>, o: Observation)
    requires Assign(Distinct(m, fs + [o]), KeyOf(m, o)) !in Names(Distinct(m, fs))
    ensures Parts(m, fs + [o]) == Parts(m, fs) + [[o]]
  {
    LastPart(m, fs, o);
    forall i | 0 <= i < |Parts(m, fs)|
      ensures Parts(m, fs + [o])[i] == Parts(m, fs)[i]
    {
      PartKept(m, fs, o, i);
    }
    OneLonger(Parts(m, fs + [o]), Parts(m, fs), [o]);
  }

  lemma PartsOld(m: Messages, fs: seq<Observation>, o: Observation, k: nat)
    requires k < |Names(Distinct(m, fs))|
    requires Assign(Distinct(m, fs + [o]), KeyOf(m, o)) == Names(Distinct(m, fs))[k]
    ensures Parts(m, fs + [o]) == Parts(m, fs)[k := Parts(m, fs)[k] + [o]]
  {
    var names, parts' := Names(Distinct(m, fs)), Parts(m, fs + [o]);
    NamesGrow(m, fs, o);
    assert |parts'| == |names|;
    forall i | 0 <= i < |names|
      ensures parts'[i] == if i == k then Parts(m, fs)[k] + [o] else Parts(m, fs)[i]
    {
      PartStep(m, fs, o, i);
      DistinctNames(m, fs, i, k);
    }
  }

  lemma DistinctNames(m: Messages, fs: seq<Observation>, i: nat, k: nat)
    requires i < |Names(Distinct(m, fs))| && k < |Names(Distinct(m, fs))|
    ensures Names(Distinct(m, fs))[i] == Names(Distinct(m, fs))[k] ==> i == k
  {
    DistinctHolds(m, fs);
    NamesAreDistinct(Distinct(m, fs));
  }

  /** Opening a group for a failure with a new name, or adding it to the group of its name, keeps
      the list of groups right. */
  lemma SummariesStep(m: Messages, parts: seq<seq<Observation>>, order: seq<Group>, o: Observation)
    requires Summarises(m, parts, order)
    ensures Summarises(m, parts + [[o]], order + [Extend(Fresh(m, o), o)])
    ensures forall k :: 0 <= k < |order| ==> Summarises(m, parts[k := parts[k] + [o]], order[k := Extend(order[k], o)])
  {
    GroupOfStep(m, [], o);
    assert [] + [o] == [o];
    forall k | 0 <= k < |order|
      ensures Summarises(m, parts[k := parts[k] + [o]], order[k := Extend(order[k], o)])
    {
      GroupOfStep(m, parts[k], o);
    }
  }

  lemma NamesAreDistinct(d: seq<string>)
    requires forall i, j :: 0 <= i < j < |d| ==> d[i] != d[j]
    ensures forall i, j :: 0 <= i < j < |Names(d)| ==> Names(d)[i] != Names(d)[j]
  {
  }

  // ----- which groups are reported

  /** Group `i` comes before group `j` in a stable sort by descending count. */
  predicate Precedes(order: seq<Group>, i: nat, j: nat)
    requires i < |order| && j < |order|
  {
    order[i].count > order[j].count || (order[i].count == order[j].count && i < j)
  }

  predicate Positions(rank: seq<nat>, n: nat) {
    forall a :: 0 <= a < |rank| ==> rank[a] < n
  }

  ghost predicate Ordered(order: seq<Group>, rank: seq<nat>)
    requires Positions(rank, |order|)
  {
    forall a, b :: 0 <= a < b < |rank| ==> Precedes(order, rank[a], rank[b])
  }

  ghost predicate Ranks(order: seq<Group>, n: nat, rank: seq<nat>)
    requires n <= |order|
  {
    && |rank| == n && Positions(rank, n) && (forall i :: 0 <= i < n ==> i in rank)
    && Ordered(order, rank)
  }

  /** The comparison of the stable sort: `a` may stand before `b`. */
  predicate AtLeastAsFrequent(a: Group, b: Group) { a.count >= b.count }

  /** A stable sort by descending count ranks the groups, ties in first-seen order. */
  lemma StableRankRanks(order: seq<Group>)
    ensures var rank := Sorting.Rank(order, AtLeastAsFrequent);
            && Ranks(order, |order|, rank)
            && forall k :: 0 <= k < |order| ==> Sorting.Sort(order, AtLeastAsFrequent)[k] == order[rank[k]]
  {
    var rank := Sorting.Rank(order, AtLeastAsFrequent);
    Sorting.RankTakes(order, AtLeastAsFrequent);
    Sorting.RankIsComplete(order, AtLeastAsFrequent);
    Sorting.SortIsStable(order, AtLeastAsFrequent);
    forall a, b | 0 <= a < b < |rank|
      ensures Precedes(order, rank[a], rank[b])
    {
      assert Sorting.StableAt(order, rank[a], rank[b], AtLeastAsFrequent);
    }
  }

  /** The reported groups are the first five when all are ranked by count, ties in first-seen order. */
  ghost predicate TopFive(order: seq<Group>, groups: seq<Group>) {
    exists rank: seq<nat> ::
      && Ranks(order, |order|, rank)
      && |groups| == (if |order| < REPORTED then |order| else REPORTED)
      && forall k :: 0 <= k < |groups| ==> groups[k] == order[rank[k]]
  }

  // ----- the grouping pass

  ghost predicate IndexOf(index: map<string, nat>, names: seq<string>) {
    && (forall i :: 0 <= i < |names| ==> names[i] in index && index[names[i]] == i)
    && (forall k <- index :: index[k] < |names| && names[index[k]] == k)
  }

  /** One failure of the grouping pass. */
  method AddFailure(m: Messages, index: map<string, nat>, order: seq<Group>, item: Observation, ghost fs: seq<Observation>)
    returns (index': map<string, nat>, order': seq<Group>)
    requires Grouped(m, fs, order) && IndexOf(index, Names(Distinct(m, fs)))
    ensures Grouped(m, fs + [item], order') && IndexOf(index', Names(Distinct(m, fs + [item])))
  {
    ghost var names, name := Names(Distinct(m, fs)), Assign(Distinct(m, fs + [item]), KeyOf(m, item));
    NamesGrow(m, fs, item);
    SummariesStep(m, Parts(m, fs), order, item);
    NamesSize(index, names);
    var key := KeyOf(m, item);
    assert key in index <==> key in names;
    assert OTHER in index <==> OTHER in names;
    if key !in index {
      if |index| >= MAX_GROUPS {
        key := OTHER;
      }
      if key !in index {
        assert key == name;
        PartsNew(m, fs, item);
        index', order' := index[key := |order|], order + [Extend(Fresh(m, item), item)];
        return;
      }
    }
    assert key == name;
    PartsOld(m, fs, item, index[key]);
    index', order' := index, order[index[key] := Extend(order[index[key]], item)];
  }

  /** The five groups that are reported. */
  method ReportGroups(order: seq<Group>) returns (groups: seq<Group>)
    ensures TopFive(order, groups)
  {
    var sorted := Sorting.Sort(order, AtLeastAsFrequent);
    groups := [];
    for k := 0 to |sorted|
      invariant |groups| == k <= REPORTED && forall j :: 0 <= j < k ==> groups[j] == sorted[j]
    {
      if |groups| >= REPORTED {
        break;
      }
      groups := groups + [sorted[k]];
    }
    FirstAreTopFive(order, groups);
  }

  lemma FirstAreTopFive(order: seq<Group>, groups: seq<Group>)
    requires |groups| == if |order| < REPORTED then |order| else REPORTED
    requires forall j :: 0 <= j < |groups| ==> groups[j] == Sorting.Sort(order, AtLeastAsFrequent)[j]
    ensures TopFive(order, groups)
  {
    StableRankRanks(order);
    assert Ranks(order, |order|, Sorting.Rank(order, AtLeastAsFrequent));
  }

  /** Groups the failures by normalised message and reports the five most frequent. */
  method GroupStressErrors(m: Messages, items: seq<Observation>) returns (groups: seq<Group>)
    ensures exists all :: Grouped(m, Failures(items), all) && TopFive(all, groups)
  {
    var index: map<string, nat> := map[];
    var order: seq<Group> := [];
    for i := 0 to |items|
      invariant Grouped(m, Failures(items[..i]), order)
      invariant IndexOf(index, Names(Distinct(m, Failures(items[..i]))))
    {
      assert items[..i + 1][..i] == items[..i] && items[..i + 1][i] == items[i];
      if !items[i].failed {
        assert Failures(items[..i + 1]) == Failures(items[..i]);
      } else {
        assert Failures(items[..i + 1]) == Failures(items[..i]) + [items[i]];
        index, order := AddFailure(m, index, order, items[i], Failures(items[..i]));
      }
    }
    assert items[..|items|] == items;
    groups := ReportGroups(order);
  }

  lemma NamesSize(index: map<string, nat>, names: seq<string>)
    requires IndexOf(index, names)
    ensures |index| == |names|
  {
    SizeOfDistinct(index.Keys, names);
  }

  lemma {:induction false} SizeOfDistinct(s: set<string>, names: seq<string>)
    requires forall x :: x in s <==> x in names
    requires forall i, j :: 0 <= i < j < |names| ==> names[i] != names[j]
    ensures |s| == |names|
  {
    if names == [] {
      assert s == {};
    } else {
      var last := names[|names| - 1];
      assert last !in names[..|names| - 1];
      assert names == names[..|names| - 1] + [last];
      SizeOfDistinct(s - {last}, names[..|names| - 1]);
      assert s == (s - {last}) + {last};
    }
  }

  lemma {:induction false} GroupOfCounts(m: Messages, members: seq<Observation>)
    requires members != []
    ensures var g := GroupOf(m, members);
            && g.count == |members| && g.message == m.excerpt(members[0].error) && g.status == members[0].status
            && |g.steps| <= 3 && (forall i, j :: 0 <= i < j < |g.steps| ==> g.steps[i] != g.steps[j])
            && (forall s <- g.steps :: s != "" && exists o <- members :: o.step == s)
            && (|g.steps| < 3 ==> forall o <- members :: o.step != "" ==> o.step in g.steps)
  {
    var n := |members| - 1;
    if n > 0 {
      GroupOfCounts(m, members[..n]);
      assert members == members[..n] + [members[n]];
    }
  }

  lemma PartSizes(m: Messages, fs: seq<Observation>, order: seq<Group>, i: nat)
    requires Grouped(m, fs, order) && i < |order|
    ensures order[i].count == |Members(m, fs, Distinct(m, fs), Names(Distinct(m, fs))[i])|
  {
    GroupOfCounts(m, Parts(m, fs)[i]);
  }

  lemma SizesAddUp(m: Messages, fs: seq<Observation>, order: seq<Group>)
    requires Grouped(m, fs, order)
    ensures TotalCount(order) == |fs|
  {
    var d := Distinct(m, fs);
    DistinctHolds(m, fs);
    NamesAreDistinct(d);
    forall i: nat | i < |order|
      ensures order[i].count == |Members(m, fs, d, Names(d)[i])|
    {
      PartSizes(m, fs, order, i);
    }
    TotalOfMembers(m, fs, d, order, Names(d));
  }

  lemma {:induction false} TotalOfMembers(m: Messages, fs: seq<Observation>, d: seq<string>, order: seq<Group>, names: seq<string>)
    requires |order| == |names| && forall i, j :: 0 <= i < j < |names| ==> names[i] != names[j]
    requires forall i :: 0 <= i < |order| ==> order[i].count == |Members(m, fs, d, names[i])|
    requires forall o <- fs :: Assign(d, KeyOf(m, o)) in names
    ensures TotalCount(order) == |fs|
  {
    if fs == [] {
      TotalZero(order);
    } else {
      var init, name := fs[..|fs| - 1], Assign(d, KeyOf(m, fs[|fs| - 1]));
      var i :| 0 <= i < |names| && names[i] == name;
      var smaller := order[i := order[i].(count := |Members(m, init, d, name)|)];
      TotalOfMembers(m, init, d, smaller, names);
      TotalUpdate(order, i, smaller[i]);
    }
  }

  lemma {:induction false} TotalZero(order: seq<Group>)
    requires forall i :: 0 <= i < |order| ==> order[i].count == 0
    ensures TotalCount(order) == 0
  {
    if order != [] {
      TotalZero(order[..|order| - 1]);
    }
  }

  lemma {:induction false} TotalUpdate(order: seq<Group>, i: nat, g: Group)
    requires i < |order|
    ensures TotalCount(order[i := g]) == TotalCount(order) - order[i].count + g.count
  {
    var n := |order| - 1;
    if i == n {
      assert order[i := g][..n] == order[..n];
    } else {
      assert order[i := g][..n] == order[..n][i := g];
      TotalUpdate(order[..n], i, g);
    }
  }

  lemma {:induction false} FailuresCount(items: seq<Observation>)
    ensures |Failures(items)| == Count(items, IsFailed)
  {
    if items != [] {
      FailuresCount(items[..|items| - 1]);
    }
  }

  /** There are at most 201 groups and every failed request is counted in exactly one of them. */
  lemma GroupsCoverErrors(m: Messages, items: seq<Observation>, all: seq<Group>)
    requires Grouped(m, Failures(items), all)
    ensures |all| <= MAX_GROUPS + 1
    ensures TotalCount(all) == Count(items, IsFailed)
  {
    SizesAddUp(m, Failures(items), all);
    FailuresCount(items);
  }
}
