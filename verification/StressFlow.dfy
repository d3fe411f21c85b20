/** One iteration of the flow stress runner: the plan check, and the bounded walk over the
    graph of start, request, condition, extract and end nodes. Everything a step does outside
    the walk (scripts, HTTP, JSON paths) is a parameter. */
module StressFlow {
  import opened StressModel
  import opened Wrappers
  import opened Text
  import opened Sequences

  datatype Node = Node(id: string, kind: string, title: string, hasRequest: bool, retryCount: int, endState: string)

  datatype Edge = Edge(source: string, target: string, branch: string)

  datatype Graph = Graph(nodes: seq<Node>, edges: seq<Edge>, maxSteps: int)

  // ----- the plan check

  datatype PlanError =
    | NoNodes
    | MissingIdOrType(index: nat)
    | DuplicateId(index: nat)
    | UnsupportedType(index: nat)
    | UnknownEdgeEnd(index: nat)

  predicate Supported(kind: string) {
    kind in {"start", "request", "condition", "extract", "end"}
  }

  predicate Known(g: Graph, id: string) {
    exists i :: 0 <= i < |g.nodes| && g.nodes[i].id == id
  }

  ghost predicate ValidNode(g: Graph, i: nat)
    requires i < |g.nodes|
  {
    && !Blank(g.nodes[i].id) && !Blank(g.nodes[i].kind) && Supported(g.nodes[i].kind)
    && forall j :: 0 <= j < i ==> g.nodes[j].id != g.nodes[i].id
  }

  ghost predicate ValidGraph(g: Graph) {
    && g.nodes != []
    && (forall i :: 0 <= i < |g.nodes| ==> ValidNode(g, i))
    && (forall e <- g.edges :: ValidEdge(g, e))
  }

  ghost predicate ValidNodesUpTo(g: Graph, n: int) {
    forall i :: 0 <= i < n && i < |g.nodes| ==> ValidNode(g, i)
  }

  ghost predicate ValidEdge(g: Graph, e: Edge) {
    Known(g, e.source) && Known(g, e.target)
  }

  /** What a rejection says about the plan: its index is the first offending position. */
  ghost predicate Describes(g: Graph, error: PlanError) {
    match error
    case NoNodes => g.nodes == []
    case MissingIdOrType(i) =>
      i < |g.nodes| && ValidNodesUpTo(g, i) && (Blank(g.nodes[i].id) || Blank(g.nodes[i].kind))
    case DuplicateId(i) =>
      i < |g.nodes| && ValidNodesUpTo(g, i) && exists j :: 0 <= j < i && g.nodes[j].id == g.nodes[i].id
    case UnsupportedType(i) =>
      i < |g.nodes| && ValidNodesUpTo(g, i) && !Supported(g.nodes[i].kind)
    case UnknownEdgeEnd(e) =>
      && e < |g.edges| && ValidNodesUpTo(g, |g.nodes|) && !ValidEdge(g, g.edges[e])
      && forall k :: 0 <= k < e ==> ValidEdge(g, g.edges[k])
  }

  method ValidateStressPlan(g: Graph) returns (error: Option<PlanError>)
    ensures error == None <==> ValidGraph(g)
    ensures error.Some? ==> Describes(g, error.value)
  {
    if |g.nodes| == 0 {
      return Some(NoNodes);
    }
    var known: set<string> := {};
    for index := 0 to |g.nodes|
      invariant known == set i | 0 <= i < index :: g.nodes[i].id
      invariant forall i :: 0 <= i < index ==> ValidNode(g, i)
    {
      var node := g.nodes[index];
      if Blank(node.id) || Blank(node.kind) {
        assert !ValidNode(g, index);
        return Some(MissingIdOrType(index));
      }
      if node.id in known {
        assert !ValidNode(g, index);
        return Some(DuplicateId(index));
      }
      if !Supported(node.kind) {
        assert !ValidNode(g, index);
        return Some(UnsupportedType(index));
      }
      known := known + {node.id};
    }
    for index := 0 to |g.edges|
      invariant forall k :: 0 <= k < index ==> ValidEdge(g, g.edges[k])
    {
      var edge := g.edges[index];
      assert forall id :: id in known <==> Known(g, id);
      if edge.source !in known || edge.target !in known {
        assert edge in g.edges;
        return Some(UnknownEdgeEnd(index));
      }
    }
    error := None;
  }

  // ----- one request step

  datatype Response = Response(status: int, ms: int, error: Option<string>, content: string)

  const NO_RESPONSE := Response(0, 0, None, "")

  datatype Exchange = Undecodable(error: string) | Decoded(response: Response)

  /** What the walk asks of the rest of the program. `W` is everything it may read and change:
      the variables, the clock, the cookie jar, the servers. */
  datatype Env<!W> = Env(
    pre: (Node, W) -> (Option<string>, W),
    auth: (Node, W) -> (Option<string>, W),
    build: (Node, W) -> (Option<string>, W),
    send: (Node, W) -> (Exchange, int, W),
    expected: (Node, int) -> bool,
    post: (Node, Response, W) -> (Option<string>, W),
    tests: (Node, Response, W) -> (Option<string>, W),
    assertions: (Node, Response, W) -> string,
    condition: (Node, Response, W) -> bool,
    mappings: (Node, Response, W) -> W)

  datatype Attempt<W> = Attempt(observation: Observation, last: Response, ok: bool, world: W)

  function Failing<W>(o: Observation, error: string, last: Response, world: W): Attempt<W> {
    Attempt(o.(failed := true, error := error), last, false, world)
  }

  function ExecuteRequest<W>(env: Env<W>, node: Node, world: W): Attempt<W> {
    var o := Observation(node.title, 0, 0, false, "");
    if !node.hasRequest then Failing(o, "missing request", NO_RESPONSE, world) else
    var (preError, w1) := env.pre(node, world);
    if preError.Some? then Failing(o, preError.value, NO_RESPONSE, w1) else
    var (authError, w2) := env.auth(node, w1);
    if authError.Some? then Failing(o, authError.value, NO_RESPONSE, w2) else
    var (buildError, w3) := env.build(node, w2);
    if buildError.Some? then Failing(o, buildError.value, NO_RESPONSE, w3) else
    var (exchange, elapsedMs, w4) := env.send(node, w3);
    match exchange
    case Undecodable(error) => Failing(o.(latencyMs := elapsedMs), error, NO_RESPONSE, w4)
    case Decoded(response) => JudgeResponse(env, node, o, elapsedMs, response, w4)
  }

  function JudgeResponse<W>(env: Env<W>, node: Node, start: Observation, elapsedMs: int, response: Response, world: W): Attempt<W> {
    var o := start.(latencyMs := if response.ms > 0 then response.ms else elapsedMs, status := response.status);
    if response.error.Some? then Failing(o, response.error.value, response, world) else
    if !env.expected(node, response.status) then Failing(o, "unexpected status", response, world) else
    var (postError, w1) := env.post(node, response, world);
    if postError.Some? then Failing(o, postError.value, response, w1) else
    var (testsError, w2) := env.tests(node, response, w1);
    if testsError.Some? then Failing(o, testsError.value, response, w2) else
    var message := env.assertions(node, response, w2);
    if message != "" then Failing(o, message, response, w2) else
    Attempt(o, response, true, w2)
  }

  /** An attempt is reported as failed exactly when the walk takes its error branch, and it
      succeeds only on a response with the expected status. */
  lemma AttemptVerdict<W>(env: Env<W>, node: Node, world: W)
    ensures var a := ExecuteRequest(env, node, world);
            && a.ok == !a.observation.failed && a.observation.step == node.title
            && (a.ok ==> node.hasRequest && a.last.error == None && a.observation.status == a.last.status
                         && env.expected(node, a.last.status))
  {
  }

  // ----- retries

  /** The world after `k` unsuccessful attempts. */
  function WorldAfter<W>(env: Env<W>, node: Node, world: W, k: nat): W {
    if k == 0 then world else ExecuteRequest(env, node, WorldAfter(env, node, world, k - 1)).world
  }

  function NthAttempt<W>(env: Env<W>, node: Node, world: W, k: nat): Attempt<W> {
    ExecuteRequest(env, node, WorldAfter(env, node, world, k))
  }

  /** `a` is the outcome of up to `attempts` attempts: the first success, else the last one. */
  ghost predicate IsRetryOutcome<W>(env: Env<W>, node: Node, world: W, attempts: nat, a: Attempt<W>) {
    exists k: nat :: && k < attempts && a == NthAttempt(env, node, world, k)
                && (forall j: nat :: j < k ==> !NthAttempt(env, node, world, j).ok)
                && (a.ok || k == attempts - 1)
  }

  const NO_OBSERVATION := Observation("", 0, 0, false, "")

  function Retry<W>(env: Env<W>, node: Node, last: Response, world: W, attempt: nat): Attempt<W>
    decreases node.retryCount - attempt
  {
    if attempt > node.retryCount then Attempt(NO_OBSERVATION, last, false, world)
    else
      var a := ExecuteRequest(env, node, world);
      if a.ok || attempt == node.retryCount then a else Retry(env, node, a.last, a.world, attempt + 1)
  }

  lemma {:induction false} RetryFrom<W>(env: Env<W>, node: Node, last: Response, world: W, k: nat)
    requires k <= node.retryCount
    requires forall j: nat :: j < k ==> !NthAttempt(env, node, world, j).ok
    ensures IsRetryOutcome(env, node, world, node.retryCount + 1, Retry(env, node, last, WorldAfter(env, node, world, k), k))
    decreases node.retryCount - k
  {
    var a := NthAttempt(env, node, world, k);
    if !a.ok && k < node.retryCount {
      assert a.world == WorldAfter(env, node, world, k + 1);
      RetryFrom(env, node, a.last, world, k + 1);
    }
  }

  /** With a retry count of at least 0 the step reports its first success, or its last failure. */
  lemma RetryOutcome<W>(env: Env<W>, node: Node, last: Response, world: W)
    requires 0 <= node.retryCount
    ensures IsRetryOutcome(env, node, world, node.retryCount + 1, Retry(env, node, last, world, 0))
    ensures Retry(env, node, last, world, 0).ok == !Retry(env, node, last, world, 0).observation.failed
  {
    RetryFrom(env, node, last, world, 0);
    var a := Retry(env, node, last, world, 0);
    var k: nat :| k < node.retryCount + 1 && a == NthAttempt(env, node, world, k);
    AttemptVerdict(env, node, WorldAfter(env, node, world, k));
  }

  // ----- edges

  predicate Takes(e: Edge, source: string, branches: set<string>) {
    e.source == source && e.branch in branches
  }

  function FirstTarget(edges: seq<Edge>, source: string, branches: set<string>): Option<string> {
    if edges == [] then None
    else if Takes(edges[0], source, branches) then Some(edges[0].target)
    else FirstTarget(edges[1..], source, branches)
  }

  function Next(edges: seq<Edge>, source: string, branch: string): string {
    match FirstTarget(edges, source, {branch})
    case Some(target) => target
    case None =>
      match FirstTarget(edges, source, {"next", "else"})
      case Some(target) => target
      case None => ""
  }

  method StressNext(edges: seq<Edge>, source: string, branch: string) returns (target: string)
    ensures target == Next(edges, source, branch)
  {
    for i := 0 to |edges|
      invariant FirstTarget(edges, source, {branch}) == FirstTarget(edges[i..], source, {branch})
    {
      if edges[i].source == source && edges[i].branch == branch {
        return edges[i].target;
      }
      assert edges[i..][1..] == edges[i + 1..];
    }
    assert edges[|edges|..] == [];
    for i := 0 to |edges|
      invariant FirstTarget(edges, source, {"next", "else"}) == FirstTarget(edges[i..], source, {"next", "else"})
    {
      if edges[i].source == source && (edges[i].branch == "next" || edges[i].branch == "else") {
        return edges[i].target;
      }
      assert edges[i..][1..] == edges[i + 1..];
    }
    target := "";
  }

  lemma {:induction false} FirstTargetIsFirst(edges: seq<Edge>, source: string, branches: set<string>)
    ensures match FirstTarget(edges, source, branches)
            case None => forall i :: 0 <= i < |edges| ==> !Takes(edges[i], source, branches)
            case Some(t) => exists i :: && 0 <= i < |edges| && Takes(edges[i], source, branches) && edges[i].target == t
                                        && forall j :: 0 <= j < i ==> !Takes(edges[j], source, branches)
  {
    if edges != [] && !Takes(edges[0], source, branches) {
      FirstTargetIsFirst(edges[1..], source, branches);
      match FirstTarget(edges[1..], source, branches)
      case None =>
        forall i | 0 <= i < |edges|
          ensures !Takes(edges[i], source, branches)
        {
          if i > 0 { assert edges[i] == edges[1..][i - 1]; }
        }
      case Some(t) =>
        var i :| 0 <= i < |edges[1..]| && Takes(edges[1..][i], source, branches) && edges[1..][i].target == t
                 && forall j :: 0 <= j < i ==> !Takes(edges[1..][j], source, branches);
        assert edges[i + 1] == edges[1..][i];
        forall j | 0 <= j < i + 1
          ensures !Takes(edges[j], source, branches)
        {
          if j > 0 { assert edges[j] == edges[1..][j - 1]; }
        }
    }
  }

  /** `e` is the edge a step takes from `source` on `branch`: the first with that branch, or, when
      there is none, the first default one. */
  ghost predicate Chosen(edges: seq<Edge>, source: string, branch: string, e: Edge) {
    exists i :: && 0 <= i < |edges| && edges[i] == e
                && if Takes(e, source, {branch})
                   then forall j :: 0 <= j < i ==> !Takes(edges[j], source, {branch})
                   else Takes(e, source, {"next", "else"})
                        && (forall j :: 0 <= j < |edges| ==> !Takes(edges[j], source, {branch}))
                        && (forall j :: 0 <= j < i ==> !Takes(edges[j], source, {"next", "else"}))
  }

  lemma EmptyNext(g: Graph, source: string, branch: string)
    requires ValidGraph(g)
    ensures Next(g.edges, source, branch) == "" <==>
              forall i :: 0 <= i < |g.edges| ==> !Takes(g.edges[i], source, {branch, "next", "else"})
  {
    FirstTargetIsFirst(g.edges, source, {branch});
    FirstTargetIsFirst(g.edges, source, {"next", "else"});
    forall i | 0 <= i < |g.edges|
      ensures g.edges[i].target != ""
    {
      assert g.edges[i] in g.edges && ValidEdge(g, g.edges[i]);
      var k :| 0 <= k < |g.nodes| && g.nodes[k].id == g.edges[i].target;
      assert ValidNode(g, k);
    }
    assert forall e: Edge :: Takes(e, source, {branch, "next", "else"}) <==> Takes(e, source, {branch}) || Takes(e, source, {"next", "else"});
  }

  /** Where the walk goes next; an empty answer means that no edge fits. */
  lemma NextIsChosen(g: Graph, source: string, branch: string)
    requires ValidGraph(g)
    ensures var t := Next(g.edges, source, branch);
            t != "" ==> Known(g, t) && exists e :: Chosen(g.edges, source, branch, e) && e.target == t
    ensures Next(g.edges, source, branch) == "" <==>
              forall i :: 0 <= i < |g.edges| ==> !Takes(g.edges[i], source, {branch, "next", "else"})
  {
    FirstTargetIsFirst(g.edges, source, {branch});
    FirstTargetIsFirst(g.edges, source, {"next", "else"});
    EmptyNext(g, source, branch);
    if Next(g.edges, source, branch) != "" {
      var branches := if FirstTarget(g.edges, source, {branch}).Some? then {branch} else {"next", "else"};
      var i :| && 0 <= i < |g.edges| && Takes(g.edges[i], source, branches)
               && g.edges[i].target == Next(g.edges, source, branch)
               && forall j :: 0 <= j < i ==> !Takes(g.edges[j], source, branches);
      assert g.edges[i] in g.edges;
      assert Chosen(g.edges, source, branch, g.edges[i]);
    }
  }

  // ----- the walk

  function FindNode(nodes: seq<Node>, id: string): Node
    requires exists i :: 0 <= i < |nodes| && nodes[i].id == id
  {
    if nodes[0].id == id then nodes[0] else FindNode(nodes[1..], id)
  }

  datatype Stop = DeadEnd | Ended(node: Node) | Truncated(pending: string)

  /** A visited node, with the branch it left by. */
  datatype Visit = Visit(node: Node, branch: string)

  datatype Walked = Walked(observations: seq<Observation>, failed: bool, trace: seq<Visit>, stop: Stop)

  datatype Effect<W> = Effect(branch: string, observations: seq<Observation>, failed: bool, last: Response, world: W)

  /** What visiting a node that is not an end node does. */
  function VisitNode<W>(env: Env<W>, node: Node, last: Response, world: W): Effect<W> {
    if node.kind == "request" then
      var a := Retry(env, node, last, world, 0);
      if a.ok then Effect("success", [a.observation], false, a.last, env.mappings(node, a.last, a.world))
      else Effect("error", [a.observation], true, a.last, a.world)
    else if node.kind == "condition" then
      Effect(if env.condition(node, last, world) then "true" else "false", [], false, last, world)
    else if node.kind == "extract" then Effect("next", [], false, last, env.mappings(node, last, world))
    else Effect("next", [], false, last, world)
  }

  function Walk<W>(g: Graph, env: Env<W>, current: string, last: Response, world: W, steps: nat): Walked
    requires ValidGraph(g) && (current != "" ==> Known(g, current))
    decreases steps
  {
    if current == "" then Walked([], false, [], DeadEnd)
    else if steps == 0 then Walked([], false, [], Truncated(current))
    else
      var node := FindNode(g.nodes, current);
      if node.kind == "end" then Walked([], node.endState == "failed", [Visit(node, "")], Ended(node))
      else
        var e := VisitNode(env, node, last, world);
        NextIsChosen(g, current, e.branch);
        var rest := Walk(g, env, Next(g.edges, current, e.branch), e.last, e.world, steps - 1);
        Walked(e.observations + rest.observations, e.failed || rest.failed, [Visit(node, e.branch)] + rest.trace, rest.stop)
  }

  // ----- entry point and step limit

  function FirstWhere(nodes: seq<Node>, p: Node -> bool): string {
    if nodes == [] then "" else if p(nodes[0]) then nodes[0].id else FirstWhere(nodes[1..], p)
  }

  function IncomingCount(edges: seq<Edge>, id: string): nat {
    if edges == [] then 0 else (if edges[0].target == id then 1 else 0) + IncomingCount(edges[1..], id)
  }

  predicate IsStart(n: Node) { n.kind == "start" }

  function NoIncoming(edges: seq<Edge>): Node -> bool {
    (n: Node) => IncomingCount(edges, n.id) == 0
  }

  /** The first start node, else the first node no edge leads to. */
  function StartNode(g: Graph): string {
    var start := FirstWhere(g.nodes, IsStart);
    if start != "" then start else FirstWhere(g.nodes, NoIncoming(g.edges))
  }

  function StepLimit(g: Graph): nat { if g.maxSteps <= 0 then 80 else g.maxSteps }

  lemma {:induction false} FirstWhereKnown(g: Graph, k: nat, p: Node -> bool)
    requires k <= |g.nodes|
    ensures var id := FirstWhere(g.nodes[k..], p); id != "" ==> Known(g, id)
    decreases |g.nodes| - k
  {
    if k < |g.nodes| {
      assert g.nodes[k..][1..] == g.nodes[k + 1..];
      FirstWhereKnown(g, k + 1, p);
    }
  }

  lemma StartNodeKnown(g: Graph)
    ensures StartNode(g) != "" ==> Known(g, StartNode(g))
  {
    assert g.nodes[0..] == g.nodes;
    FirstWhereKnown(g, 0, IsStart);
    FirstWhereKnown(g, 0, NoIncoming(g.edges));
  }

  function RunFlow<W>(g: Graph, env: Env<W>, world: W): Walked
    requires ValidGraph(g)
  {
    StartNodeKnown(g);
    Walk(g, env, StartNode(g), NO_RESPONSE, world, StepLimit(g))
  }

  /** The counts the entry search works with. */
  method CountIncoming(edges: seq<Edge>) returns (incoming: map<string, nat>)
    ensures forall id :: (if id in incoming then incoming[id] else 0) == IncomingCount(edges, id)
  {
    incoming := map[];
    for i := 0 to |edges|
      invariant forall id :: (if id in incoming then incoming[id] else 0) + IncomingCount(edges[i..], id) == IncomingCount(edges, id)
    {
      var target := edges[i].target;
      assert edges[i..][1..] == edges[i + 1..];
      incoming := incoming[target := (if target in incoming then incoming[target] else 0) + 1];
    }
  }

  method FindStart(g: Graph) returns (current: string)
    requires ValidGraph(g)
    ensures current == StartNode(g)
  {
    var incoming := CountIncoming(g.edges);
    current := "";
    for i := 0 to |g.nodes|
      invariant FirstWhere(g.nodes, IsStart) == FirstWhere(g.nodes[i..], IsStart)
    {
      assert ValidNode(g, i);
      if g.nodes[i].kind == "start" {
        return g.nodes[i].id;
      }
      assert g.nodes[i..][1..] == g.nodes[i + 1..];
    }
    for i := 0 to |g.nodes|
      invariant FirstWhere(g.nodes, NoIncoming(g.edges))
             == FirstWhere(g.nodes[i..], NoIncoming(g.edges))
    {
      var id := g.nodes[i].id;
      if id !in incoming || incoming[id] == 0 {
        return id;
      }
      assert g.nodes[i..][1..] == g.nodes[i + 1..];
    }
  }

  method ExecuteWithRetries<W>(env: Env<W>, node: Node, before: Response, start: W) returns (observation: Observation, last: Response, ok: bool, world: W)
    ensures Attempt(observation, last, ok, world) == Retry(env, node, before, start, 0)
  {
    observation, last, ok, world := NO_OBSERVATION, before, false, start;
    var attempt := 0;
    while attempt <= node.retryCount
      invariant 0 <= attempt
      invariant attempt == 0 ==> observation == NO_OBSERVATION && !ok
      invariant attempt > 0 ==> attempt <= node.retryCount + 1 && !ok
      invariant if attempt <= node.retryCount || attempt == 0
                then Retry(env, node, last, world, attempt) == Retry(env, node, before, start, 0)
                else Attempt(observation, last, ok, world) == Retry(env, node, before, start, 0)
    {
      var a := ExecuteRequest(env, node, world);
      observation, last, ok, world := a.observation, a.last, a.ok, a.world;
      if ok {
        break;
      }
      attempt := attempt + 1;
    }
  }

  /** The loop body up to the choice of the next node, for a node that is not an end node. */
  method Visiting<W>(env: Env<W>, node: Node, before: Response, start: W)
    returns (branch: string, observations: seq<Observation>, failed: bool, last: Response, world: W)
    ensures Effect(branch, observations, failed, last, world) == VisitNode(env, node, before, start)
  {
    branch, observations, failed, last, world := "next", [], false, before, start;
    if node.kind == "request" {
      var observation, ok;
      observation, last, ok, world := ExecuteWithRetries(env, node, last, world);
      observations := observations + [observation];
      if !ok {
        failed := true;
        branch := "error";
      } else {
        branch := "success";
        world := env.mappings(node, last, world);
      }
    } else if node.kind == "condition" {
      if env.condition(node, last, world) {
        branch := "true";
      } else {
        branch := "false";
      }
    } else if node.kind == "extract" {
      world := env.mappings(node, last, world);
      branch := "next";
    }
  }

  /** A walk is what was done so far and the walk that is left. */
  ghost predicate Completes(whole: Walked, observations: seq<Observation>, failed: bool, rest: Walked) {
    whole.observations == observations + rest.observations && whole.failed == (failed || rest.failed)
  }

  lemma WalkStep<W>(g: Graph, env: Env<W>, current: string, last: Response, world: W, steps: nat,
                    whole: Walked, observations: seq<Observation>, failed: bool)
    requires ValidGraph(g) && current != "" && Known(g, current) && steps > 0 && FindNode(g.nodes, current).kind != "end"
    requires Completes(whole, observations, failed, Walk(g, env, current, last, world, steps))
    ensures var e := VisitNode(env, FindNode(g.nodes, current), last, world);
            var next := Next(g.edges, current, e.branch);
            && (next != "" ==> Known(g, next))
            && Completes(whole, observations + e.observations, failed || e.failed, Walk(g, env, next, e.last, e.world, steps - 1))
  {
    var e := VisitNode(env, FindNode(g.nodes, current), last, world);
    NextIsChosen(g, current, e.branch);
    var rest := Walk(g, env, Next(g.edges, current, e.branch), e.last, e.world, steps - 1);
    ConcatAssociative(observations, e.observations, rest.observations);
  }

  lemma WalkStarts<W>(g: Graph, env: Env<W>, world: W)
    requires ValidGraph(g)
    ensures StartNode(g) != "" ==> Known(g, StartNode(g))
    ensures Completes(RunFlow(g, env, world), [], false, Walk(g, env, StartNode(g), NO_RESPONSE, world, StepLimit(g)))
  {
    StartNodeKnown(g);
  }

  lemma WalkStops<W>(g: Graph, env: Env<W>, current: string, last: Response, world: W, steps: nat,
                     whole: Walked, observations: seq<Observation>, failed: bool)
    requires ValidGraph(g) && (current != "" ==> Known(g, current))
    requires Completes(whole, observations, failed, Walk(g, env, current, last, world, steps))
    requires current == "" || steps == 0 || FindNode(g.nodes, current).kind == "end"
    ensures whole.observations == observations
    ensures whole.failed == (failed || (current != "" && steps > 0 && FindNode(g.nodes, current).endState == "failed"))
  {
  }

  /** One turn of the loop, for a node that is not an end node; the ghost arguments are what was
      done before it. */
  method OneStep<W>(g: Graph, env: Env<W>, current: string, before: Response, start: W,
                    ghost steps: nat, ghost whole: Walked, ghost done: seq<Observation>, ghost doneFailed: bool)
    returns (next: string, observations: seq<Observation>, failed: bool, last: Response, world: W)
    requires ValidGraph(g) && current != "" && Known(g, current) && steps > 0 && FindNode(g.nodes, current).kind != "end"
    requires Completes(whole, done, doneFailed, Walk(g, env, current, before, start, steps))
    ensures next != "" ==> Known(g, next)
    ensures Completes(whole, done + observations, doneFailed || failed, Walk(g, env, next, last, world, steps - 1))
  {
    var node := FindNode(g.nodes, current);
    WalkStep(g, env, current, before, start, steps, whole, done, doneFailed);
    var branch;
    branch, observations, failed, last, world := Visiting(env, node, before, start);
    next := StressNext(g.edges, current, branch);
  }

  /** The walk as the program performs it, one step of the loop after another. */
  method ExecuteStressFlow<W>(g: Graph, env: Env<W>, start: W) returns (observations: seq<Observation>, failedFlow: bool)
    requires ValidGraph(g)
    ensures observations == RunFlow(g, env, start).observations
    ensures failedFlow == RunFlow(g, env, start).failed
  {
    WalkStarts(g, env, start);
    ghost var whole := RunFlow(g, env, start);
    var current := FindStart(g);
    var maxSteps := if g.maxSteps <= 0 then 80 else g.maxSteps;
    observations, failedFlow := [], false;
    var last, world := NO_RESPONSE, start;
    var step := 0;
    while step < maxSteps && current != ""
      invariant 0 <= step <= maxSteps && (current != "" ==> Known(g, current))
      invariant Completes(whole, observations, failedFlow, Walk(g, env, current, last, world, maxSteps - step))
    {
      var node := FindNode(g.nodes, current);
      if node.kind == "end" {
        WalkStops(g, env, current, last, world, maxSteps - step, whole, observations, failedFlow);
        return observations, failedFlow || node.endState == "failed";
      }
      var visited, failed;
      current, visited, failed, last, world := OneStep(g, env, current, last, world, maxSteps - step, whole, observations, failedFlow);
      step := step + 1;
      observations, failedFlow := observations + visited, failedFlow || failed;
    }
    WalkStops(g, env, current, last, world, maxSteps - step, whole, observations, failedFlow);
  }

  // ----- what every walk satisfies

  /** The ids the walk passed, with the node it was cut off before. */
  function Ids(w: Walked): seq<string> {
    seq(|w.trace|, i requires 0 <= i < |w.trace| => w.trace[i].node.id) + if w.stop.Truncated? then [w.stop.pending] else []
  }

  predicate BranchFits(v: Visit) {
    match v.node.kind
    case "request" => v.branch in {"success", "error"}
    case "condition" => v.branch in {"true", "false"}
    case "end" => v.branch == ""
    case _ => v.branch == "next"
  }

  lemma {:induction false} FindNodeFinds(nodes: seq<Node>, id: string)
    requires exists i :: 0 <= i < |nodes| && nodes[i].id == id
    ensures FindNode(nodes, id) in nodes && FindNode(nodes, id).id == id
  {
    if nodes[0].id != id {
      var i :| 0 <= i < |nodes| && nodes[i].id == id;
      assert nodes[1..][i - 1] == nodes[i];
      FindNodeFinds(nodes[1..], id);
    }
  }

  ghost predicate Follows(g: Graph, w: Walked, k: nat)
    requires k < |w.trace| && k + 1 < |Ids(w)|
  {
    Ids(w)[k + 1] != "" && Ids(w)[k + 1] == Next(g.edges, w.trace[k].node.id, w.trace[k].branch)
  }

  ghost predicate Legal(g: Graph, w: Walked) {
    && (forall v <- w.trace :: v.node in g.nodes && BranchFits(v))
    && (forall k: nat :: k < |w.trace| && k + 1 < |Ids(w)| ==> Follows(g, w, k))
    && (w.stop.Truncated? ==> Known(g, w.stop.pending))
  }

  lemma LegalStep(g: Graph, v: Visit, rest: Walked, w: Walked)
    requires Legal(g, rest) && w.trace == [v] + rest.trace && w.stop == rest.stop
    requires v.node in g.nodes && BranchFits(v)
    requires Ids(rest) != [] ==> Ids(rest)[0] != "" && Ids(rest)[0] == Next(g.edges, v.node.id, v.branch)
    ensures Legal(g, w) && Ids(w) == [v.node.id] + Ids(rest)
  {
    assert Ids(w) == [v.node.id] + Ids(rest);
    forall k: nat | k < |w.trace| && k + 1 < |Ids(w)|
      ensures Follows(g, w, k)
    {
      if k > 0 {
        assert Follows(g, rest, k - 1);
        assert w.trace[k] == rest.trace[k - 1] && Ids(w)[k + 1] == Ids(rest)[k - 1 + 1];
      }
    }
  }

  /** A walk only visits nodes of the graph, goes from each to the one its branch chooses, and takes
      at most `steps` steps. It is cut off only when all of them are used up. */
  lemma {:induction false} WalkIsLegal<W>(g: Graph, env: Env<W>, current: string, last: Response, world: W, steps: nat)
    requires ValidGraph(g) && (current != "" ==> Known(g, current))
    ensures var w := Walk(g, env, current, last, world, steps);
            && Legal(g, w) && |w.trace| <= steps && (w.stop.Truncated? ==> |w.trace| == steps)
            && (if current == "" then Ids(w) == [] else Ids(w) != [] && Ids(w)[0] == current)
    decreases steps
  {
    if current != "" && steps > 0 {
      FindNodeFinds(g.nodes, current);
      var node := FindNode(g.nodes, current);
      if node.kind != "end" {
        var e := VisitNode(env, node, last, world);
        NextIsChosen(g, current, e.branch);
        WalkIsLegal(g, env, Next(g.edges, current, e.branch), e.last, e.world, steps - 1);
        var w := Walk(g, env, current, last, world, steps);
        var rest := Walk(g, env, Next(g.edges, current, e.branch), e.last, e.world, steps - 1);
        LegalStep(g, Visit(node, e.branch), rest, w);
      }
    }
  }

  function RequestVisits(trace: seq<Visit>): seq<Visit> {
    if trace == [] then []
    else (if trace[0].node.kind == "request" then [trace[0]] else []) + RequestVisits(trace[1..])
  }

  ghost predicate Observes(o: Observation, v: Visit) {
    if v.node.retryCount < 0 then o == NO_OBSERVATION && v.branch == "error"
    else o.step == v.node.title && (o.failed <==> v.branch == "error")
  }

  /** Each visited request contributes one observation, in order: its own, failed exactly when the
      walk left it by the error branch. */
  lemma {:induction false} OneObservationPerRequest<W>(g: Graph, env: Env<W>, current: string, last: Response, world: W, steps: nat)
    requires ValidGraph(g) && (current != "" ==> Known(g, current))
    ensures var w := Walk(g, env, current, last, world, steps);
            AllObserve(w.observations, RequestVisits(w.trace))
    decreases steps
  {
    if current != "" && steps > 0 {
      var node := FindNode(g.nodes, current);
      if node.kind != "end" {
        var e := VisitNode(env, node, last, world);
        NextIsChosen(g, current, e.branch);
        OneObservationPerRequest(g, env, Next(g.edges, current, e.branch), e.last, e.world, steps - 1);
        if node.kind == "request" {
          RetryObserves(env, node, last, world);
        }
        var rest := Walk(g, env, Next(g.edges, current, e.branch), e.last, e.world, steps - 1);
        ObservesStep(e.observations, Visit(node, e.branch), rest.observations, rest.trace);
      }
    }
  }

  /** The observations fit the requests of the trace. */
  ghost predicate AllObserve(observations: seq<Observation>, visits: seq<Visit>) {
    |observations| == |visits| && forall k :: 0 <= k < |observations| ==> Observes(observations[k], visits[k])
  }

  lemma ObservesStep(own: seq<Observation>, v: Visit, observations: seq<Observation>, trace: seq<Visit>)
    requires if v.node.kind == "request" then |own| == 1 && Observes(own[0], v) else own == []
    requires AllObserve(observations, RequestVisits(trace))
    ensures AllObserve(own + observations, RequestVisits([v] + trace))
  {
    assert ([v] + trace)[1..] == trace;
  }

  lemma RetryObserves<W>(env: Env<W>, node: Node, last: Response, world: W)
    requires node.kind == "request"
    ensures var e := VisitNode(env, node, last, world);
            |e.observations| == 1 && Observes(e.observations[0], Visit(node, e.branch)) && (e.failed <==> e.branch == "error")
  {
    if 0 <= node.retryCount {
      RetryOutcome(env, node, last, world);
      var a := Retry(env, node, last, world, 0);
      var k: nat :| k < node.retryCount + 1 && a == NthAttempt(env, node, world, k);
      AttemptVerdict(env, node, WorldAfter(env, node, world, k));
    }
  }

  ghost predicate SomeFailed(observations: seq<Observation>) {
    exists k :: 0 <= k < |observations| && observations[k].failed
  }

  ghost predicate NeverAttempted(trace: seq<Visit>) {
    exists k :: 0 <= k < |trace| && trace[k].node.kind == "request" && trace[k].node.retryCount < 0
  }

  /** A flow fails exactly when an observation failed, it stopped at an end node marked failed, or it
      passed a request with a negative retry count, which is never sent and leaves a blank observation. */
  lemma {:induction false} WhenFlowsFail<W>(g: Graph, env: Env<W>, current: string, last: Response, world: W, steps: nat)
    requires ValidGraph(g) && (current != "" ==> Known(g, current))
    ensures var w := Walk(g, env, current, last, world, steps);
            w.failed <==> SomeFailed(w.observations) || (w.stop.Ended? && w.stop.node.endState == "failed") || NeverAttempted(w.trace)
    decreases steps
  {
    if current != "" && steps > 0 {
      var node := FindNode(g.nodes, current);
      if node.kind != "end" {
        var e := VisitNode(env, node, last, world);
        NextIsChosen(g, current, e.branch);
        var rest := Walk(g, env, Next(g.edges, current, e.branch), e.last, e.world, steps - 1);
        WhenFlowsFail(g, env, Next(g.edges, current, e.branch), e.last, e.world, steps - 1);
        if node.kind == "request" {
          RetryObserves(env, node, last, world);
        }
        SomeFailedAppend(e.observations, rest.observations);
        NeverAttemptedStep(Visit(node, e.branch), rest.trace);
      }
    }
  }

  lemma SomeFailedAppend(a: seq<Observation>, b: seq<Observation>)
    ensures SomeFailed(a + b) <==> SomeFailed(a) || SomeFailed(b)
  {
    if SomeFailed(b) {
      var k :| 0 <= k < |b| && b[k].failed;
      assert (a + b)[|a| + k].failed;
    }
    if SomeFailed(a) {
      var k :| 0 <= k < |a| && a[k].failed;
      assert (a + b)[k].failed;
    }
  }

  lemma NeverAttemptedStep(v: Visit, rest: seq<Visit>)
    ensures NeverAttempted([v] + rest) <==> (v.node.kind == "request" && v.node.retryCount < 0) || NeverAttempted(rest)
  {
    var trace := [v] + rest;
    if v.node.kind == "request" && v.node.retryCount < 0 {
      assert trace[0] == v;
    }
    if NeverAttempted(rest) {
      var k :| 0 <= k < |rest| && rest[k].node.kind == "request" && rest[k].node.retryCount < 0;
      assert trace[k + 1] == rest[k];
    }
  }

  // ----- acyclic graphs

  ghost predicate HasEdge(g: Graph, source: string, target: string) {
    exists e <- g.edges :: e.source == source && e.target == target
  }

  ghost predicate IsPath(g: Graph, ids: seq<string>) {
    forall k :: 0 <= k < |ids| - 1 ==> HasEdge(g, ids[k], ids[k + 1])
  }

  ghost predicate Acyclic(g: Graph) {
    forall ids: seq<string> :: |ids| > 1 && IsPath(g, ids) ==> ids[0] != ids[|ids| - 1]
  }

  lemma LegalIsPath(g: Graph, w: Walked)
    requires ValidGraph(g) && Legal(g, w)
    ensures IsPath(g, Ids(w))
  {
    forall k | 0 <= k < |Ids(w)| - 1
      ensures HasEdge(g, Ids(w)[k], Ids(w)[k + 1])
    {
      NextIsChosen(g, Ids(w)[k], w.trace[k].branch);
      assert Follows(g, w, k);
      var e :| Chosen(g.edges, Ids(w)[k], w.trace[k].branch, e) && e.target == Ids(w)[k + 1];
      assert e in g.edges;
    }
  }

  lemma AcyclicPathsDoNotRepeat(g: Graph, ids: seq<string>)
    requires Acyclic(g) && IsPath(g, ids)
    ensures forall i, j :: 0 <= i < j < |ids| ==> ids[i] != ids[j]
  {
    forall i, j | 0 <= i < j < |ids|
      ensures ids[i] != ids[j]
    {
      var loop := ids[i..j + 1];
      forall k | 0 <= k < |loop| - 1
        ensures HasEdge(g, loop[k], loop[k + 1])
      {
        assert HasEdge(g, ids[i + k], ids[i + k + 1]);
      }
      assert IsPath(g, loop);
    }
  }

  function NodeIds(nodes: seq<Node>): set<string> {
    if nodes == [] then {} else {nodes[0].id} + NodeIds(nodes[1..])
  }

  lemma {:induction false} NodeIdsCount(nodes: seq<Node>)
    ensures |NodeIds(nodes)| <= |nodes|
    ensures forall n <- nodes :: n.id in NodeIds(nodes)
  {
    if nodes != [] {
      NodeIdsCount(nodes[1..]);
      assert nodes == [nodes[0]] + nodes[1..];
    }
  }

  /** More steps change nothing once a walk was not cut off. */
  lemma {:induction false} MoreStepsChangeNothing<W>(g: Graph, env: Env<W>, current: string, last: Response, world: W, steps: nat, more: nat)
    requires ValidGraph(g) && (current != "" ==> Known(g, current)) && steps <= more
    requires !Walk(g, env, current, last, world, steps).stop.Truncated?
    ensures Walk(g, env, current, last, world, more) == Walk(g, env, current, last, world, steps)
    decreases steps
  {
    if current != "" && steps > 0 {
      var node := FindNode(g.nodes, current);
      if node.kind != "end" {
        var e := VisitNode(env, node, last, world);
        NextIsChosen(g, current, e.branch);
        MoreStepsChangeNothing(g, env, Next(g.edges, current, e.branch), e.last, e.world, steps - 1, more - 1);
      }
    }
  }

  /** On an acyclic graph no node is visited twice, so a limit of at least the number of nodes never
      cuts a walk off, and any two such limits give the same result. */
  lemma AcyclicWalksAreNotTruncated<W>(g: Graph, env: Env<W>, current: string, last: Response, world: W, steps: nat)
    requires ValidGraph(g) && Acyclic(g) && (current != "" ==> Known(g, current))
    ensures var ids := Ids(Walk(g, env, current, last, world, steps)); forall i, j :: 0 <= i < j < |ids| ==> ids[i] != ids[j]
    ensures |g.nodes| <= steps ==>
              && !Walk(g, env, current, last, world, steps).stop.Truncated?
              && Walk(g, env, current, last, world, steps) == Walk(g, env, current, last, world, |g.nodes|)
  {
    WalkNeverRepeats(g, env, current, last, world, steps);
    if |g.nodes| <= steps {
      WalkNeverRepeats(g, env, current, last, world, |g.nodes|);
      MoreStepsChangeNothing(g, env, current, last, world, |g.nodes|, steps);
    }
  }

  lemma WalkNeverRepeats<W>(g: Graph, env: Env<W>, current: string, last: Response, world: W, steps: nat)
    requires ValidGraph(g) && Acyclic(g) && (current != "" ==> Known(g, current))
    ensures var ids := Ids(Walk(g, env, current, last, world, steps)); forall i, j :: 0 <= i < j < |ids| ==> ids[i] != ids[j]
    ensures |g.nodes| <= steps ==> !Walk(g, env, current, last, world, steps).stop.Truncated?
  {
    var w := Walk(g, env, current, last, world, steps);
    WalkIsLegal(g, env, current, last, world, steps);
    LegalIsPath(g, w);
    AcyclicPathsDoNotRepeat(g, Ids(w));
    NodeIdsCount(g.nodes);
    forall id <- Ids(w)
      ensures id in NodeIds(g.nodes)
    {
      var k :| 0 <= k < |Ids(w)| && Ids(w)[k] == id;
      if k < |w.trace| {
        assert w.trace[k] in w.trace;
      }
    }
    DistinctFit(Ids(w), NodeIds(g.nodes));
  }

  /** The main result for one iteration of an accepted plan with non-negative retry counts. */
  lemma FlowRun<W>(g: Graph, env: Env<W>, world: W)
    requires ValidGraph(g) && forall n <- g.nodes :: n.kind == "request" ==> n.retryCount >= 0
    ensures var w := RunFlow(g, env, world);
            && Legal(g, w) && |w.trace| <= StepLimit(g)
            && |w.observations| == |RequestVisits(w.trace)|
            && (w.failed <==> SomeFailed(w.observations) || (w.stop.Ended? && w.stop.node.endState == "failed"))
            && (Acyclic(g) && |g.nodes| <= StepLimit(g) ==> !w.stop.Truncated?)
  {
    StartNodeKnown(g);
    var start := StartNode(g);
    WalkIsLegal(g, env, start, NO_RESPONSE, world, StepLimit(g));
    OneObservationPerRequest(g, env, start, NO_RESPONSE, world, StepLimit(g));
    WhenFlowsFail(g, env, start, NO_RESPONSE, world, StepLimit(g));
    if Acyclic(g) {
      WalkNeverRepeats(g, env, start, NO_RESPONSE, world, StepLimit(g));
    }
    var w := RunFlow(g, env, world);
    assert forall k :: 0 <= k < |w.trace| ==> w.trace[k] in w.trace;
  }

  // ----- which graphs can fail silently

  /** What one would expect of a flow: it fails when an observation failed or a failed end was reached. */
  ghost predicate FailsVisibly<W>(g: Graph, env: Env<W>, world: W)
    requires ValidGraph(g)
  {
    var w := RunFlow(g, env, world);
    w.failed <==> SomeFailed(w.observations) || (w.stop.Ended? && w.stop.node.endState == "failed")
  }

  /** A visit that reports no failure: requests succeed, except those that are never attempted. */
  predicate Quiet(v: Visit) {
    match v.node.kind
    case "request" => if v.node.retryCount < 0 then v.branch == "error" else v.node.hasRequest && v.branch == "success"
    case "condition" => v.branch in {"true", "false"}
    case _ => v.branch == "next"
  }

  /** `trace` follows the edges from `current`, quietly, to where it stops. */
  ghost predicate QuietPath(g: Graph, current: string, trace: seq<Visit>, steps: nat, stop: Stop)
    requires ValidGraph(g) && (current != "" ==> Known(g, current))
    decreases steps
  {
    if current == "" then trace == [] && stop == DeadEnd
    else if steps == 0 then trace == [] && stop == Truncated(current)
    else
      var node := FindNode(g.nodes, current);
      if node.kind == "end" then trace == [Visit(node, "")] && stop == Ended(node)
      else
        && trace != [] && trace[0].node == node && Quiet(trace[0])
        && (NextIsChosen(g, current, trace[0].branch);
            QuietPath(g, Next(g.edges, current, trace[0].branch), trace[1..], steps - 1, stop))
  }

  /** Extractions and successful requests change what a condition reads. */
  predicate Changing(v: Visit) { v.node.kind == "extract" || (v.node.kind == "request" && v.branch == "success") }

  function Changes(trace: seq<Visit>, n: nat): nat
    requires n <= |trace|
  {
    if n == 0 then 0 else (if Changing(trace[0]) then 1 else 0) + Changes(trace[1..], n - 1)
  }

  /** A condition visited again gives the same answer unless something changed in between. */
  ghost predicate Consistent(trace: seq<Visit>) {
    forall i, j | 0 <= i < j < |trace| && trace[i].node == trace[j].node && Changes(trace, i) == Changes(trace, j) ::
      trace[i].node.kind == "condition" ==> trace[i].branch == trace[j].branch
  }

  ghost predicate IsSilentFailure(g: Graph, trace: seq<Visit>, stop: Stop)
    requires ValidGraph(g)
  {
    StartNodeKnown(g);
    && QuietPath(g, StartNode(g), trace, StepLimit(g), stop) && Consistent(trace) && NeverAttempted(trace)
    && !(stop.Ended? && stop.node.endState == "failed")
  }

  /** Some quiet path of the graph passes a request that is never attempted and does not lead to a
      failed end. */
  ghost predicate CanFailSilently(g: Graph)
    requires ValidGraph(g)
  {
    exists trace, stop :: IsSilentFailure(g, trace, stop)
  }

  /** Where nothing has changed yet, the trace answers a condition as the environment does at once. */
  ghost predicate AnswersNow<W>(env: Env<W>, last: Response, world: W, trace: seq<Visit>) {
    forall j :: 0 <= j < |trace| && trace[j].node.kind == "condition" && Changes(trace, j) == 0 ==>
                  (trace[j].branch == "true" <==> env.condition(trace[j].node, last, world)) && trace[j].branch in {"true", "false"}
  }

  lemma AnswersStep<W>(env: Env<W>, last: Response, world: W, v: Visit, last': Response, world': W, rest: seq<Visit>)
    requires AnswersNow(env, last', world', rest) && Consistent(rest)
    requires !Changing(v) ==> last' == last && world' == world
    requires v.node.kind == "condition" ==> v.branch == if env.condition(v.node, last, world) then "true" else "false"
    ensures AnswersNow(env, last, world, [v] + rest) && Consistent([v] + rest)
  {
    var trace := [v] + rest;
    assert trace[1..] == rest;
    forall j | 1 <= j < |trace|
      ensures trace[j] == rest[j - 1] && Changes(trace, j) == (if Changing(v) then 1 else 0) + Changes(rest, j - 1)
    {
    }
    forall j | 0 <= j < |trace| && trace[j].node.kind == "condition" && Changes(trace, j) == 0
      ensures (trace[j].branch == "true" <==> env.condition(trace[j].node, last, world)) && trace[j].branch in {"true", "false"}
    {
      assert j > 0 ==> Changes(rest, j - 1) == 0;
    }
    forall i, j | 0 <= i < j < |trace| && trace[i].node == trace[j].node && Changes(trace, i) == Changes(trace, j)
      ensures trace[i].node.kind == "condition" ==> trace[i].branch == trace[j].branch
    {
      if i > 0 {
        assert trace[i] == rest[i - 1] && trace[j] == rest[j - 1];
      }
    }
  }

  /** A walk without failed observations takes a quiet and consistent path. */
  lemma {:induction false} QuietWalk<W>(g: Graph, env: Env<W>, current: string, last: Response, world: W, steps: nat)
    requires ValidGraph(g) && (current != "" ==> Known(g, current))
    requires !SomeFailed(Walk(g, env, current, last, world, steps).observations)
    ensures var w := Walk(g, env, current, last, world, steps);
            QuietPath(g, current, w.trace, steps, w.stop) && AnswersNow(env, last, world, w.trace) && Consistent(w.trace)
    decreases steps
  {
    if current != "" && steps > 0 {
      var node := FindNode(g.nodes, current);
      FindNodeFinds(g.nodes, current);
      if node.kind != "end" {
        var e := VisitNode(env, node, last, world);
        var next := Next(g.edges, current, e.branch);
        NextIsChosen(g, current, e.branch);
        var w, rest := Walk(g, env, current, last, world, steps), Walk(g, env, next, e.last, e.world, steps - 1);
        SomeFailedAppend(e.observations, rest.observations);
        QuietWalk(g, env, next, e.last, e.world, steps - 1);
        QuietVisit(env, node, last, world);
        AnswersStep(env, last, world, Visit(node, e.branch), e.last, e.world, rest.trace);
        assert w.trace[1..] == rest.trace;
      }
    }
  }

  lemma QuietVisit<W>(env: Env<W>, node: Node, last: Response, world: W)
    requires node.kind != "end" && !SomeFailed(VisitNode(env, node, last, world).observations)
    ensures var e, v := VisitNode(env, node, last, world), Visit(node, VisitNode(env, node, last, world).branch);
            && Quiet(v) && (!Changing(v) ==> e.last == last && e.world == world)
            && (node.kind == "condition" ==> v.branch == if env.condition(node, last, world) then "true" else "false")
  {
    if node.kind == "request" {
      RetryObserves(env, node, last, world);
      var e := VisitNode(env, node, last, world);
      assert !e.observations[0].failed;
      if node.retryCount >= 0 {
        RetryOutcome(env, node, last, world);
        var a := Retry(env, node, last, world, 0);
        var k: nat :| k < node.retryCount + 1 && a == NthAttempt(env, node, world, k);
        AttemptVerdict(env, node, WorldAfter(env, node, world, k));
      }
    }
  }

  /** An environment in which every request succeeds and the conditions follow a script; its world
      counts the changes. */
  function Scripted(trace: seq<Visit>): Env<nat> {
    var fine := (node: Node, world: nat) => (None, world);
    var fineAfter := (node: Node, response: Response, world: nat) => (None, world);
    Env(fine, fine, fine, (node, world) => (Decoded(Response(200, 0, None, "")), 0, world), (node, status) => true,
        fineAfter, fineAfter, (node, response, world) => "",
        (node, response, world) => Scripts(trace, node, world), (node, response, world) => world + 1)
  }

  predicate Scripts(trace: seq<Visit>, node: Node, world: nat) {
    exists i :: 0 <= i < |trace| && trace[i].node == node && Changes(trace, i) == world && trace[i].branch == "true"
  }

  lemma {:induction false} ChangesStep(trace: seq<Visit>, k: nat)
    requires k < |trace|
    ensures Changes(trace, k + 1) == Changes(trace, k) + if Changing(trace[k]) then 1 else 0
  {
    if k > 0 {
      ChangesStep(trace[1..], k - 1);
    }
  }

  lemma ScriptedVisit(trace: seq<Visit>, k: nat, last: Response)
    requires Consistent(trace) && k < |trace| && Quiet(trace[k]) && trace[k].node.kind != "end"
    ensures var e := VisitNode(Scripted(trace), trace[k].node, last, Changes(trace, k));
            e.branch == trace[k].branch && e.world == Changes(trace, k + 1) && !SomeFailed(e.observations)
  {
    var env, node, world := Scripted(trace), trace[k].node, Changes(trace, k);
    ChangesStep(trace, k);
    if node.kind == "request" && node.retryCount >= 0 {
      assert ExecuteRequest(env, node, world).ok && ExecuteRequest(env, node, world).world == world;
      AttemptVerdict(env, node, world);
    } else if node.kind == "condition" {
      if i :| 0 <= i < |trace| && trace[i].node == node && Changes(trace, i) == world && trace[i].branch == "true" {
        assert trace[i].branch == trace[k].branch;
      }
      assert env.condition(node, last, world) == Scripts(trace, node, world);
    }
  }

  /** In the scripted environment the walk takes the path the script was made from. */
  lemma {:induction false} ScriptedWalk(g: Graph, trace: seq<Visit>, k: nat, current: string, last: Response, steps: nat, stop: Stop)
    requires ValidGraph(g) && (current != "" ==> Known(g, current)) && k <= |trace| && Consistent(trace)
    requires QuietPath(g, current, trace[k..], steps, stop)
    ensures var w := Walk(g, Scripted(trace), current, last, Changes(trace, k), steps);
            w.trace == trace[k..] && w.stop == stop && !SomeFailed(w.observations)
    decreases steps
  {
    if current != "" && steps > 0 {
      var node := FindNode(g.nodes, current);
      if node.kind != "end" {
        assert trace[k..][0] == trace[k] && trace[k..][1..] == trace[k + 1..];
        ScriptedVisit(trace, k, last);
        var env, world := Scripted(trace), Changes(trace, k);
        var e := VisitNode(env, node, last, world);
        var next := Next(g.edges, current, e.branch);
        NextIsChosen(g, current, e.branch);
        ScriptedWalk(g, trace, k + 1, next, e.last, steps - 1, stop);
        SomeFailedAppend(e.observations, Walk(g, env, next, e.last, e.world, steps - 1).observations);
      }
    }
  }

  /** Where the graph has no silent path, every run in every environment fails visibly. */
  lemma NoSilentFailures<W>(g: Graph, env: Env<W>, world: W)
    requires ValidGraph(g) && !CanFailSilently(g)
    ensures FailsVisibly(g, env, world)
  {
    StartNodeKnown(g);
    var w := RunFlow(g, env, world);
    WhenFlowsFail(g, env, StartNode(g), NO_RESPONSE, world, StepLimit(g));
    if !SomeFailed(w.observations) {
      QuietWalk(g, env, StartNode(g), NO_RESPONSE, world, StepLimit(g));
      assert !IsSilentFailure(g, w.trace, w.stop);
    }
  }

  /** Flows of a graph always fail visibly exactly when it has no silent path, a condition that
      speaks of its nodes and edges alone. */
  lemma FailsVisiblyIff(g: Graph)
    requires ValidGraph(g)
    ensures (forall env: Env<nat>, world: nat :: FailsVisibly(g, env, world)) <==> !CanFailSilently(g)
  {
    if CanFailSilently(g) {
      var trace, stop :| IsSilentFailure(g, trace, stop);
      StartNodeKnown(g);
      assert trace[0..] == trace;
      ScriptedWalk(g, trace, 0, StartNode(g), NO_RESPONSE, StepLimit(g), stop);
      WhenFlowsFail(g, Scripted(trace), StartNode(g), NO_RESPONSE, 0, StepLimit(g));
      assert !FailsVisibly(g, Scripted(trace), 0);
    } else {
      forall env: Env<nat>, world: nat
        ensures FailsVisibly(g, env, world)
      {
        NoSilentFailures(g, env, world);
      }
    }
  }

  /** A negative retry count breaks the law: the flow fails although nothing reports a failure. */
  lemma NegativeRetryFailsSilently<W>(env: Env<W>, world: W)
    ensures var g := Graph([Node("a", "request", "A", true, -1, "")], [], 0);
            && ValidGraph(g) && RunFlow(g, env, world).failed && RunFlow(g, env, world).stop == DeadEnd
            && !SomeFailed(RunFlow(g, env, world).observations)
  {
    var g := Graph([Node("a", "request", "A", true, -1, "")], [], 0);
    assert 'a' in "a" && 'r' in "request";
    assert ValidNode(g, 0);
    assert StartNode(g) == "a" by {
      assert g.nodes[1..] == [];
    }
    assert Next(g.edges, "a", "error") == "";
    var e := VisitNode(env, g.nodes[0], NO_RESPONSE, world);
    assert e == Effect("error", [NO_OBSERVATION], true, NO_RESPONSE, world);
    assert FindNode(g.nodes, "a") == g.nodes[0];
    assert Walk(g, env, "", e.last, e.world, 79) == Walked([], false, [], DeadEnd);
  }
}
