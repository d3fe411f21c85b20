/** Regenerating a collection from the HTTP routes found in a project: the requests of the last
    run are dropped, one is added per route, and the collection is saved only if all went well. */
module CollectionSync {
  import opened Wrappers
  import opened Text
  import opened Sequences
  import opened CollectionTree

  /** A scanned route, its attributes as found in the code. */
  datatype Route = Route(verb: string, path: string)

  /** The outside functions: upper-casing, and whether `url.Parse` accepts an HTTP(S) URL or absolute path. */
  datatype Rules = Rules(codec: Codec, upper: string -> string, urlOk: string -> bool)

  predicate ValidVerb(verb: string) {
    verb in {"GET", "POST", "PUT", "PATCH", "DELETE", "HEAD", "OPTIONS"}
  }

  predicate OccursAt(s: string, part: string, i: nat) { i + |part| <= |s| && s[i..i + |part|] == part }

  predicate Contains(s: string, part: string) {
    exists i: nat :: i <= |s| && OccursAt(s, part, i)
  }

  predicate ValidRequest(rules: Rules, r: Request) {
    r.id != "" && ByteLength(r.id) <= 256 && ValidVerb(r.verb) && r.url != "" && (Contains(r.url, "{{") || rules.urlOk(r.url))
  }

  function Verb(rules: Rules, route: Route): string { rules.upper(Trim(route.verb)) }

  function Path(route: Route): string { Trim(route.path) }

  predicate Usable(rules: Rules, route: Route) { ValidVerb(Verb(rules, route)) && Path(route) != "" }

  function TrimRightSlashes(s: string): string {
    if s != "" && s[|s| - 1] == '/' then TrimRightSlashes(s[..|s| - 1]) else s
  }

  function TrimLeftSlashes(s: string): string {
    if s != "" && s[0] == '/' then TrimLeftSlashes(s[1..]) else s
  }

  function Title(rules: Rules, route: Route): string { Verb(rules, route) + " " + Path(route) }

  function RequestFor(rules: Rules, base: string, route: Route): Request {
    var baseUrl := if Blank(base) then "{{baseUrl}}" else base;
    Request(GENERATED + rules.codec.hash(Title(rules, route)), Title(rules, route), Verb(rules, route),
            TrimRightSlashes(baseUrl) + "/" + TrimLeftSlashes(Path(route)), "")
  }

  /** One route of the loop. */
  function SyncRoute(rules: Rules, nodes: seq<Node>, base: string, route: Route): Outcome {
    if !Usable(rules, route) then Saved(nodes)
    else if !ValidRequest(rules, RequestFor(rules, base, route)) then Invalid
    else Upsert(rules.codec, nodes, RequestFor(rules, base, route), "")
  }

  function SyncRoutes(rules: Rules, nodes: seq<Node>, base: string, routes: seq<Route>): Outcome {
    if routes == [] then Saved(nodes)
    else
      match SyncRoutes(rules, nodes, base, routes[..|routes| - 1])
      case Saved(children) => SyncRoute(rules, children, base, routes[|routes| - 1])
      case failure => failure
  }

  function Sync(rules: Rules, nodes: seq<Node>, base: string, routes: seq<Route>): Outcome {
    if routes == [] then NoRoutes else SyncRoutes(rules, RemoveGenerated(nodes), base, routes)
  }

  /** A failed route fails the whole run, with the same answer. */
  lemma {:induction false} FailureStays(rules: Rules, nodes: seq<Node>, base: string, routes: seq<Route>, n: nat)
    requires n <= |routes| && !SyncRoutes(rules, nodes, base, routes[..n]).Saved?
    ensures SyncRoutes(rules, nodes, base, routes) == SyncRoutes(rules, nodes, base, routes[..n])
    decreases |routes|
  {
    if n == |routes| {
      assert routes[..n] == routes;
    } else {
      assert routes[..|routes| - 1][..n] == routes[..n];
      FailureStays(rules, nodes, base, routes[..|routes| - 1], n);
    }
  }

  // ----- dropping what an earlier run generated

  lemma {:induction false} RemoveGeneratedAppend(a: seq<Node>, b: seq<Node>)
    ensures RemoveGenerated(a + b) == RemoveGenerated(a) + RemoveGenerated(b)
  {
    if a == [] {
      assert a + b == b;
    } else {
      assert (a + b)[1..] == a[1..] + b;
      RemoveGeneratedAppend(a[1..], b);
    }
  }

  lemma {:induction false} RemoveGeneratedTwice(nodes: seq<Node>)
    ensures RemoveGenerated(RemoveGenerated(nodes)) == RemoveGenerated(nodes)
    decreases nodes
  {
    if nodes != [] {
      RemoveGeneratedTwice(nodes[0].children);
      RemoveGeneratedTwice(nodes[1..]);
      if IsGenerated(nodes[0]) {
        assert RemoveGenerated(nodes) == RemoveGenerated(nodes[1..]);
      } else {
        assert RemoveGenerated(nodes)[1..] == RemoveGenerated(nodes[1..]);
      }
    }
  }

  lemma {:induction false} RemoveAllGenerated(nodes: seq<Node>)
    requires forall n <- nodes :: IsGenerated(n)
    ensures RemoveGenerated(nodes) == []
  {
    if nodes != [] {
      assert nodes[0] in nodes;
      RemoveAllGenerated(nodes[1..]);
    }
  }

  lemma {:induction false} NoGeneratedLeft(nodes: seq<Node>, id: string)
    requires HasPrefix(id, GENERATED)
    ensures !Has(RemoveGenerated(nodes), id)
    decreases nodes
  {
    if nodes != [] {
      NoGeneratedLeft(nodes[0].children, id);
      NoGeneratedLeft(nodes[1..], id);
      if IsGenerated(nodes[0]) {
        assert RemoveGenerated(nodes) == RemoveGenerated(nodes[1..]);
      } else {
        assert RemoveGenerated(nodes)[1..] == RemoveGenerated(nodes[1..]);
      }
    }
  }

  predicate IsCustom(n: Node) { !IsGenerated(n) }

  /** The custom requests survive, in their old order. */
  lemma {:induction false} CustomRequestsStay(nodes: seq<Node>, deep: bool)
    requires Leaves(nodes)
    ensures Requests(RemoveGenerated(nodes), deep) == Filter(Requests(nodes, deep), IsCustom)
    decreases nodes
  {
    if nodes != [] {
      var n, rest := nodes[0], nodes[1..];
      CustomRequestsStay(n.children, deep);
      CustomRequestsStay(rest, deep);
      FilterAppend(FromNode(n, deep), Requests(rest, deep), IsCustom);
      if IsGenerated(n) {
        assert FromNode(n, deep) == [n];
        assert RemoveGenerated(nodes) == RemoveGenerated(rest);
      } else {
        RequestsCons(n.(children := RemoveGenerated(n.children)), RemoveGenerated(rest), deep);
        CustomFromNode(n, deep);
      }
    }
  }

  lemma CustomFromNode(n: Node, deep: bool)
    requires !IsGenerated(n) && (n.kind == "request" ==> n.children == [])
    requires Requests(RemoveGenerated(n.children), deep) == Filter(Requests(n.children, deep), IsCustom)
    ensures FromNode(n.(children := RemoveGenerated(n.children)), deep) == Filter(FromNode(n, deep), IsCustom)
  {
    var n' := n.(children := RemoveGenerated(n.children));
    if n.kind == "request" {
      assert FromNode(n, deep) == [n];
      FilterAll([n], IsCustom);
    } else {
      assert FromNode(n, deep) == if Descends(n, deep) then Requests(n.children, deep) else [];
      assert FromNode(n', deep) == if Descends(n, deep) then Requests(n'.children, deep) else [];
    }
  }

  // ----- what a run generates

  function GeneratedNode(rules: Rules, base: string, route: Route): Node { NodeOf(RequestFor(rules, base, route)) }

  /** One node per usable method and path, in first-seen order. */
  function Generated(rules: Rules, base: string, routes: seq<Route>): seq<Node> {
    if routes == [] then []
    else
      var before, route := Generated(rules, base, routes[..|routes| - 1]), routes[|routes| - 1];
      if !Usable(rules, route) || GeneratedNode(rules, base, route) in before then before
      else before + [GeneratedNode(rules, base, route)]
  }

  ghost predicate Injective(hash: string -> string) {
    forall x, y :: hash(x) == hash(y) ==> x == y
  }

  lemma VerbHasNoSpace(verb: string)
    requires ValidVerb(verb)
    ensures ' ' !in verb
  {
    assert ' ' !in "GET" && ' ' !in "POST" && ' ' !in "PUT" && ' ' !in "PATCH";
    assert ' ' !in "DELETE" && ' ' !in "HEAD" && ' ' !in "OPTIONS";
  }

  /** With an injective hash the generated id identifies method and path, hence the whole request. */
  lemma IdIdentifiesRequest(rules: Rules, base: string, r1: Route, r2: Route)
    requires Injective(rules.codec.hash) && Usable(rules, r1) && Usable(rules, r2)
    requires RequestFor(rules, base, r1).id == RequestFor(rules, base, r2).id
    ensures Verb(rules, r1) == Verb(rules, r2) && Path(r1) == Path(r2)
    ensures RequestFor(rules, base, r1) == RequestFor(rules, base, r2)
  {
    var h := rules.codec.hash;
    assert h(Title(rules, r1)) == (GENERATED + h(Title(rules, r1)))[|GENERATED|..];
    assert h(Title(rules, r2)) == (GENERATED + h(Title(rules, r2)))[|GENERATED|..];
    VerbHasNoSpace(Verb(rules, r1));
    VerbHasNoSpace(Verb(rules, r2));
    CutUnique(' ', Verb(rules, r1), Path(r1), Verb(rules, r2), Path(r2));
  }

  ghost predicate ComesFrom(rules: Rules, base: string, routes: seq<Route>, n: Node) {
    exists i :: 0 <= i < |routes| && Usable(rules, routes[i]) && n == GeneratedNode(rules, base, routes[i])
  }

  lemma ComesFromStep(rules: Rules, base: string, routes: seq<Route>)
    requires routes != []
    ensures var init, route := routes[..|routes| - 1], routes[|routes| - 1];
      forall n :: ComesFrom(rules, base, routes, n) <==>
                    ComesFrom(rules, base, init, n) || (Usable(rules, route) && n == GeneratedNode(rules, base, route))
  {
    var init, route := routes[..|routes| - 1], routes[|routes| - 1];
    forall n
      ensures ComesFrom(rules, base, routes, n) <==>
                ComesFrom(rules, base, init, n) || (Usable(rules, route) && n == GeneratedNode(rules, base, route))
    {
      if ComesFrom(rules, base, init, n) {
        var i :| 0 <= i < |init| && Usable(rules, init[i]) && n == GeneratedNode(rules, base, init[i]);
        assert routes[i] == init[i];
      }
      if Usable(rules, route) && n == GeneratedNode(rules, base, route) {
        assert routes[|routes| - 1] == route;
      }
    }
  }

  /** The generated nodes are those of the usable routes, with different ids. */
  lemma {:induction false} GeneratedNodes(rules: Rules, base: string, routes: seq<Route>)
    requires Injective(rules.codec.hash)
    ensures var g := Generated(rules, base, routes);
            && (forall n :: n in g <==> ComesFrom(rules, base, routes, n))
            && (forall i, j :: 0 <= i < j < |g| ==> g[i].id != g[j].id)
            && (forall n <- g :: IsGenerated(n) && n.children == [] && n.raw.Some? && NodeOf(n.raw.value) == n)
  {
    if routes != [] {
      var init, route := routes[..|routes| - 1], routes[|routes| - 1];
      GeneratedNodes(rules, base, init);
      var before, node := Generated(rules, base, init), GeneratedNode(rules, base, route);
      ComesFromStep(rules, base, routes);
      if Usable(rules, route) && node !in before {
        forall n <- before
          ensures n.id != node.id
        {
          var i :| 0 <= i < |init| && Usable(rules, init[i]) && n == GeneratedNode(rules, base, init[i]);
          if n.id == node.id {
            IdIdentifiesRequest(rules, base, init[i], route);
          }
        }
      }
    }
  }

  lemma {:induction false} HasAppend(a: seq<Node>, b: seq<Node>, id: string)
    ensures Has(a + b, id) <==> Has(a, id) || Has(b, id)
  {
    if a == [] {
      assert a + b == b;
    } else {
      assert (a + b)[1..] == a[1..] + b;
      HasAppend(a[1..], b, id);
    }
  }

  lemma {:induction false} ReplaceAppend(a: seq<Node>, b: seq<Node>, request: Node)
    ensures Replace(a + b, request) == Replace(a, request) + Replace(b, request)
  {
    if a == [] {
      assert a + b == b;
    } else {
      assert (a + b)[1..] == a[1..] + b;
      ReplaceAppend(a[1..], b, request);
    }
  }

  /** Among leaf requests of which only `request` itself carries its id, replacing changes nothing. */
  lemma {:induction false} ReplaceBySame(nodes: seq<Node>, request: Node)
    requires forall n <- nodes :: n.kind == "request" && n.children == [] && (n.id == request.id ==> n == request)
    ensures Replace(nodes, request) == nodes
    ensures Has(nodes, request.id) <==> request in nodes
  {
    if nodes != [] {
      assert nodes[0] in nodes;
      ReplaceBySame(nodes[1..], request);
      assert nodes == [nodes[0]] + nodes[1..];
    }
  }

  /** An accepted upsert of a generated request appends it, unless it is already there. */
  lemma PutGenerated(rules: Rules, clean: seq<Node>, base: string, init: seq<Route>, route: Route)
    requires Injective(rules.codec.hash) && Usable(rules, route) && RemoveGenerated(clean) == clean
    ensures var g, node := Generated(rules, base, init), GeneratedNode(rules, base, route);
            Put(rules.codec, clean + g, node, "") == if node in g then clean + g else clean + (g + [node])
  {
    var g, node := Generated(rules, base, init), GeneratedNode(rules, base, route);
    GeneratedHaveOwnIds(rules, base, init, route);
    NoGeneratedLeft(clean, node.id);
    ReplaceBySame(g, node);
    HasAppend(clean, g, node.id);
    if node in g {
      ReplaceAppend(clean, g, node);
      ReplaceAbsent(clean, node);
    } else {
      RemoveAbsent(clean + g, node.id);
      ConcatAssociative(clean, g, [node]);
    }
  }

  lemma GeneratedHaveOwnIds(rules: Rules, base: string, init: seq<Route>, route: Route)
    requires Injective(rules.codec.hash) && Usable(rules, route)
    ensures var node := GeneratedNode(rules, base, route);
      && HasPrefix(node.id, GENERATED)
      && forall n <- Generated(rules, base, init) :: n.kind == "request" && n.children == [] && (n.id == node.id ==> n == node)
  {
    var g, node := Generated(rules, base, init), GeneratedNode(rules, base, route);
    GeneratedNodes(rules, base, init);
    assert HasPrefix(node.id, GENERATED);
    forall n <- g
      ensures n.kind == "request" && n.children == [] && (n.id == node.id ==> n == node)
    {
      var i :| 0 <= i < |init| && Usable(rules, init[i]) && n == GeneratedNode(rules, base, init[i]);
      if n.id == node.id {
        IdIdentifiesRequest(rules, base, init[i], route);
      }
    }
  }

  /** What the loop has built after the routes so far. */
  lemma {:induction false} SyncRoutesBuild(rules: Rules, clean: seq<Node>, base: string, routes: seq<Route>)
    requires Injective(rules.codec.hash) && RemoveGenerated(clean) == clean
    requires SyncRoutes(rules, clean, base, routes).Saved?
    ensures SyncRoutes(rules, clean, base, routes) == Saved(clean + Generated(rules, base, routes))
  {
    if routes == [] {
      assert clean + [] == clean;
    } else {
      var init, route := routes[..|routes| - 1], routes[|routes| - 1];
      SyncRoutesBuild(rules, clean, base, init);
      if Usable(rules, route) {
        var current := clean + Generated(rules, base, init);
        UpsertAccepts(rules.codec, current, RequestFor(rules, base, route), "");
        PutGenerated(rules, clean, base, init, route);
      }
    }
  }

  /** The main result: a successful sync leaves the old tree without its generated requests, followed
      by exactly one request per usable method and path. */
  lemma SyncResult(rules: Rules, nodes: seq<Node>, base: string, routes: seq<Route>)
    requires Injective(rules.codec.hash) && Sync(rules, nodes, base, routes).Saved?
    ensures var g := Generated(rules, base, routes);
            && Sync(rules, nodes, base, routes).children == RemoveGenerated(nodes) + g
            && (forall n :: n in g <==> ComesFrom(rules, base, routes, n))
            && (forall i, j :: 0 <= i < j < |g| ==> g[i].id != g[j].id)
    ensures Leaves(nodes) ==> forall deep ::
              Requests(Sync(rules, nodes, base, routes).children, deep)
              == Filter(Requests(nodes, deep), IsCustom) + Generated(rules, base, routes)
  {
    RemoveGeneratedTwice(nodes);
    SyncRoutesBuild(rules, RemoveGenerated(nodes), base, routes);
    GeneratedNodes(rules, base, routes);
    if Leaves(nodes) {
      forall deep
        ensures Requests(Sync(rules, nodes, base, routes).children, deep)
                == Filter(Requests(nodes, deep), IsCustom) + Generated(rules, base, routes)
      {
        CustomRequestsStay(nodes, deep);
        RequestsAppend(RemoveGenerated(nodes), Generated(rules, base, routes), deep);
        LeafRequests(Generated(rules, base, routes), deep);
      }
    }
  }

  lemma {:induction false} LeafRequests(nodes: seq<Node>, deep: bool)
    requires forall n <- nodes :: n.kind == "request" && n.children == []
    ensures Requests(nodes, deep) == nodes
  {
    if nodes != [] {
      assert nodes[0] in nodes;
      LeafRequests(nodes[1..], deep);
      assert FromNode(nodes[0], deep) == [nodes[0]];
    }
  }

  /** A second sync with the same routes gives the same tree. */
  lemma SyncTwice(rules: Rules, nodes: seq<Node>, base: string, routes: seq<Route>)
    requires Injective(rules.codec.hash) && Sync(rules, nodes, base, routes).Saved?
    ensures Sync(rules, Sync(rules, nodes, base, routes).children, base, routes) == Sync(rules, nodes, base, routes)
  {
    var clean, g := RemoveGenerated(nodes), Generated(rules, base, routes);
    SyncResult(rules, nodes, base, routes);
    GeneratedNodes(rules, base, routes);
    RemoveGeneratedAppend(clean, g);
    RemoveGeneratedTwice(nodes);
    RemoveAllGenerated(g);
    assert clean + [] == clean;
  }

  // ----- exactly when a sync succeeds

  ghost predicate RouteFits(rules: Rules, clean: seq<Node>, base: string, before: seq<Route>, route: Route) {
    Usable(rules, route) ==>
      && ValidRequest(rules, RequestFor(rules, base, route))
      && (forall n <- Requests(clean, false) ::
            n.raw.Some? && !Clashes(rules.codec, RequestFor(rules, base, route), n.raw.value))
      && (forall j :: 0 <= j < |before| && Usable(rules, before[j]) ==>
            !Clashes(rules.codec, RequestFor(rules, base, route), RequestFor(rules, base, before[j])))
  }

  /** Clashing with a generated node is clashing with the route it comes from. */
  lemma GeneratedClash(rules: Rules, base: string, init: seq<Route>, r: Request)
    requires Injective(rules.codec.hash)
    ensures (forall n <- Generated(rules, base, init) :: n.raw.Some? && !Clashes(rules.codec, r, n.raw.value))
            <==> forall j :: 0 <= j < |init| && Usable(rules, init[j]) ==> !Clashes(rules.codec, r, RequestFor(rules, base, init[j]))
  {
    GeneratedNodes(rules, base, init);
    forall j | 0 <= j < |init| && Usable(rules, init[j])
      ensures GeneratedNode(rules, base, init[j]) in Generated(rules, base, init)
    {
      assert ComesFrom(rules, base, init, GeneratedNode(rules, base, init[j]));
    }
    forall n <- Generated(rules, base, init)
      ensures ComesFrom(rules, base, init, n)
    {
    }
  }

  lemma SyncRouteFits(rules: Rules, clean: seq<Node>, base: string, init: seq<Route>, route: Route)
    requires Injective(rules.codec.hash)
    ensures SyncRoute(rules, clean + Generated(rules, base, init), base, route).Saved? <==> RouteFits(rules, clean, base, init, route)
  {
    if Usable(rules, route) {
      var g, r, s := Generated(rules, base, init), RequestFor(rules, base, route), Requests(clean, false);
      UpsertAccepts(rules.codec, clean + g, r, "");
      assert Requests(clean + g, false) == s + g by {
        GeneratedNodes(rules, base, init);
        RequestsAppend(clean, g, false);
        LeafRequests(g, false);
      }
      assert forall n :: n in s + g <==> n in s || n in g;
      GeneratedClash(rules, base, init, r);
    }
  }

  /** On a tree without generated requests the route loop succeeds exactly when each usable route
      makes a valid request, finds only payloads that decode, and clashes neither with a request of
      the tree nor with an earlier route: two paths that differ only in leading slashes do clash. */
  lemma {:induction false} SyncSucceedsIff(rules: Rules, clean: seq<Node>, base: string, routes: seq<Route>)
    requires Injective(rules.codec.hash) && RemoveGenerated(clean) == clean
    ensures SyncRoutes(rules, clean, base, routes).Saved?
            <==> forall i :: 0 <= i < |routes| ==> RouteFits(rules, clean, base, routes[..i], routes[i])
  {
    if routes != [] {
      var n := |routes| - 1;
      var init := routes[..n];
      SyncSucceedsIff(rules, clean, base, init);
      assert forall i :: 0 <= i < n ==> init[..i] == routes[..i] && init[i] == routes[i];
      if SyncRoutes(rules, clean, base, init).Saved? {
        SyncRoutesBuild(rules, clean, base, init);
        SyncRouteFits(rules, clean, base, init, routes[n]);
      }
    }
  }
}
