/** Editing a request collection: a tree of folders whose leaves are requests. These are the
    functions the slice-building loops compute, and the laws they keep. */
module CollectionTree {
  import opened Wrappers
  import opened Text
  import opened Sequences

  /** A decoded request. `rest` is everything the tree editor does not look at. */
  datatype Request = Request(id: string, name: string, verb: string, url: string, rest: string)

  /** A collection node. `raw` is its payload, None when it is missing or cannot be decoded;
      `settings` are the headers, variables, auth and scripts a folder may carry. */
  datatype Node = Node(id: string, name: string, kind: string, settings: string, children: seq<Node>, raw: Option<Request>)

  /** The outside functions: case folding of method names and the short hash of a string. */
  datatype Codec = Codec(fold: string -> string, hash: string -> string)

  predicate IsRequest(n: Node, id: string) { n.kind == "request" && n.id == id }

  // ----- what the program computes

  /** The payloads of the requests that are reached through folders, in preorder. */
  function Resolve(nodes: seq<Node>): Option<seq<Request>>
    decreases nodes
  {
    if nodes == [] then Some([])
    else
      var first := match nodes[0].kind
        case "folder" => Resolve(nodes[0].children)
        case "request" => if nodes[0].raw.None? then None else Some([nodes[0].raw.value])
        case _ => Some([]);
      var rest := Resolve(nodes[1..]);
      if first.None? || rest.None? then None else Some(first.value + rest.value)
  }

  function Replace(nodes: seq<Node>, request: Node): seq<Node>
    decreases nodes
  {
    if nodes == [] then []
    else
      [if IsRequest(nodes[0], request.id) then request else nodes[0].(children := Replace(nodes[0].children, request))]
      + Replace(nodes[1..], request)
  }

  function Remove(nodes: seq<Node>, id: string): seq<Node>
    decreases nodes
  {
    if nodes == [] then []
    else
      (if IsRequest(nodes[0], id) then [] else [nodes[0].(children := Remove(nodes[0].children, id))])
      + Remove(nodes[1..], id)
  }

  /** The found flag of both. */
  predicate Has(nodes: seq<Node>, id: string)
    decreases nodes
  {
    nodes != [] && (IsRequest(nodes[0], id) || Has(nodes[0].children, id) || Has(nodes[1..], id))
  }

  predicate IsFolder(n: Node, name: string) { n.kind == "folder" && n.name == name }

  function FullPath(prefix: string, name: string): string { if prefix == "" then name else prefix + "/" + name }

  function NewFolder(c: Codec, path: string, name: string, children: seq<Node>): Node {
    Node("folder-" + c.hash(path), name, "folder", "", children, None)
  }

  /** Adds nodes at the end of the folder `parts` leads to, creating what is missing on the way. The
      program adds one request; adding nothing just creates the folders. */
  function Insert(c: Codec, nodes: seq<Node>, parts: seq<string>, prefix: string, added: seq<Node>): seq<Node>
    requires parts != []
    decreases |parts|, 1, |nodes|
  {
    var name := Trim(parts[0]);
    var path := FullPath(prefix, name);
    if nodes == [] then [NewFolder(c, path, name, InsertBelow(c, [], parts, path, added))]
    else if IsFolder(nodes[0], name) then
      [nodes[0].(children := InsertBelow(c, nodes[0].children, parts, path, added))] + nodes[1..]
    else [nodes[0]] + Insert(c, nodes[1..], parts, prefix, added)
  }

  /** The children of the folder that `parts[0]` names. */
  function InsertBelow(c: Codec, children: seq<Node>, parts: seq<string>, path: string, added: seq<Node>): seq<Node>
    requires parts != []
    decreases |parts|, 0, 0
  {
    if |parts| == 1 then children + added else Insert(c, children, parts[1..], path, added)
  }

  const GENERATED := "req-route-"

  predicate IsGenerated(n: Node) { n.kind == "request" && HasPrefix(n.id, GENERATED) }

  function RemoveGenerated(nodes: seq<Node>): seq<Node>
    decreases nodes
  {
    if nodes == [] then []
    else
      (if IsGenerated(nodes[0]) then [] else [nodes[0].(children := RemoveGenerated(nodes[0].children))])
      + RemoveGenerated(nodes[1..])
  }

  datatype Outcome = Saved(children: seq<Node>) | BadPayload | Conflict(id: string) | Invalid | NoRoutes

  /** An existing request with another id but the same method and URL. */
  predicate Clashes(c: Codec, request: Request, existing: Request) {
    existing.id != request.id && c.fold(existing.verb) == c.fold(request.verb) && existing.url == request.url
  }

  function FirstClash(c: Codec, request: Request, resolved: seq<Request>): Option<string> {
    if resolved == [] then None
    else if Clashes(c, request, resolved[0]) then Some(resolved[0].id)
    else FirstClash(c, request, resolved[1..])
  }

  function NodeOf(request: Request): Node {
    Node(request.id, request.name, "request", "", [], Some(request))
  }

  /** The tree after an accepted upsert. */
  function Put(c: Codec, nodes: seq<Node>, request: Node, folderPath: string): seq<Node> {
    if Blank(folderPath) then
      if Has(nodes, request.id) then Replace(nodes, request) else Remove(nodes, request.id) + [request]
    else Insert(c, Remove(nodes, request.id), Split(folderPath, '/'), "", [request])
  }

  function Upsert(c: Codec, nodes: seq<Node>, request: Request, folderPath: string): Outcome {
    match Resolve(nodes)
    case None => BadPayload
    case Some(resolved) =>
      match FirstClash(c, request, resolved)
      case Some(id) => Conflict(id)
      case None => Saved(Put(c, nodes, NodeOf(request), folderPath))
  }

  // ----- the requests of a tree

  predicate Descends(n: Node, deep: bool) { deep || n.kind == "folder" }

  /** The request nodes in preorder: all of them, or only those reached through folders. */
  function Requests(nodes: seq<Node>, deep: bool): seq<Node>
    decreases nodes
  {
    if nodes == [] then [] else FromNode(nodes[0], deep) + Requests(nodes[1..], deep)
  }

  function FromNode(n: Node, deep: bool): seq<Node>
    decreases n
  {
    (if n.kind == "request" then [n] else []) + (if Descends(n, deep) then Requests(n.children, deep) else [])
  }

  lemma RequestsCons(n: Node, rest: seq<Node>, deep: bool)
    ensures Requests([n] + rest, deep) == FromNode(n, deep) + Requests(rest, deep)
  {
    assert ([n] + rest)[1..] == rest;
  }

  /** Requests have no children. */
  predicate Leaves(nodes: seq<Node>)
    decreases nodes
  {
    nodes != [] ==> (nodes[0].kind == "request" ==> nodes[0].children == []) && Leaves(nodes[0].children) && Leaves(nodes[1..])
  }

  function WithId(id: string): Node -> bool { (n: Node) => n.id == id }

  function WithoutId(id: string): Node -> bool { (n: Node) => n.id != id }

  function Named(s: seq<Node>, id: string): seq<Node> { Filter(s, WithId(id)) }

  function Others(s: seq<Node>, id: string): seq<Node> { Filter(s, WithoutId(id)) }

  lemma {:induction false} RequestsAppend(a: seq<Node>, b: seq<Node>, deep: bool)
    ensures Requests(a + b, deep) == Requests(a, deep) + Requests(b, deep)
  {
    if a == [] {
      assert a + b == b;
    } else {
      assert a + b == [a[0]] + (a[1..] + b);
      RequestsCons(a[0], a[1..] + b, deep);
      RequestsAppend(a[1..], b, deep);
    }
  }

  lemma {:induction false} LeavesAppend(a: seq<Node>, b: seq<Node>)
    ensures Leaves(a + b) <==> Leaves(a) && Leaves(b)
  {
    if a == [] {
      assert a + b == b;
    } else {
      assert (a + b)[1..] == a[1..] + b;
      LeavesAppend(a[1..], b);
    }
  }

  /** Removing an id drops exactly its requests and keeps the others in order. */
  lemma {:induction false} RemoveRequests(nodes: seq<Node>, id: string, deep: bool)
    requires Leaves(nodes)
    ensures Requests(Remove(nodes, id), deep) == Others(Requests(nodes, deep), id)
    decreases nodes
  {
    if nodes != [] {
      var n, rest := nodes[0], nodes[1..];
      RemoveRequests(n.children, id, deep);
      RemoveRequests(rest, id, deep);
      FilterAppend(FromNode(n, deep), Requests(rest, deep), WithoutId(id));
      if IsRequest(n, id) {
        assert FromNode(n, deep) == [n];
        assert Remove(nodes, id) == Remove(rest, id);
      } else {
        var n' := n.(children := Remove(n.children, id));
        RequestsCons(n', Remove(rest, id), deep);
        RemoveFromNode(n, id, deep);
      }
    }
  }

  lemma RemoveFromNode(n: Node, id: string, deep: bool)
    requires !IsRequest(n, id) && (n.kind == "request" ==> n.children == [])
    requires Requests(Remove(n.children, id), deep) == Others(Requests(n.children, deep), id)
    ensures FromNode(n.(children := Remove(n.children, id)), deep) == Others(FromNode(n, deep), id)
  {
    var n' := n.(children := Remove(n.children, id));
    if n.kind == "request" {
      assert FromNode(n, deep) == [n];
      FilterAll([n], WithoutId(id));
    } else {
      assert FromNode(n, deep) == if Descends(n, deep) then Requests(n.children, deep) else [];
      assert FromNode(n', deep) == if Descends(n, deep) then Requests(n'.children, deep) else [];
    }
  }

  lemma {:induction false} RemoveLeaves(nodes: seq<Node>, id: string)
    requires Leaves(nodes)
    ensures Leaves(Remove(nodes, id)) && !Has(Remove(nodes, id), id)
    decreases nodes
  {
    if nodes != [] {
      RemoveLeaves(nodes[0].children, id);
      RemoveLeaves(nodes[1..], id);
      if IsRequest(nodes[0], id) {
        assert Remove(nodes, id) == Remove(nodes[1..], id);
      } else {
        assert Remove(nodes, id)[1..] == Remove(nodes[1..], id);
      }
    }
  }

  lemma {:induction false} HasIffNamed(nodes: seq<Node>, id: string)
    requires Leaves(nodes)
    ensures Has(nodes, id) <==> exists n <- Requests(nodes, true) :: n.id == id
    decreases nodes
  {
    if nodes != [] {
      HasIffNamed(nodes[0].children, id);
      HasIffNamed(nodes[1..], id);
      assert Requests(nodes, true) == FromNode(nodes[0], true) + Requests(nodes[1..], true);
    }
  }

  lemma {:induction false} RemoveAbsent(nodes: seq<Node>, id: string)
    requires !Has(nodes, id)
    ensures Remove(nodes, id) == nodes
    decreases nodes
  {
    if nodes != [] {
      RemoveAbsent(nodes[0].children, id);
      RemoveAbsent(nodes[1..], id);
    }
  }

  function Substitute(s: seq<Node>, request: Node): seq<Node> {
    seq(|s|, i requires 0 <= i < |s| => if s[i].id == request.id then request else s[i])
  }

  /** Replacing keeps every request at its place and changes the content of that id only. */
  lemma {:induction false} ReplaceRequests(nodes: seq<Node>, request: Node, deep: bool)
    requires Leaves(nodes) && request.kind == "request" && request.children == []
    ensures Requests(Replace(nodes, request), deep) == Substitute(Requests(nodes, deep), request)
    decreases nodes
  {
    if nodes != [] {
      var n, rest := nodes[0], nodes[1..];
      ReplaceRequests(n.children, request, deep);
      ReplaceRequests(rest, request, deep);
      var n' := if IsRequest(n, request.id) then request else n.(children := Replace(n.children, request));
      RequestsCons(n', Replace(rest, request), deep);
      ReplaceFromNode(n, request, deep);
      SubstituteAppend(FromNode(n, deep), Requests(rest, deep), request);
    }
  }

  lemma SubstituteAppend(a: seq<Node>, b: seq<Node>, request: Node)
    ensures Substitute(a + b, request) == Substitute(a, request) + Substitute(b, request)
  {
  }

  lemma ReplaceFromNode(n: Node, request: Node, deep: bool)
    requires request.kind == "request" && request.children == [] && (n.kind == "request" ==> n.children == [])
    requires Requests(Replace(n.children, request), deep) == Substitute(Requests(n.children, deep), request)
    ensures var n' := if IsRequest(n, request.id) then request else n.(children := Replace(n.children, request));
            FromNode(n', deep) == Substitute(FromNode(n, deep), request)
  {
    if n.kind == "request" {
      assert FromNode(n, deep) == [n];
    }
  }

  lemma {:induction false} ReplaceLeaves(nodes: seq<Node>, request: Node)
    requires Leaves(nodes) && request.children == []
    ensures Leaves(Replace(nodes, request))
    decreases nodes
  {
    if nodes != [] {
      ReplaceLeaves(nodes[0].children, request);
      ReplaceLeaves(nodes[1..], request);
      assert Replace(nodes, request)[1..] == Replace(nodes[1..], request);
    }
  }

  /** Inserting adds one request somewhere in the preorder and moves no other. */
  lemma {:induction false} InsertRequests(c: Codec, nodes: seq<Node>, parts: seq<string>, prefix: string, request: Node, deep: bool)
    returns (before: seq<Node>, after: seq<Node>)
    requires parts != [] && request.kind == "request" && request.children == []
    ensures Requests(nodes, deep) == before + after
    ensures Requests(Insert(c, nodes, parts, prefix, [request]), deep) == before + [request] + after
    decreases |parts|, 1, |nodes|
  {
    var name := Trim(parts[0]);
    var path := FullPath(prefix, name);
    if nodes == [] {
      before, after := InsertBelowRequests(c, [], parts, path, request, deep);
      var folder := NewFolder(c, path, name, []);
      UnderFolder(folder, InsertBelow(c, [], parts, path, [request]), [], before, request, after, deep);
      assert Insert(c, nodes, parts, prefix, [request])
          == [folder.(children := InsertBelow(c, [], parts, path, [request]))] + [];
    } else if IsFolder(nodes[0], name) {
      var b, a := InsertBelowRequests(c, nodes[0].children, parts, path, request, deep);
      before, after := b, a + Requests(nodes[1..], deep);
      UnderFolder(nodes[0], InsertBelow(c, nodes[0].children, parts, path, [request]), nodes[1..], b, request, a, deep);
    } else {
      var b, a := InsertRequests(c, nodes[1..], parts, prefix, request, deep);
      before, after := FromNode(nodes[0], deep) + b, a;
      RequestsCons(nodes[0], Insert(c, nodes[1..], parts, prefix, [request]), deep);
    }
  }

  lemma {:induction false} InsertBelowRequests(c: Codec, children: seq<Node>, parts: seq<string>, path: string, request: Node, deep: bool)
    returns (before: seq<Node>, after: seq<Node>)
    requires parts != [] && request.kind == "request" && request.children == []
    ensures Requests(children, deep) == before + after
    ensures Requests(InsertBelow(c, children, parts, path, [request]), deep) == before + [request] + after
    decreases |parts|, 0, 0
  {
    if |parts| == 1 {
      before, after := Requests(children, deep), [];
      RequestsAppend(children, [request], deep);
      RequestsCons(request, [], deep);
      assert [request] + [] == [request];
    } else {
      before, after := InsertRequests(c, children, parts[1..], path, request, deep);
    }
  }

  lemma UnderFolder(folder: Node, children: seq<Node>, rest: seq<Node>, b: seq<Node>, request: Node, a: seq<Node>, deep: bool)
    requires folder.kind == "folder"
    requires Requests(folder.children, deep) == b + a && Requests(children, deep) == b + [request] + a
    ensures FromNode(folder, deep) + Requests(rest, deep) == b + (a + Requests(rest, deep))
    ensures Requests([folder.(children := children)] + rest, deep) == b + [request] + (a + Requests(rest, deep))
  {
    RequestsCons(folder.(children := children), rest, deep);
    ConcatAssociative(b, a, Requests(rest, deep));
    ConcatAssociative(b + [request], a, Requests(rest, deep));
  }

  lemma {:induction false} InsertLeaves(c: Codec, nodes: seq<Node>, parts: seq<string>, prefix: string, request: Node)
    requires parts != [] && request.children == [] && Leaves(nodes)
    ensures Leaves(Insert(c, nodes, parts, prefix, [request]))
    decreases |parts|, 1, |nodes|
  {
    var name := Trim(parts[0]);
    var path := FullPath(prefix, name);
    if nodes == [] || IsFolder(nodes[0], name) {
      var children, rest := if nodes == [] then [] else nodes[0].children, if nodes == [] then [] else nodes[1..];
      if |parts| == 1 {
        LeavesAppend(children, [request]);
      } else {
        InsertLeaves(c, children, parts[1..], path, request);
      }
      assert Insert(c, nodes, parts, prefix, [request])[1..] == rest;
    } else {
      InsertLeaves(c, nodes[1..], parts, prefix, request);
      assert Insert(c, nodes, parts, prefix, [request])[1..] == Insert(c, nodes[1..], parts, prefix, [request]);
    }
  }

  // ----- an upsert and the requests of the tree

  /** From `s` to `s'` exactly the request with this id changed: the others are the same, in the same
      order, and what now carries the id is `request`, at most once. */
  ghost predicate Edited(s: seq<Node>, s': seq<Node>, request: Node) {
    && Others(s', request.id) == Others(s, request.id)
    && (Named(s', request.id) == [] || Named(s', request.id) == [request])
  }

  lemma {:induction false} SubstituteEdits(s: seq<Node>, request: Node)
    requires |Named(s, request.id)| <= 1
    ensures Edited(s, Substitute(s, request), request)
    ensures |Named(Substitute(s, request), request.id)| == |Named(s, request.id)|
  {
    if s != [] {
      FilterElements(s[1..], WithId(request.id));
      SubstituteEdits(s[1..], request);
      assert Substitute(s, request)[1..] == Substitute(s[1..], request);
    }
  }

  lemma AddingEdits(s: seq<Node>, request: Node, before: seq<Node>, after: seq<Node>)
    requires Others(s, request.id) == before + after
    ensures Edited(s, before + [request] + after, request)
    ensures Named(before + [request] + after, request.id) == [request]
  {
    var id := request.id;
    OtherParts(s, id, before, after);
    FilterThree(before, request, after, WithoutId(id));
    FilterThree(before, request, after, WithId(id));
    assert before + [] + after == before + after && [] + [request] + [] == [request];
  }

  lemma OtherParts(s: seq<Node>, id: string, before: seq<Node>, after: seq<Node>)
    requires Others(s, id) == before + after
    ensures Others(before, id) == before && Others(after, id) == after
    ensures Named(before, id) == [] && Named(after, id) == []
  {
    FilterElements(s, WithoutId(id));
    forall n | n in before || n in after
      ensures n.id != id
    {
      assert n in before + after;
    }
    AllOthers(before, id);
    AllOthers(after, id);
  }

  lemma AllOthers(s: seq<Node>, id: string)
    requires forall n <- s :: n.id != id
    ensures Others(s, id) == s && Named(s, id) == []
  {
    FilterAll(s, WithoutId(id));
    FilterNone(s, WithId(id));
  }

  lemma FilterThree(before: seq<Node>, n: Node, after: seq<Node>, p: Node -> bool)
    ensures Filter(before + [n] + after, p) == Filter(before, p) + (if p(n) then [n] else []) + Filter(after, p)
  {
    FilterAppend(before + [n], after, p);
    FilterAppend(before, [n], p);
  }

  ghost predicate UniqueIds(nodes: seq<Node>) {
    forall id :: |Named(Requests(nodes, true), id)| <= 1
  }

  lemma {:induction false} ReachedAreFewer(nodes: seq<Node>, id: string)
    ensures |Named(Requests(nodes, false), id)| <= |Named(Requests(nodes, true), id)|
    decreases nodes
  {
    if nodes != [] {
      ReachedAreFewer(nodes[0].children, id);
      ReachedAreFewer(nodes[1..], id);
      FilterAppend(FromNode(nodes[0], true), Requests(nodes[1..], true), WithId(id));
      FilterAppend(FromNode(nodes[0], false), Requests(nodes[1..], false), WithId(id));
      var own := if nodes[0].kind == "request" then [nodes[0]] else [];
      FilterAppend(own, Requests(nodes[0].children, true), WithId(id));
      FilterAppend(own, if Descends(nodes[0], false) then Requests(nodes[0].children, false) else [], WithId(id));
    }
  }

  /** An upsert leaves the id exactly once, with the new content, and the rest of the tree as it was. */
  lemma PutEdits(c: Codec, nodes: seq<Node>, request: Node, folderPath: string, deep: bool)
    requires Leaves(nodes) && UniqueIds(nodes) && request.kind == "request" && request.children == []
    ensures Edited(Requests(nodes, deep), Requests(Put(c, nodes, request, folderPath), deep), request)
    ensures deep ==> Named(Requests(Put(c, nodes, request, folderPath), deep), request.id) == [request]
    ensures Leaves(Put(c, nodes, request, folderPath))
    ensures Remove(Put(c, nodes, request, folderPath), request.id) == Remainder(c, nodes, request.id, folderPath)
  {
    RemoveAfterPut(c, nodes, request, folderPath);
    var s, id := Requests(nodes, deep), request.id;
    HasIffNamed(nodes, id);
    RemoveRequests(nodes, id, deep);
    RemoveLeaves(nodes, id);
    if !Blank(folderPath) {
      InsertLeaves(c, Remove(nodes, id), Split(folderPath, '/'), "", request);
      var before, after := InsertRequests(c, Remove(nodes, id), Split(folderPath, '/'), "", request, deep);
      AddingEdits(s, request, before, after);
    } else if Has(nodes, id) {
      ReplaceRequests(nodes, request, deep);
      ReplaceLeaves(nodes, request);
      ReachedAreFewer(nodes, id);
      assert |Named(Requests(nodes, true), id)| <= 1;
      SubstituteEdits(s, request);
      FilterElements(s, WithId(id));
    } else {
      RequestsAppend(Remove(nodes, id), [request], deep);
      LeavesAppend(Remove(nodes, id), [request]);
      assert Others(s, id) + [] == Others(s, id) && Others(s, id) + [request] + [] == Others(s, id) + [request];
      AddingEdits(s, request, Others(s, id), []);
      RequestsCons(request, [], deep);
      assert [request] + [] == [request];
    }
  }

  // ----- the invariants of a collection

  function HasKey(c: Codec, verb: string, url: string): Node -> bool {
    (n: Node) => n.raw.Some? && c.fold(n.raw.value.verb) == verb && n.raw.value.url == url
  }

  /** Method and URL identify a reached request. */
  ghost predicate UniqueKeys(c: Codec, nodes: seq<Node>) {
    forall verb, url :: |Filter(Requests(nodes, false), HasKey(c, verb, url))| <= 1
  }

  /** Every reached payload decodes and carries the id of its node. */
  ghost predicate Payloads(nodes: seq<Node>) {
    forall n <- Requests(nodes, false) :: n.raw.Some? && n.raw.value.id == n.id
  }

  ghost predicate Tidy(c: Codec, nodes: seq<Node>) {
    Leaves(nodes) && UniqueIds(nodes) && Payloads(nodes) && UniqueKeys(c, nodes)
  }

  function Decoded(s: seq<Node>): seq<Request>
    requires forall n <- s :: n.raw.Some?
  {
    seq(|s|, i requires 0 <= i < |s| => assert s[i] in s; s[i].raw.value)
  }

  lemma DecodedAppend(a: seq<Node>, b: seq<Node>)
    ensures (forall n <- a + b :: n.raw.Some?) <==> (forall n <- a :: n.raw.Some?) && (forall n <- b :: n.raw.Some?)
    ensures (forall n <- a + b :: n.raw.Some?) ==> Decoded(a + b) == Decoded(a) + Decoded(b)
  {
    forall n
      ensures n in a + b <==> n in a || n in b
    {
    }
  }

  lemma {:induction false} ResolveReaches(nodes: seq<Node>)
    ensures Resolve(nodes).Some? <==> forall n <- Requests(nodes, false) :: n.raw.Some?
    ensures Resolve(nodes).Some? ==> Resolve(nodes).value == Decoded(Requests(nodes, false))
    decreases nodes
  {
    if nodes != [] {
      ResolveReaches(nodes[0].children);
      ResolveReaches(nodes[1..]);
      DecodedAppend(FromNode(nodes[0], false), Requests(nodes[1..], false));
      assert Requests(nodes, false) == FromNode(nodes[0], false) + Requests(nodes[1..], false);
      if nodes[0].kind == "request" {
        assert FromNode(nodes[0], false) == [nodes[0]];
      } else if nodes[0].kind == "folder" {
        assert FromNode(nodes[0], false) == Requests(nodes[0].children, false);
      } else {
        assert FromNode(nodes[0], false) == [];
      }
    }
  }

  lemma {:induction false} FirstClashFinds(c: Codec, request: Request, resolved: seq<Request>)
    ensures FirstClash(c, request, resolved).None? <==> forall r <- resolved :: !Clashes(c, request, r)
  {
    if resolved != [] {
      FirstClashFinds(c, request, resolved[1..]);
      assert resolved == [resolved[0]] + resolved[1..];
    }
  }

  /** An upsert is accepted exactly when every reached payload decodes and none clashes. */
  lemma UpsertAccepts(c: Codec, nodes: seq<Node>, request: Request, folderPath: string)
    ensures Upsert(c, nodes, request, folderPath).Saved? <==>
              forall n <- Requests(nodes, false) :: n.raw.Some? && !Clashes(c, request, n.raw.value)
    ensures Upsert(c, nodes, request, folderPath).Saved? ==>
              Upsert(c, nodes, request, folderPath).children == Put(c, nodes, NodeOf(request), folderPath)
  {
    ResolveReaches(nodes);
    if Resolve(nodes).Some? {
      var s, decoded := Requests(nodes, false), Resolve(nodes).value;
      FirstClashFinds(c, request, decoded);
      forall n <- s
        ensures n.raw.value in decoded
      {
        var i :| 0 <= i < |s| && s[i] == n;
        assert decoded[i] == n.raw.value;
      }
      forall r <- decoded
        ensures exists n <- s :: n.raw.value == r
      {
        var i :| 0 <= i < |decoded| && decoded[i] == r;
        assert s[i] in s;
      }
    }
  }

  lemma UniqueIdsAfter(s: seq<Node>, s': seq<Node>, request: Node, id: string)
    requires Edited(s, s', request) && |Named(s, id)| <= 1
    ensures |Named(s', id)| <= 1
  {
    if id != request.id {
      FilterTwice(s, WithoutId(request.id), WithId(id));
      FilterTwice(s', WithoutId(request.id), WithId(id));
    }
  }

  lemma EditedElements(s: seq<Node>, s': seq<Node>, request: Node)
    requires Edited(s, s', request)
    ensures forall n <- s' :: n == request || (n in s && n.id != request.id)
  {
    FilterElements(s, WithoutId(request.id));
    FilterElements(s', WithoutId(request.id));
    FilterElements(s', WithId(request.id));
  }

  lemma UniqueKeysAfter(c: Codec, s: seq<Node>, s': seq<Node>, request: Node, verb: string, url: string)
    requires Edited(s, s', request) && |Filter(s, HasKey(c, verb, url))| <= 1
    requires HasKey(c, verb, url)(request) ==> forall n <- s :: n.id != request.id ==> !HasKey(c, verb, url)(n)
    ensures |Filter(s', HasKey(c, verb, url))| <= 1
  {
    var k, id := HasKey(c, verb, url), request.id;
    EditedElements(s, s', request);
    if k(request) {
      FilterShorter(s', WithId(id), k);
    } else {
      FilterTwice(s', WithoutId(id), k);
      FilterOfFilter(s, WithoutId(id), k);
    }
  }

  /** The main law of an accepted upsert: the collection stays tidy, the id is there exactly once with
      the new content, every other request keeps its content and its place in the order, and the
      rest of the tree, folders and their settings included, is what it was. */
  lemma UpsertKeepsTidy(c: Codec, nodes: seq<Node>, request: Request, folderPath: string)
    requires Tidy(c, nodes) && Upsert(c, nodes, request, folderPath).Saved?
    ensures var nodes' := Upsert(c, nodes, request, folderPath).children;
            && Tidy(c, nodes')
            && Named(Requests(nodes', true), request.id) == [NodeOf(request)]
            && (forall deep :: Others(Requests(nodes', deep), request.id) == Others(Requests(nodes, deep), request.id))
            && Remove(nodes', request.id) == Remainder(c, nodes, request.id, folderPath)
  {
    RemoveAfterPut(c, nodes, NodeOf(request), folderPath);
    var node, nodes' := NodeOf(request), Upsert(c, nodes, request, folderPath).children;
    UpsertAccepts(c, nodes, request, folderPath);
    PutEdits(c, nodes, node, folderPath, true);
    PutEdits(c, nodes, node, folderPath, false);
    var s, s' := Requests(nodes, false), Requests(nodes', false);
    forall id
      ensures |Named(Requests(nodes', true), id)| <= 1
    {
      UniqueIdsAfter(Requests(nodes, true), Requests(nodes', true), node, id);
    }
    EditedElements(s, s', node);
    forall verb, url
      ensures |Filter(s', HasKey(c, verb, url))| <= 1
    {
      assert |Filter(s, HasKey(c, verb, url))| <= 1;
      UniqueKeysAfter(c, s, s', node, verb, url);
    }
  }

  // ----- where the request ends up

  /** The children of the first folder at a path. */
  function Lookup(nodes: seq<Node>, parts: seq<string>): Option<seq<Node>>
    requires parts != []
    decreases |parts|, |nodes|
  {
    if nodes == [] then None
    else if !IsFolder(nodes[0], Trim(parts[0])) then Lookup(nodes[1..], parts)
    else if |parts| == 1 then Some(nodes[0].children)
    else Lookup(nodes[0].children, parts[1..])
  }

  lemma {:induction false} InsertedAtPath(c: Codec, nodes: seq<Node>, parts: seq<string>, prefix: string, added: seq<Node>)
    requires parts != []
    ensures Lookup(Insert(c, nodes, parts, prefix, added), parts)
            == Some((if Lookup(nodes, parts).Some? then Lookup(nodes, parts).value else []) + added)
    decreases |parts|, |nodes|
  {
    var name := Trim(parts[0]);
    var result := Insert(c, nodes, parts, prefix, added);
    if nodes == [] {
      if |parts| > 1 {
        InsertedAtPath(c, [], parts[1..], FullPath(prefix, name), added);
      } else {
        assert [] + added == added;
      }
    } else if IsFolder(nodes[0], name) {
      if |parts| > 1 {
        InsertedAtPath(c, nodes[0].children, parts[1..], FullPath(prefix, name), added);
      }
    } else {
      InsertedAtPath(c, nodes[1..], parts, prefix, added);
      assert result[1..] == Insert(c, nodes[1..], parts, prefix, added);
    }
  }

  /** The node at a position: an index at every level. */
  function At(nodes: seq<Node>, path: seq<nat>): Option<Node>
    requires path != []
    decreases |path|
  {
    if path[0] >= |nodes| then None
    else if |path| == 1 then Some(nodes[path[0]])
    else At(nodes[path[0]].children, path[1..])
  }

  lemma {:induction false} ReplaceAt(nodes: seq<Node>, request: Node, i: nat)
    requires i < |nodes|
    ensures |Replace(nodes, request)| == |nodes|
    ensures Replace(nodes, request)[i] ==
              if IsRequest(nodes[i], request.id) then request else nodes[i].(children := Replace(nodes[i].children, request))
  {
    if i > 0 {
      ReplaceAt(nodes[1..], request, i - 1);
    } else {
      ReplaceLength(nodes[1..], request);
    }
  }

  /** Replacing works in place: every position holds what it held, with the new content where the id
      was; below folders only the children may differ. */
  lemma {:induction false} ReplacedInPlace(nodes: seq<Node>, request: Node, path: seq<nat>)
    requires path != [] && Leaves(nodes) && request.children == []
    ensures At(Replace(nodes, request), path) ==
              match At(nodes, path)
              case None => None
              case Some(n) => Some(if IsRequest(n, request.id) then request else n.(children := Replace(n.children, request)))
    decreases |path|
  {
    ReplaceLength(nodes, request);
    if path[0] < |nodes| {
      ReplaceAt(nodes, request, path[0]);
      LeavesAt(nodes, path[0]);
      if |path| > 1 {
        ReplacedInPlace(nodes[path[0]].children, request, path[1..]);
      }
    }
  }

  lemma {:induction false} LeavesAt(nodes: seq<Node>, i: nat)
    requires Leaves(nodes) && i < |nodes|
    ensures (nodes[i].kind == "request" ==> nodes[i].children == []) && Leaves(nodes[i].children)
  {
    if i > 0 {
      LeavesAt(nodes[1..], i - 1);
    }
  }

  lemma {:induction false} InsertAt(c: Codec, nodes: seq<Node>, parts: seq<string>, prefix: string, added: seq<Node>, i: nat)
    requires parts != [] && i < |nodes|
    ensures var inserted := Insert(c, nodes, parts, prefix, added);
      && i < |inserted|
      && (inserted[i] == nodes[i]
          || inserted[i] == nodes[i].(children := InsertBelow(c, nodes[i].children, parts, FullPath(prefix, Trim(parts[0])), added)))
    decreases |nodes|
  {
    if !IsFolder(nodes[0], Trim(parts[0])) && i > 0 {
      InsertAt(c, nodes[1..], parts, prefix, added, i - 1);
    }
  }

  /** Inserting only adds: whatever lies at a position stays there, with its name, settings and
      payload; only folders get more children. */
  lemma {:induction false} InsertKeepsPlaces(c: Codec, nodes: seq<Node>, parts: seq<string>, prefix: string, added: seq<Node>, path: seq<nat>)
    requires parts != [] && path != [] && At(nodes, path).Some?
    ensures var inserted := Insert(c, nodes, parts, prefix, added);
      && At(inserted, path).Some?
      && At(inserted, path).value == At(nodes, path).value.(children := At(inserted, path).value.children)
    decreases |path|
  {
    var i := path[0];
    InsertAt(c, nodes, parts, prefix, added, i);
    if |path| > 1 && Insert(c, nodes, parts, prefix, added)[i] != nodes[i] {
      var children := nodes[i].children;
      if |parts| == 1 {
        KeptInFront(children, added, path[1..]);
      } else {
        InsertKeepsPlaces(c, children, parts[1..], FullPath(prefix, Trim(parts[0])), added, path[1..]);
      }
    }
  }

  lemma KeptInFront(a: seq<Node>, b: seq<Node>, path: seq<nat>)
    requires path != [] && At(a, path).Some?
    ensures At(a + b, path) == At(a, path)
  {
  }

  /** The request is the last one in the requested folder; without a folder every position keeps what
      it held and the request stays where it was, or, when it is new, goes to the end of the root. */
  lemma UpsertPlaces(c: Codec, nodes: seq<Node>, request: Request, folderPath: string)
    requires Leaves(nodes) && Upsert(c, nodes, request, folderPath).Saved?
    ensures var node, nodes' := NodeOf(request), Upsert(c, nodes, request, folderPath).children;
            if !Blank(folderPath) then
              var there := Lookup(nodes', Split(folderPath, '/'));
              there.Some? && |there.value| > 0 && there.value[|there.value| - 1] == node
            else if Has(nodes, request.id) then
              forall path | path != [] ::
                At(nodes', path) ==
                  match At(nodes, path)
                  case None => None
                  case Some(n) => Some(if IsRequest(n, request.id) then node else n.(children := Replace(n.children, node)))
            else nodes' == nodes + [node]
  {
    UpsertAccepts(c, nodes, request, folderPath);
    if !Blank(folderPath) {
      InsertedAtPath(c, Remove(nodes, request.id), Split(folderPath, '/'), "", [NodeOf(request)]);
    } else if Has(nodes, request.id) {
      forall path | path != []
        ensures At(Replace(nodes, NodeOf(request)), path) ==
                  match At(nodes, path)
                  case None => None
                  case Some(n) => Some(if IsRequest(n, request.id) then NodeOf(request) else n.(children := Replace(n.children, NodeOf(request))))
      {
        ReplacedInPlace(nodes, NodeOf(request), path);
      }
    } else {
      RemoveAbsent(nodes, request.id);
    }
  }

  lemma {:induction false} ReplaceLength(nodes: seq<Node>, request: Node)
    ensures |Replace(nodes, request)| == |nodes|
  {
    if nodes != [] {
      ReplaceLength(nodes[1..], request);
    }
  }

  // ----- doing it twice, and undoing it

  lemma {:induction false} ReplaceAbsent(nodes: seq<Node>, request: Node)
    requires !Has(nodes, request.id)
    ensures Replace(nodes, request) == nodes
    decreases nodes
  {
    if nodes != [] {
      ReplaceAbsent(nodes[0].children, request);
      ReplaceAbsent(nodes[1..], request);
    }
  }

  lemma {:induction false} ReplaceTwice(nodes: seq<Node>, request: Node)
    requires request.kind == "request"
    ensures Replace(Replace(nodes, request), request) == Replace(nodes, request)
    ensures Has(nodes, request.id) ==> Has(Replace(nodes, request), request.id)
    decreases nodes
  {
    if nodes != [] {
      ReplaceTwice(nodes[0].children, request);
      ReplaceTwice(nodes[1..], request);
      assert Replace(nodes, request)[1..] == Replace(nodes[1..], request);
    }
  }

  lemma {:induction false} AppendedIsFound(nodes: seq<Node>, request: Node)
    requires request.kind == "request" && !Has(nodes, request.id)
    ensures Has(nodes + [request], request.id)
    ensures Replace(nodes + [request], request) == nodes + [request]
    ensures Remove(nodes + [request], request.id) == nodes
  {
    if nodes == [] {
      assert nodes + [request] == [request];
    } else {
      AppendedIsFound(nodes[1..], request);
      ReplaceAbsent(nodes[0].children, request);
      RemoveAbsent(nodes[0].children, request.id);
      assert (nodes + [request])[1..] == nodes[1..] + [request];
    }
  }

  lemma {:induction false} RemovedIsGone(nodes: seq<Node>, id: string)
    ensures !Has(Remove(nodes, id), id)
    decreases nodes
  {
    if nodes != [] {
      RemovedIsGone(nodes[0].children, id);
      RemovedIsGone(nodes[1..], id);
      if IsRequest(nodes[0], id) {
        assert Remove(nodes, id) == Remove(nodes[1..], id);
      } else {
        assert Remove(nodes, id)[1..] == Remove(nodes[1..], id);
      }
    }
  }

  /** Removing an inserted request leaves only the folders its insertion created. */
  lemma {:induction false} RemoveInserted(c: Codec, nodes: seq<Node>, parts: seq<string>, prefix: string, request: Node)
    requires parts != [] && request.kind == "request" && !Has(nodes, request.id)
    ensures Remove(Insert(c, nodes, parts, prefix, [request]), request.id) == Insert(c, nodes, parts, prefix, [])
    decreases |parts|, |nodes|
  {
    var name := Trim(parts[0]);
    var path := FullPath(prefix, name);
    if nodes == [] || IsFolder(nodes[0], name) {
      var children, rest := if nodes == [] then [] else nodes[0].children, if nodes == [] then [] else nodes[1..];
      if |parts| == 1 {
        AppendedIsFound(children, request);
        assert children + [] == children;
      } else {
        RemoveInserted(c, children, parts[1..], path, request);
      }
      assert Insert(c, nodes, parts, prefix, [request])[1..] == rest;
      RemoveAbsent(rest, request.id);
    } else {
      RemoveInserted(c, nodes[1..], parts, prefix, request);
      RemoveAbsent(nodes[0].children, request.id);
      assert Insert(c, nodes, parts, prefix, [request])[1..] == Insert(c, nodes[1..], parts, prefix, [request]);
    }
  }

  lemma {:induction false} InsertPrepared(c: Codec, nodes: seq<Node>, parts: seq<string>, prefix: string, added: seq<Node>)
    requires parts != []
    ensures Insert(c, Insert(c, nodes, parts, prefix, []), parts, prefix, added) == Insert(c, nodes, parts, prefix, added)
    ensures Lookup(nodes, parts).Some? ==> Insert(c, nodes, parts, prefix, []) == nodes
    decreases |parts|, |nodes|
  {
    var name := Trim(parts[0]);
    var path := FullPath(prefix, name);
    var prepared := Insert(c, nodes, parts, prefix, []);
    if nodes == [] || IsFolder(nodes[0], name) {
      var children := if nodes == [] then [] else nodes[0].children;
      if |parts| == 1 {
        assert children + [] == children;
      } else {
        InsertPrepared(c, children, parts[1..], path, added);
      }
      assert prepared[1..] == if nodes == [] then [] else nodes[1..];
    } else {
      InsertPrepared(c, nodes[1..], parts, prefix, added);
      assert prepared[1..] == Insert(c, nodes[1..], parts, prefix, []);
    }
  }

  lemma PutTwice(c: Codec, nodes: seq<Node>, request: Node, folderPath: string)
    requires request.kind == "request"
    ensures var once := Put(c, nodes, request, folderPath); Put(c, once, request, folderPath) == once
  {
    var id := request.id;
    if !Blank(folderPath) {
      var parts := Split(folderPath, '/');
      RemovedIsGone(nodes, id);
      RemoveInserted(c, Remove(nodes, id), parts, "", request);
      InsertPrepared(c, Remove(nodes, id), parts, "", [request]);
    } else if Has(nodes, id) {
      ReplaceTwice(nodes, request);
    } else {
      RemoveAbsent(nodes, id);
      AppendedIsFound(nodes, request);
    }
  }

  /** Upserting the same request twice is upserting it once. */
  lemma UpsertTwice(c: Codec, nodes: seq<Node>, request: Request, folderPath: string)
    requires Tidy(c, nodes) && Upsert(c, nodes, request, folderPath).Saved?
    ensures Upsert(c, Upsert(c, nodes, request, folderPath).children, request, folderPath) == Upsert(c, nodes, request, folderPath)
  {
    var node, nodes' := NodeOf(request), Upsert(c, nodes, request, folderPath).children;
    UpsertAccepts(c, nodes, request, folderPath);
    UpsertAccepts(c, nodes', request, folderPath);
    PutEdits(c, nodes, node, folderPath, false);
    EditedElements(Requests(nodes, false), Requests(nodes', false), node);
    PutTwice(c, nodes, node, folderPath);
  }

  lemma {:induction false} RemoveReplaced(nodes: seq<Node>, request: Node)
    requires request.kind == "request"
    ensures Remove(Replace(nodes, request), request.id) == Remove(nodes, request.id)
    decreases nodes
  {
    if nodes != [] {
      RemoveReplaced(nodes[0].children, request);
      RemoveReplaced(nodes[1..], request);
      assert Replace(nodes, request)[1..] == Replace(nodes[1..], request);
    }
  }

  /** All of a tree but the request with this id, with the folders an upsert of it creates. */
  function Remainder(c: Codec, nodes: seq<Node>, id: string, folderPath: string): seq<Node> {
    if Blank(folderPath) then Remove(nodes, id) else Insert(c, Remove(nodes, id), Split(folderPath, '/'), "", [])
  }

  /** Whether the id was there or not, an upsert changes nothing but its request and the folders it
      has to create: deleting the request afterwards leaves what deleting it before would have left. */
  lemma RemoveAfterPut(c: Codec, nodes: seq<Node>, request: Node, folderPath: string)
    requires request.kind == "request"
    ensures Remove(Put(c, nodes, request, folderPath), request.id) == Remainder(c, nodes, request.id, folderPath)
  {
    RemovedIsGone(nodes, request.id);
    if !Blank(folderPath) {
      RemoveInserted(c, Remove(nodes, request.id), Split(folderPath, '/'), "", request);
    } else if Has(nodes, request.id) {
      RemoveReplaced(nodes, request);
    } else {
      AppendedIsFound(Remove(nodes, request.id), request);
    }
  }

  /** Deleting a request that an upsert added gives the old tree back, up to the folders the upsert
      had to create. */
  lemma RemoveUndoesPut(c: Codec, nodes: seq<Node>, request: Node, folderPath: string)
    requires request.kind == "request" && !Has(nodes, request.id)
    ensures Remove(Put(c, nodes, request, folderPath), request.id)
            == (if Blank(folderPath) then nodes else Insert(c, nodes, Split(folderPath, '/'), "", []))
    ensures !Blank(folderPath) && Lookup(nodes, Split(folderPath, '/')).Some? ==>
              Remove(Put(c, nodes, request, folderPath), request.id) == nodes
  {
    RemoveAfterPut(c, nodes, request, folderPath);
    RemoveAbsent(nodes, request.id);
    if !Blank(folderPath) {
      InsertPrepared(c, nodes, Split(folderPath, '/'), "", []);
    }
  }
}
