/** The tree editor as the program runs it, on slices that can share memory. A `Block` is the
    array behind one slice of nodes. The loops build fresh blocks or write into them in place;
    each is proved to compute its function of CollectionTree without touching the caller's tree. */
module CollectionHeap {
  import opened Wrappers
  import opened Text
  import opened Sequences
  import opened CollectionTree
  import opened CollectionSync

  /** A node as it lies in memory: its children are a block, or null for an empty slice. */
  datatype Item = Item(id: string, name: string, kind: string, settings: string, children: Block?, raw: Option<Request>)

  ghost predicate Shows(item: Item, n: Node)
    reads item.children
  {
    && item.id == n.id && item.name == n.name && item.kind == n.kind && item.settings == n.settings && item.raw == n.raw
    && n.children == if item.children == null then [] else item.children.view
  }

  class Block {
    var items: seq<Item>
    ghost var view: seq<Node>     // the tree these items stand for
    ghost var repr: set<Block>    // the blocks of that tree

    /** The items show `view`, and no block is reached twice. */
    ghost predicate Valid()
      reads this, repr
      decreases repr, 1
      ensures Valid() ==> this in repr
    {
      ValidExcept(-1)
    }

    /** The same, leaving out the item at `k`. */
    ghost predicate ValidExcept(k: int)
      reads this, repr
      decreases repr, 0
      ensures ValidExcept(k) ==> this in repr
    {
      && this in repr && |view| == |items|
      && (forall i :: 0 <= i < |items| && i != k ==>
            && (items[i].children != null ==>
                  && items[i].children in repr && items[i].children.repr <= repr && this !in items[i].children.repr
                  && items[i].children.Valid())
            && Shows(items[i], view[i]))
      && (forall i, j :: 0 <= i < j < |items| && i != k && j != k && items[i].children != null && items[j].children != null ==>
            items[i].children.repr !! items[j].children.repr)
    }

    constructor ()
      ensures Valid() && view == [] && fresh(repr)
    {
      items, view, repr := [], [], {this};
    }

    /** `append(nodes, item)`. */
    method Append(item: Item, ghost n: Node)
      requires Valid()
      requires item.children != null ==> item.children.Valid() && item.children.repr !! repr
      requires Shows(item, n)
      modifies this
      ensures Valid() && view == old(view) + [n]
      ensures repr == old(repr) + if item.children == null then {} else item.children.repr
    {
      var count := |items|;
      items := items + [item];
      view := view + [n];
      if item.children != null {
        repr := repr + item.children.repr;
      }
      assert forall i :: 0 <= i < count ==> items[i] == old(items)[i] && view[i] == old(view)[i];
      assert forall i :: 0 <= i < count && items[i].children != null ==> items[i].children.Valid() && this !in items[i].children.repr;
      assert item.children != null ==> item.children.Valid();
    }

    /** `nodes[k].Children = children`. */
    method SetChildren(k: nat, children: Block)
      requires k < |items| && ValidExcept(k) && Shows(items[k].(children := null), view[k].(children := []))
      requires children.Valid() && this !in children.repr
      requires forall i :: 0 <= i < |items| && i != k && items[i].children != null ==> items[i].children.repr !! children.repr
      modifies this
      ensures Valid() && view == old(view)[k := old(view[k]).(children := children.view)]
      ensures repr == old(repr) + children.repr
    {
      items := items[k := items[k].(children := children)];
      view := view[k := view[k].(children := children.view)];
      repr := repr + children.repr;
    }
  }

  ghost function ViewOf(list: Block?): seq<Node>
    reads list
  {
    if list == null then [] else list.view
  }

  ghost function ReprOf(list: Block?): set<Block>
    reads list
  {
    if list == null then {} else list.repr
  }

  lemma RemoveStep(tree: seq<Node>, i: nat, id: string, kept: seq<Node>)
    requires i < |tree|
    ensures kept + Remove(tree[i..], id)
            == (if IsRequest(tree[i], id) then kept else kept + [tree[i].(children := Remove(tree[i].children, id))])
               + Remove(tree[i + 1..], id)
  {
    assert tree[i..][1..] == tree[i + 1..];
  }

  lemma RemoveGeneratedStep(tree: seq<Node>, i: nat, kept: seq<Node>)
    requires i < |tree|
    ensures kept + RemoveGenerated(tree[i..])
            == (if IsGenerated(tree[i]) then kept else kept + [tree[i].(children := RemoveGenerated(tree[i].children))])
               + RemoveGenerated(tree[i + 1..])
  {
    assert tree[i..][1..] == tree[i + 1..];
  }

  lemma ReplaceStep(tree: seq<Node>, i: nat, node: Node, kept: seq<Node>)
    requires i < |tree|
    ensures kept + Replace(tree[i..], node)
            == kept + [if IsRequest(tree[i], node.id) then node else tree[i].(children := Replace(tree[i].children, node))]
               + Replace(tree[i + 1..], node)
  {
    assert tree[i..][1..] == tree[i + 1..];
  }

  lemma HasStep(tree: seq<Node>, i: nat, id: string)
    requires i < |tree|
    ensures Has(tree[i..], id) <==> IsRequest(tree[i], id) || Has(tree[i].children, id) || Has(tree[i + 1..], id)
  {
    assert tree[i..][1..] == tree[i + 1..];
  }

  function Prepended(out: seq<Request>, rest: Option<seq<Request>>): Option<seq<Request>> {
    if rest.None? then None else Some(out + rest.value)
  }

  lemma ResolveStep(tree: seq<Node>, i: nat, out: seq<Request>)
    requires i < |tree|
    ensures var n := tree[i];
            Prepended(out, Resolve(tree[i..]))
            == match n.kind
               case "folder" =>
                 if Resolve(n.children).None? then None else Prepended(out + Resolve(n.children).value, Resolve(tree[i + 1..]))
               case "request" =>
                 if n.raw.None? then None else Prepended(out + [n.raw.value], Resolve(tree[i + 1..]))
               case _ => Prepended(out, Resolve(tree[i + 1..]))
  {
    assert tree[i..][1..] == tree[i + 1..];
    var rest := Resolve(tree[i + 1..]);
    if rest.Some? {
      assert out + ([] + rest.value) == out + rest.value;
      if tree[i].raw.Some? {
        ConcatAssociative(out, [tree[i].raw.value], rest.value);
      }
      if Resolve(tree[i].children).Some? {
        ConcatAssociative(out, Resolve(tree[i].children).value, rest.value);
      }
    }
  }

  lemma InsertStep(c: Codec, tree: seq<Node>, i: nat, parts: seq<string>, prefix: string, added: seq<Node>)
    requires parts != [] && i <= |tree|
    ensures var name, path := Trim(parts[0]), FullPath(prefix, Trim(parts[0]));
            tree[..i] + Insert(c, tree[i..], parts, prefix, added)
            == if i == |tree| then tree + [NewFolder(c, path, name, InsertBelow(c, [], parts, path, added))]
               else if IsFolder(tree[i], name) then
                 tree[i := tree[i].(children := InsertBelow(c, tree[i].children, parts, path, added))]
               else tree[..i + 1] + Insert(c, tree[i + 1..], parts, prefix, added)
  {
    if i < |tree| {
      assert tree[i..][1..] == tree[i + 1..];
      assert tree[..i + 1] == tree[..i] + [tree[i]];
    } else {
      assert tree[..i] == tree && tree[i..] == [];
    }
  }

  method RemoveMCPRequest(list: Block?, id: string) returns (out: Block, found: bool)
    requires list != null ==> list.Valid()
    ensures fresh(out.repr) && out.Valid()
    ensures out.view == Remove(ViewOf(list), id) && found == Has(ViewOf(list), id)
    decreases ReprOf(list)
  {
    out := new Block();
    found := false;
    if list == null {
      return;
    }
    ghost var tree := list.view;
    for i := 0 to |list.items|
      invariant fresh(out.repr) && out.Valid()
      invariant out.view + Remove(tree[i..], id) == Remove(tree, id)
      invariant found || Has(tree[i..], id) == Has(tree, id)
      invariant found ==> Has(tree, id)
    {
      var node := list.items[i];
      RemoveStep(tree, i, id, out.view);
      HasStep(tree, i, id);
      if node.kind == "request" && node.id == id {
        found := true;
        continue;
      }
      var children, childFound := RemoveMCPRequest(node.children, id);
      out.Append(node.(children := children), tree[i].(children := children.view));
      found := found || childFound;
    }
  }

  method RemoveGeneratedRequests(list: Block?) returns (out: Block)
    requires list != null ==> list.Valid()
    ensures fresh(out.repr) && out.Valid() && out.view == RemoveGenerated(ViewOf(list))
    decreases ReprOf(list)
  {
    out := new Block();
    if list == null {
      return;
    }
    ghost var tree := list.view;
    for i := 0 to |list.items|
      invariant fresh(out.repr) && out.Valid()
      invariant out.view + RemoveGenerated(tree[i..]) == RemoveGenerated(tree)
    {
      var node := list.items[i];
      RemoveGeneratedStep(tree, i, out.view);
      if node.kind == "request" && HasPrefix(node.id, GENERATED) {
        continue;
      }
      var children := RemoveGeneratedRequests(node.children);
      out.Append(node.(children := children), tree[i].(children := children.view));
    }
  }

  method ReplaceMCPRequest(list: Block?, request: Item, ghost node: Node) returns (out: Block, found: bool)
    requires list != null ==> list.Valid()
    requires request.children == null && Shows(request, node)
    ensures fresh(out.repr) && out.Valid()
    ensures out.view == Replace(ViewOf(list), node) && found == Has(ViewOf(list), node.id)
    decreases ReprOf(list)
  {
    out := new Block();
    found := false;
    if list == null {
      return;
    }
    ghost var tree := list.view;
    for i := 0 to |list.items|
      invariant fresh(out.repr) && out.Valid()
      invariant out.view + Replace(tree[i..], node) == Replace(tree, node)
      invariant found || Has(tree[i..], node.id) == Has(tree, node.id)
      invariant found ==> Has(tree, node.id)
    {
      var item := list.items[i];
      ReplaceStep(tree, i, node, out.view);
      HasStep(tree, i, node.id);
      if item.kind == "request" && item.id == request.id {
        out.Append(request, node);
        found := true;
        continue;
      }
      var children, childFound := ReplaceMCPRequest(item.children, request, node);
      out.Append(item.(children := children), tree[i].(children := children.view));
      found := found || childFound;
    }
  }

  method ResolveRequests(list: Block?) returns (resolved: Option<seq<Request>>)
    requires list != null ==> list.Valid()
    ensures resolved == Resolve(ViewOf(list))
    decreases ReprOf(list)
  {
    if list == null {
      return Some([]);
    }
    ghost var tree := list.view;
    var out: seq<Request> := [];
    assert Resolve(tree).Some? ==> [] + Resolve(tree).value == Resolve(tree).value;
    for i := 0 to |list.items|
      invariant Prepended(out, Resolve(tree[i..])) == Resolve(tree)
    {
      var node := list.items[i];
      ResolveStep(tree, i, out);
      if node.kind == "folder" {
        var children := ResolveRequests(node.children);
        if children.None? {
          return None;
        }
        out := out + children.value;
      } else if node.kind == "request" {
        if node.raw.None? {
          return None;
        }
        out := out + [node.raw.value];
      }
    }
    assert out + [] == out;
    resolved := Some(out);
  }

  /** Writes into `list` and the blocks below it. Fresh blocks are added where a folder is missing. */
  method InsertMCPRequestAtFolder(c: Codec, list: Block, parts: seq<string>, prefix: string, request: Item, ghost node: Node)
    requires list.Valid() && parts != []
    requires request.children == null && Shows(request, node)
    modifies list.repr
    ensures list.Valid() && fresh(list.repr - old(list.repr))
    ensures list.view == Insert(c, old(list.view), parts, prefix, [node])
    decreases |parts|, 2
  {
    var name := Trim(parts[0]);
    var fullPath := FullPath(prefix, name);
    var index := FindFolder(c, list, parts, prefix, node);
    ghost var tree := list.view;
    InsertStep(c, tree, index, parts, prefix, [node]);
    if index < |list.items| {
      InsertInFolder(c, list, index, parts, fullPath, request, node);
    } else {
      var children := new Block();
      InsertBelowFolder(c, children, parts, fullPath, request, node);
      list.Append(Item("folder-" + c.hash(fullPath), name, "folder", "", children, None), NewFolder(c, fullPath, name, children.view));
    }
  }

  /** The branch for an existing folder: its children are extended and written back in place. */
  method InsertInFolder(c: Codec, list: Block, index: nat, parts: seq<string>, fullPath: string, request: Item, ghost node: Node)
    requires list.Valid() && parts != [] && index < |list.items|
    requires request.children == null && Shows(request, node)
    modifies list.repr
    ensures list.Valid() && fresh(list.repr - old(list.repr))
    ensures index < |old(list.view)|
    ensures list.view == old(list.view)[index := old(list.view)[index].(children :=
                           InsertBelow(c, old(list.view)[index].children, parts, fullPath, [node]))]
    decreases |parts|, 1
  {
    var children := list.items[index].children;
    if children == null {
      children := new Block();
    }
    InsertBelowFolder(c, children, parts, fullPath, request, node);
    list.SetChildren(index, children);
  }

  method FindFolder(c: Codec, list: Block, parts: seq<string>, prefix: string, ghost node: Node) returns (index: nat)
    requires list.Valid() && parts != []
    ensures index <= |list.view| == |list.items|
    ensures index < |list.items| ==> IsFolder(list.view[index], Trim(parts[0]))
    ensures Insert(c, list.view, parts, prefix, [node]) == list.view[..index] + Insert(c, list.view[index..], parts, prefix, [node])
  {
    ghost var tree := list.view;
    for i := 0 to |list.items|
      invariant Insert(c, tree, parts, prefix, [node]) == tree[..i] + Insert(c, tree[i..], parts, prefix, [node])
    {
      if list.items[i].kind == "folder" && list.items[i].name == Trim(parts[0]) {
        return i;
      }
      InsertStep(c, tree, i, parts, prefix, [node]);
    }
    index := |list.items|;
  }

  method InsertBelowFolder(c: Codec, children: Block, parts: seq<string>, fullPath: string, request: Item, ghost node: Node)
    requires children.Valid() && parts != []
    requires request.children == null && Shows(request, node)
    modifies children.repr
    ensures children.Valid() && fresh(children.repr - old(children.repr))
    ensures children.view == InsertBelow(c, old(children.view), parts, fullPath, [node])
    decreases |parts|, 0
  {
    if |parts| == 1 {
      children.Append(request, node);
    } else {
      InsertMCPRequestAtFolder(c, children, parts[1..], fullPath, request, node);
    }
  }

  // ----- the collection operations

  class Collection {
    var children: Block?

    ghost predicate Valid()
      reads this, children, ReprOf(children)
    {
      children != null ==> children.Valid()
    }

    constructor (children: Block?)
      requires children != null ==> children.Valid()
      ensures this.children == children && Valid()
    {
      this.children := children;
    }

    /** Changes the `children` field only: the blocks of the old tree, which the caller may still
        hold, keep their contents. A refused upsert changes nothing. */
    method UpsertMCPRequest(c: Codec, request: Request, folderPath: string) returns (failure: Option<Outcome>)
      requires Valid()
      modifies this
      ensures Valid()
      ensures match Upsert(c, old(ViewOf(children)), request, folderPath)
              case Saved(view) => failure == None && children != null && children.view == view && fresh(children.repr)
              case refused => failure == Some(refused) && children == old(children)
    {
      var resolved := ResolveRequests(children);
      if resolved.None? {
        return Some(BadPayload);
      }
      var clash := FindClash(c, request, resolved.value);
      if clash.Some? {
        return Some(Conflict(clash.value));
      }
      var item := Item(request.id, request.name, "request", "", null, Some(request));
      ghost var node := NodeOf(request);
      if Blank(folderPath) {
        var replaced, found := ReplaceMCPRequest(children, item, node);
        if found {
          children := replaced;
          return None;
        }
      }
      var kept, _ := RemoveMCPRequest(children, request.id);
      children := kept;
      if Blank(folderPath) {
        children.Append(item, node);
      } else {
        InsertMCPRequestAtFolder(c, children, Split(folderPath, '/'), "", item, node);
      }
      failure := None;
    }

    /** Deleting an id that is not there changes nothing. */
    method DeleteRequest(given: string) returns (found: bool)
      requires Valid()
      modifies this
      ensures Valid() && found == (Trim(given) != "" && Has(old(ViewOf(children)), Trim(given)))
      ensures if found then children != null && children.view == Remove(old(ViewOf(children)), Trim(given)) && fresh(children.repr)
              else children == old(children)
    {
      var id := Trim(given);
      if id == "" {
        return false;
      }
      var kept;
      kept, found := RemoveMCPRequest(children, id);
      if found {
        children := kept;
      }
    }

    /** One route of the loop below. */
    method AddRoute(rules: Rules, base: string, route: Route) returns (failure: Option<Outcome>)
      requires Valid() && children != null
      modifies this
      ensures Valid()
      ensures match SyncRoute(rules, old(ViewOf(children)), base, route)
              case Saved(view) =>
                failure == None && children != null && children.view == view && (children == old(children) || fresh(children.repr))
              case refused => failure == Some(refused) && children == old(children)
    {
      if !Usable(rules, route) {
        return None;
      }
      var request := RequestFor(rules, base, route);
      if !ValidRequest(rules, request) {
        return Some(Invalid);
      }
      failure := UpsertMCPRequest(rules.codec, request, "");
    }

    method AddRoutes(rules: Rules, base: string, routes: seq<Route>) returns (failure: Option<Outcome>)
      requires Valid() && children != null
      modifies this
      ensures Valid()
      ensures match SyncRoutes(rules, old(ViewOf(children)), base, routes)
              case Saved(view) =>
                failure == None && children != null && children.view == view && (children == old(children) || fresh(children.repr))
              case refused => failure == Some(refused)
    {
      ghost var start := children.view;
      for i := 0 to |routes|
        invariant Valid() && children != null && (children == old(children) || fresh(children.repr))
        invariant SyncRoutes(rules, start, base, routes[..i]) == Saved(children.view)
      {
        assert routes[..i + 1][..i] == routes[..i];
        failure := AddRoute(rules, base, routes[i]);
        if failure.Some? {
          FailureStays(rules, start, base, routes, i + 1);
          return;
        }
      }
      assert routes[..|routes|] == routes;
      failure := None;
    }

    /** Regenerates the collection. It is saved only if every route went in. */
    method CollectionCreateFromCode(rules: Rules, base: string, routes: seq<Route>) returns (failure: Option<Outcome>)
      requires Valid()
      modifies this
      ensures Valid()
      ensures match Sync(rules, old(ViewOf(children)), base, routes)
              case Saved(view) => failure == None && children != null && children.view == view && fresh(children.repr)
              case refused => failure == Some(refused) && children == old(children)
    {
      if |routes| == 0 {
        return Some(NoRoutes);
      }
      ghost var clean := RemoveGenerated(ViewOf(children));
      var start := RemoveGeneratedRequests(children);
      var collection := new Collection(start);
      failure := collection.AddRoutes(rules, base, routes);
      if failure.None? {
        children := collection.children;
      }
    }
  }

  method FindClash(c: Codec, request: Request, resolved: seq<Request>) returns (id: Option<string>)
    ensures id == FirstClash(c, request, resolved)
  {
    for i := 0 to |resolved|
      invariant FirstClash(c, request, resolved[i..]) == FirstClash(c, request, resolved)
    {
      if Clashes(c, request, resolved[i]) {
        return Some(resolved[i].id);
      }
      assert resolved[i..][1..] == resolved[i + 1..];
    }
    id := None;
  }
}
