/** The activity manager: which workspaces are active, idle or suspended, from the reports of
    windows and the release of their resources. Go maps yield their keys in an arbitrary order;
    the loops below pick keys arbitrarily and are proved to give the answer of the specification. */
module ActivityManager {
  import opened Text

  /** Activity states; `Other` is any other text a renderer may send. */
  datatype State = Active | Background | Idle | Suspended | Other(text: string)

  datatype Resource = Resource(kind: string, restorable: bool, userInitiated: bool)

  datatype WindowReport = WindowReport(state: State, scopes: seq<string>)

  datatype Tracked = Tracked(scope: string, released: bool)

  datatype Snapshot = Snapshot(state: State, scopes: map<string, State>)

  datatype Answer = Reported(snapshot: Snapshot) | InvalidReport | InvalidScope | TooManyReporters

  const MAX_WINDOWS := 128
  const MAX_SCOPE := 256

  type Windows = map<string, WindowReport>
  type Resources = map<string, Tracked>

  // ----- the specification

  predicate Covers(w: WindowReport, scope: string) { scope == "" || scope in w.scopes }

  ghost predicate SomeWindow(windows: Windows, scope: string, state: State) {
    exists id <- windows :: Covers(windows[id], scope) && windows[id].state == state
  }

  predicate Concerns(t: Tracked, scope: string) { scope == "" || t.scope == scope }

  ghost predicate SomeResource(resources: Resources, scope: string) {
    exists id <- resources :: Concerns(resources[id], scope)
  }

  ghost predicate AllReleased(resources: Resources, scope: string) {
    forall id <- resources :: Concerns(resources[id], scope) ==> resources[id].released
  }

  ghost function BaseState(windows: Windows, scope: string): State {
    if SomeWindow(windows, scope, Active) then Active else if SomeWindow(windows, scope, Idle) then Idle else Background
  }

  /** Active if a window on the scope is; else Suspended if it has resources and all are released;
      else what the windows say. */
  ghost function StateOf(windows: Windows, resources: Resources, scope: string): State {
    if SomeWindow(windows, scope, Active) then Active
    else if SomeResource(resources, scope) && AllReleased(resources, scope) then Suspended
    else BaseState(windows, scope)
  }

  ghost predicate IsKnown(windows: Windows, resources: Resources, scope: string) {
    (exists id <- windows :: scope in windows[id].scopes) || (exists id <- resources :: resources[id].scope == scope)
  }

  ghost predicate IsSnapshot(s: Snapshot, windows: Windows, resources: Resources) {
    && s.state == StateOf(windows, resources, "")
    && (forall scope :: scope in s.scopes <==> IsKnown(windows, resources, scope))
    && (forall scope <- s.scopes :: s.scopes[scope] == StateOf(windows, resources, scope))
  }

  predicate MayRelease(r: Resource) {
    r.kind == "language-server" && r.restorable && !r.userInitiated
  }

  function Alive(windows: Windows, alive: string -> bool): Windows {
    map id | id in windows && alive(id) :: windows[id]
  }

  ghost predicate ValidReport(window: string, state: State, scopes: seq<string>) {
    window != "" && ByteLength(window) <= 128 && |scopes| <= 128 && (state.Active? || state.Background? || state.Idle?)
  }

  ghost predicate ValidScopes(scopes: seq<string>) {
    forall s <- scopes :: s != "" && ByteLength(s) <= MAX_SCOPE
  }

  // ----- the program

  class Manager {
    var windows: Windows
    var resources: Resources
    var listeners: set<nat>
    var nextListener: nat

    /** Holds in every reachable state. */
    ghost predicate Valid()
      reads this
    {
      && |windows| <= MAX_WINDOWS
      && (forall id <- windows :: ValidReport(id, windows[id].state, windows[id].scopes) && ValidScopes(windows[id].scopes))
      && (forall l <- listeners :: 1 <= l <= nextListener)
    }

    constructor ()
      ensures Valid() && windows == map[] && resources == map[] && listeners == {}
    {
      windows, resources, listeners, nextListener := map[], map[], {}, 0;
    }

    /** `alive` is what the desktop says about windows at the moment of the call. */
    method PruneLocked(alive: string -> bool)
      requires Valid()
      modifies this`windows
      ensures Valid() && windows == Alive(old(windows), alive)
    {
      var ids := windows.Keys;
      while ids != {}
        invariant ids <= old(windows).Keys && Valid()
        invariant forall id :: id in windows <==> id in old(windows) && (id in ids || alive(id))
        invariant forall id <- windows :: windows[id] == old(windows)[id]
        decreases ids
      {
        var id :| id in ids;
        ids := ids - {id};
        if !alive(id) {
          ghost var before := windows;
          windows := windows - {id};
          assert windows.Keys == before.Keys - {id};
        }
      }
      assert windows == Alive(old(windows), alive);
    }

    method BaseStateLocked(scope: string) returns (state: State)
      ensures state == BaseState(windows, scope)
    {
      state := Background;
      var ids := windows.Keys;
      while ids != {}
        invariant ids <= windows.Keys
        invariant forall id <- windows :: id !in ids ==> !(Covers(windows[id], scope) && windows[id].state == Active)
        invariant state == if exists id <- windows :: id !in ids && Covers(windows[id], scope) && windows[id].state == Idle then Idle else Background
        decreases ids
      {
        var id :| id in ids;
        ids := ids - {id};
        var window := windows[id];
        if scope != "" && scope !in window.scopes {
          continue;
        }
        if window.state == Active {
          return Active;
        }
        if window.state == Idle {
          state := Idle;
        }
      }
    }

    method StateLocked(scope: string) returns (state: State)
      ensures state == StateOf(windows, resources, scope)
    {
      state := BaseStateLocked(scope);
      if state == Active {
        return;
      }
      var count := 0;
      var ids := resources.Keys;
      while ids != {}
        invariant ids <= resources.Keys && count >= 0
        invariant forall id <- resources :: id !in ids && Concerns(resources[id], scope) ==> resources[id].released
        invariant count > 0 <==> exists id <- resources :: id !in ids && Concerns(resources[id], scope)
        decreases ids
      {
        var id :| id in ids;
        ids := ids - {id};
        var resource := resources[id];
        if scope != "" && resource.scope != scope {
          continue;
        }
        if !resource.released {
          return;
        }
        count := count + 1;
      }
      if count > 0 {
        state := Suspended;
      }
    }

    method GetState(scope: string, alive: string -> bool) returns (state: State)
      requires Valid()
      modifies this`windows
      ensures Valid() && windows == Alive(old(windows), alive) && state == StateOf(windows, resources, scope)
    {
      PruneLocked(alive);
      state := StateLocked(scope);
    }

    /** A resource may be suspended only if its kind allows it and no window on the scope is active. */
    method CanSuspend(scope: string, resource: Resource, ready: bool, alive: string -> bool) returns (may: bool)
      requires Valid()
      modifies this`windows
      ensures Valid() && windows == if ready && MayRelease(resource) then Alive(old(windows), alive) else old(windows)
      ensures may <==> ready && MayRelease(resource) && !SomeWindow(Alive(old(windows), alive), scope, Active)
    {
      if !ready || !MayRelease(resource) {
        return false;
      }
      var state := GetState(scope, alive);
      may := state != Active;
    }

    method SnapshotLocked(alive: string -> bool) returns (snapshot: Snapshot)
      requires Valid()
      modifies this`windows
      ensures Valid() && windows == Alive(old(windows), alive) && IsSnapshot(snapshot, windows, resources)
    {
      PruneLocked(alive);
      var known := KnownScopes();
      var scopes: map<string, State> := map[];
      var rest := known;
      while rest != {}
        invariant Valid() && windows == Alive(old(windows), alive) && resources == old(resources)
        invariant rest <= known && scopes.Keys == known - rest
        invariant forall scope <- scopes :: scopes[scope] == StateOf(windows, resources, scope)
        decreases rest
      {
        var scope :| scope in rest;
        var state := StateLocked(scope);
        scopes := scopes[scope := state];
        rest := rest - {scope};
      }
      var global := StateLocked("");
      snapshot := Snapshot(global, scopes);
    }

    method KnownScopes() returns (known: set<string>)
      ensures forall scope :: scope in known <==> IsKnown(windows, resources, scope)
    {
      known := {};
      var ids := windows.Keys;
      while ids != {}
        invariant ids <= windows.Keys
        invariant forall scope :: scope in known <==> exists id <- windows :: id !in ids && scope in windows[id].scopes
        decreases ids
      {
        var id :| id in ids;
        ids := ids - {id};
        known := known + set s | s in windows[id].scopes;
      }
      ids := resources.Keys;
      while ids != {}
        invariant ids <= resources.Keys
        invariant forall scope :: scope in known <==>
          (exists id <- windows :: scope in windows[id].scopes) || (exists id <- resources :: id !in ids && resources[id].scope == scope)
        decreases ids
      {
        var id :| id in ids;
        ids := ids - {id};
        known := known + {resources[id].scope};
      }
    }

    /** A refused report changes no window, except that a full table has been pruned. Listeners are
        notified in either case. */
    method Report(window: string, state: State, scopes: seq<string>, alive: string -> bool) returns (answer: Answer, notified: seq<nat>)
      requires Valid()
      modifies this`windows
      ensures Valid() && Notifies(notified)
      ensures answer.Reported? <==>
                ValidReport(window, state, scopes) && ValidScopes(scopes)
                && (window in Alive(old(windows), alive) || |Alive(old(windows), alive)| < MAX_WINDOWS)
      ensures answer.Reported? ==>
                windows == Alive(Alive(old(windows), alive)[window := WindowReport(state, scopes)], alive)
                && IsSnapshot(answer.snapshot, windows, resources)
      ensures !answer.Reported? ==> windows == if answer.TooManyReporters? then Alive(old(windows), alive) else old(windows)
    {
      if window == "" || ByteLength(window) > 128 || |scopes| > 128 || !(state == Active || state == Background || state == Idle) {
        notified := Notify();
        return InvalidReport, notified;
      }
      var ok := CheckScopes(scopes);
      if !ok {
        notified := Notify();
        return InvalidScope, notified;
      }
      PruneLocked(alive);
      if window !in windows && |windows| >= MAX_WINDOWS {
        notified := Notify();
        return TooManyReporters, notified;
      }
      windows := windows[window := WindowReport(state, scopes)];
      var snapshot := SnapshotLocked(alive);
      notified := Notify();
      answer := Reported(snapshot);
    }

    method CheckScopes(scopes: seq<string>) returns (ok: bool)
      ensures ok <==> ValidScopes(scopes)
    {
      for i := 0 to |scopes|
        invariant forall k :: 0 <= k < i ==> scopes[k] != "" && ByteLength(scopes[k]) <= MAX_SCOPE
      {
        if scopes[i] == "" || ByteLength(scopes[i]) > MAX_SCOPE {
          assert scopes[i] in scopes;
          return false;
        }
      }
      ok := true;
    }

    method RemoveWindow(window: string) returns (notified: seq<nat>)
      requires Valid()
      modifies this`windows
      ensures Valid() && windows == old(windows) - {window} && Notifies(notified)
    {
      ghost var before := windows;
      windows := windows - {window};
      assert windows.Keys == before.Keys - {window};
      notified := Notify();
    }

    method Track(id: string, scope: string)
      requires Valid()
      modifies this`resources
      ensures Valid() && resources == old(resources)[id := Tracked(scope, false)]
    {
      resources := resources[id := Tracked(scope, false)];
    }

    method Released(id: string)
      requires Valid()
      modifies this`resources
      ensures Valid()
      ensures resources == if id in old(resources) then old(resources)[id := old(resources)[id].(released := true)] else old(resources)
    {
      if id in resources {
        resources := resources[id := resources[id].(released := true)];
      }
    }

    method Forget(id: string)
      requires Valid()
      modifies this`resources
      ensures Valid() && resources == old(resources) - {id}
    {
      resources := resources - {id};
    }

    /** Each subscription gets an id of its own, never one used before. */
    method Subscribe() returns (id: nat)
      requires Valid()
      modifies this`listeners, this`nextListener
      ensures Valid() && id == nextListener > old(nextListener)
      ensures id !in old(listeners) && listeners == old(listeners) + {id}
    {
      nextListener := nextListener + 1;
      id := nextListener;
      listeners := listeners + {id};
    }

    /** What Subscribe hands back; calling it again does nothing. */
    method Unsubscribe(id: nat)
      requires Valid()
      modifies this`listeners
      ensures Valid() && listeners == old(listeners) - {id}
    {
      listeners := listeners - {id};
    }

    /** Every subscribed listener is called exactly once. */
    ghost predicate Notifies(called: seq<nat>)
      reads this
    {
      (forall l :: l in called <==> l in listeners) && forall i, j :: 0 <= i < j < |called| ==> called[i] != called[j]
    }

    method Notify() returns (called: seq<nat>)
      ensures Notifies(called)
    {
      called := [];
      var rest := listeners;
      while rest != {}
        invariant rest <= listeners
        invariant forall l :: l in called <==> l in listeners && l !in rest
        invariant forall i, j :: 0 <= i < j < |called| ==> called[i] != called[j]
        decreases rest
      {
        var l :| l in rest;
        called, rest := called + [l], rest - {l};
      }
    }
  }

  // ----- laws of the answers

  /** A suspended whole means that every workspace with a resource is suspended. */
  lemma GlobalSuspension(windows: Windows, resources: Resources)
    requires StateOf(windows, resources, "") == Suspended
    ensures forall id <- resources :: StateOf(windows, resources, resources[id].scope) == Suspended
  {
    forall id <- resources
      ensures StateOf(windows, resources, resources[id].scope) == Suspended
    {
      var scope := resources[id].scope;
      assert Concerns(resources[id], scope);
      forall w <- windows
        ensures !(Covers(windows[w], scope) && windows[w].state == Active)
      {
        assert Covers(windows[w], "");
      }
      forall r <- resources
        ensures resources[r].released
      {
        assert Concerns(resources[r], "");
      }
    }
  }

  /** The other direction holds when no window is active elsewhere and something is tracked. */
  lemma GlobalSuspensionIff(windows: Windows, resources: Resources)
    ensures StateOf(windows, resources, "") == Suspended <==>
              && resources != map[] && !SomeWindow(windows, "", Active)
              && forall id <- resources :: StateOf(windows, resources, resources[id].scope) == Suspended
  {
    if resources != map[] {
      var id :| id in resources;
      assert Concerns(resources[id], "");
    }
    if StateOf(windows, resources, "") == Suspended {
      GlobalSuspension(windows, resources);
    }
  }

  /** Tracking a resource again takes its workspace out of suspension; releasing it never wakes one up. */
  lemma TrackingResumes(windows: Windows, resources: Resources, id: string, scope: string, other: string)
    ensures StateOf(windows, resources[id := Tracked(scope, false)], scope) != Suspended
    ensures id in resources && StateOf(windows, resources, other) == Suspended ==>
              StateOf(windows, resources[id := resources[id].(released := true)], other) == Suspended
  {
    var tracked := resources[id := Tracked(scope, false)];
    assert id in tracked && Concerns(tracked[id], scope) && !tracked[id].released;
    if SomeWindow(windows, scope, Active) {
    } else {
      assert !AllReleased(tracked, scope);
    }
    if id in resources && StateOf(windows, resources, other) == Suspended {
      var released := resources[id := resources[id].(released := true)];
      var r :| r in resources && Concerns(resources[r], other);
      assert r in released && Concerns(released[r], other);
    }
  }

  /** An active window wins over everything else on the scopes it covers. */
  lemma ActiveWindowWins(windows: Windows, resources: Resources, window: string, scopes: seq<string>, scope: string)
    requires scope in scopes || scope == ""
    ensures StateOf(windows[window := WindowReport(Active, scopes)], resources, scope) == Active
  {
    var w := windows[window := WindowReport(Active, scopes)];
    assert window in w && Covers(w[window], scope) && w[window].state == Active;
  }
}
