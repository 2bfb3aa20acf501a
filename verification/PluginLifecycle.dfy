/**
 The lifecycle of plugins under the plugin master: load, enable, enable_all and disable_all.
 The hooks of a plugin are unknown code; a Hooks value decides what each call returns, and it may
 depend on everything that happened before.
 */
module PluginLifecycle {
  import opened Common
  import opened DependencyGraph

  datatype PluginState =
    | Registered | Loaded | Enabled | Running | Degraded | Disabled | Unloaded | Error

  datatype Hook = OnLoad | OnEnable | OnStop | OnDisable

  datatype Outcome = Truthy | Falsy | Raised

  datatype Event =
    | HookCalled(name: string, hook: Hook)
    | StateSet(name: string, from: PluginState, to: PluginState)

  type Hooks = (seq<Event>, string, Hook) -> Outcome

  /** Plugin states, and what was called and emitted so far. */
  datatype World = World(states: map<string, PluginState>, trace: seq<Event>)

  predicate Up(s: PluginState) {
    s.Loaded? || s.Enabled? || s.Running?
  }

  // ----- one plugin

  function CallHook(w: World, n: string, h: Hook): World {
    w.(trace := w.trace + [HookCalled(n, h)])
  }

  function SetState(w: World, n: string, s: PluginState): World
    requires n in w.states
  {
    World(w.states[n := s], w.trace + [StateSet(n, w.states[n], s)])
  }

  function PluginLoad(hooks: Hooks, w: World, n: string): (r: World)
    requires n in w.states
    ensures r.states.Keys == w.states.Keys
  {
    if Up(w.states[n]) then w
    else
      var called := CallHook(w, n, OnLoad);
      match hooks(w.trace, n, OnLoad)
      case Truthy => SetState(called, n, Loaded)
      case Falsy => called
      case Raised => SetState(called, n, Error)
  }

  function PluginEnable(hooks: Hooks, w: World, n: string): (r: World)
    requires n in w.states
    ensures r.states.Keys == w.states.Keys
  {
    if w.states[n].Running? then w
    else
      var loaded := if w.states[n].Registered? then PluginLoad(hooks, w, n) else w;
      if !loaded.states[n].Loaded? then loaded
      else
        var called := CallHook(loaded, n, OnEnable);
        match hooks(loaded.trace, n, OnEnable)
        case Truthy => SetState(called, n, Enabled)
        case Falsy => called
        case Raised => SetState(called, n, Error)
  }

  function PluginStop(hooks: Hooks, w: World, n: string): (r: World)
    requires n in w.states
    ensures r.states.Keys == w.states.Keys
  {
    var called := CallHook(w, n, OnStop);
    if hooks(w.trace, n, OnStop).Raised? then called else SetState(called, n, Enabled)
  }

  function PluginDisable(hooks: Hooks, w: World, n: string): (r: World)
    requires n in w.states
    ensures r.states.Keys == w.states.Keys
  {
    var stopped := if w.states[n].Running? then PluginStop(hooks, w, n) else w;
    var called := CallHook(stopped, n, OnDisable);
    if hooks(stopped.trace, n, OnDisable).Raised? then called else SetState(called, n, Disabled)
  }

  /** A new plugin enters in some state of its own and is then set to registered. */
  lemma EntersRegistered(w: World, n: string, from: PluginState)
    ensures SetState(World(w.states[n := from], w.trace), n, Registered)
            == World(w.states[n := Registered], w.trace + [StateSet(n, from, Registered)])
  {
  }

  function Extended(g: Graph, n: string, depends: seq<string>): Graph {
    Graph(g.names + [n], g.depends[n := depends])
  }

  lemma ExtendedIsWellFormed(g: Graph, n: string, depends: seq<string>)
    requires WellFormed(g) && n !in g.depends
    ensures WellFormed(Extended(g, n, depends))
  {
    assert n !in g.names;
  }

  // ----- the master; a rank that falls along the edges it follows is what makes its recursion end

  ghost predicate Matches(g: Graph, w: World) {
    w.states.Keys == g.depends.Keys
  }

  /** A dependency in one of these states is loaded first. */
  predicate Pending(s: PluginState) {
    s.Registered? || s.Unloaded?
  }

  /** The ranked names lead by their pending dependencies only to ranked names of lower rank. */
  ghost predicate Descends(g: Graph, w: World, rank: map<string, nat>)
    requires Matches(g, w)
  {
    forall n, d {:trigger DependsOn(g, n, d)} ::
      n in rank && DependsOn(g, n, d) && Pending(w.states[d]) ==> d in rank && rank[d] < rank[n]
  }

  ghost function Load(g: Graph, rank: map<string, nat>, hooks: Hooks, w: World, n: string): (r: World)
    requires Matches(g, w) && Descends(g, w, rank) && n in g.depends && n in rank
    ensures Matches(g, r) && Descends(g, r, rank)
    decreases rank[n], 2, 0
  {
    PluginLoad(hooks, LoadDependencies(g, rank, hooks, w, n, |g.depends[n]|), n)
  }

  /** Goes through the first k dependencies of n. */
  ghost function LoadDependencies(g: Graph, rank: map<string, nat>, hooks: Hooks, w: World, n: string, k: nat)
    : (r: World)
    requires Matches(g, w) && Descends(g, w, rank) && n in g.depends && n in rank && k <= |g.depends[n]|
    ensures Matches(g, r) && Descends(g, r, rank)
    decreases rank[n], 1, k
  {
    if k == 0 then w
    else LoadDependency(g, rank, hooks, LoadDependencies(g, rank, hooks, w, n, k - 1), n, g.depends[n][k - 1])
  }

  ghost function LoadDependency(g: Graph, rank: map<string, nat>, hooks: Hooks, w: World, n: string, d: string)
    : (r: World)
    requires Matches(g, w) && Descends(g, w, rank) && n in g.depends && n in rank && d in g.depends[n]
    ensures Matches(g, r) && Descends(g, r, rank)
    decreases rank[n], 0, 0
  {
    if d in g.depends && Pending(w.states[d]) then
      assert DependsOn(g, n, d);
      Load(g, rank, hooks, w, d)
    else w
  }

  ghost function Enable(g: Graph, rank: map<string, nat>, hooks: Hooks, w: World, n: string): (r: World)
    requires Matches(g, w) && Descends(g, w, rank) && n in g.depends && n in rank
    ensures Matches(g, r)
  {
    PluginEnable(hooks, Load(g, rank, hooks, w, n), n)
  }

  /** All names are ranked, and ranks fall along all dependencies: then they do in every world. */
  ghost predicate Ranked(g: Graph, rank: map<string, nat>) {
    && (forall n :: n in g.depends ==> n in rank)
    && (forall n, d {:trigger DependsOn(g, n, d)} :: DependsOn(g, n, d) ==> n in rank && d in rank && rank[d] < rank[n])
  }

  /** The positions in a topological order. */
  ghost function RankOf(order: seq<string>): map<string, nat> {
    map n | n in order :: IndexOf(order, n)
  }

  ghost predicate Positions(order: seq<string>, rank: map<string, nat>) {
    && (forall i :: 0 <= i < |order| ==> order[i] in rank && rank[order[i]] == i)
    && (forall n :: n in rank ==> rank[n] < |order| && order[rank[n]] == n)
  }

  lemma PositionsRank(g: Graph, order: seq<string>)
    requires IsTopological(g, order)
    ensures Ranked(g, RankOf(order)) && Positions(order, RankOf(order))
  {
    var rank := RankOf(order);
    assert forall i :: 0 <= i < |order| ==> order[i] in order && IndexOf(order, order[i]) == i;
    forall n, d | DependsOn(g, n, d)
      ensures n in rank && d in rank && rank[d] < rank[n]
    {
      var i := IndexOf(order, n);
      assert DependsOn(g, order[i], d);
      var j: nat :| j < i && order[j] == d;
    }
  }

  type Step = (World, string) -> World

  /** A step applied to the first k names of a list in turn. */
  ghost function Each(step: Step, order: seq<string>, w: World, k: nat): World
    requires k <= |order|
  {
    if k == 0 then w else step(Each(step, order, w, k - 1), order[k - 1])
  }

  ghost function Enabler(g: Graph, rank: map<string, nat>, hooks: Hooks): Step
    requires Ranked(g, rank)
  {
    (w: World, n: string) => if n in g.depends && Matches(g, w) then Enable(g, rank, hooks, w, n) else w
  }

  lemma {:induction false} EachMatches(g: Graph, rank: map<string, nat>, order: seq<string>, hooks: Hooks,
                                       w: World, k: nat)
    requires Ranked(g, rank) && Matches(g, w) && k <= |order|
    ensures Matches(g, Each(Enabler(g, rank, hooks), order, w, k))
  {
    if k > 0 {
      EachMatches(g, rank, order, hooks, w, k - 1);
    }
  }

  /** None when the sort raises. */
  ghost function EnableAll(g: Graph, hooks: Hooks, w: World): (r: Option<World>)
    requires WellFormed(g) && Matches(g, w)
    ensures r.Some? ==> Matches(g, r.value)
  {
    TopoOrderCorrect(g);
    match TopoOrder(g)
    case None => None
    case Some(order) =>
      PositionsRank(g, order);
      EachMatches(g, RankOf(order), order, hooks, w, |order|);
      Some(Each(Enabler(g, RankOf(order), hooks), order, w, |order|))
  }

  function DisableNamed(hooks: Hooks, w: World, n: string): (r: World)
    ensures r.states.Keys == w.states.Keys
  {
    if n in w.states then PluginDisable(hooks, w, n) else w
  }

  /** Disables the first k names in turn. */
  function DisableEach(hooks: Hooks, names: seq<string>, w: World, k: nat): (r: World)
    requires k <= |names|
    ensures r.states.Keys == w.states.Keys
  {
    if k == 0 then w else DisableNamed(hooks, DisableEach(hooks, names, w, k - 1), names[k - 1])
  }

  function Reversed(s: seq<string>): seq<string> {
    if s == [] then [] else Reversed(s[1..]) + [s[0]]
  }

  ghost function DisableAll(g: Graph, hooks: Hooks, w: World): Option<World>
    requires WellFormed(g)
  {
    match TopoOrder(g)
    case None => None
    case Some(order) => Some(DisableEach(hooks, Reversed(order), w, |Reversed(order)|))
  }

  // ----- loading attempts respect the dependencies, whatever the hooks return

  ghost predicate AttemptBetween(t: seq<Event>, n: string, lo: nat, hi: nat) {
    exists j :: lo <= j < hi && j < |t| && t[j] == HookCalled(n, OnLoad)
  }

  /** n was up in w0, or its on_load has been attempted since. */
  ghost predicate Covered(w0: World, w: World, n: string)
    requires n in w0.states
  {
    Up(w0.states[n]) || AttemptBetween(w.trace, n, |w0.trace|, |w.trace|)
  }

  /** Each on_load attempt since w0 follows an attempt for every dependency that was not up in w0. */
  ghost predicate AttemptsOrdered(g: Graph, w0: World, w: World)
    requires Matches(g, w0)
  {
    forall i, d :: |w0.trace| <= i < |w.trace| && w.trace[i].HookCalled? && w.trace[i].hook.OnLoad?
      && DependsOn(g, w.trace[i].name, d)
      ==> Up(w0.states[d]) || AttemptBetween(w.trace, d, |w0.trace|, i)
  }

  ghost predicate LoadInvariant(g: Graph, w0: World, w: World) {
    && Matches(g, w0) && Matches(g, w)
    && w0.trace <= w.trace
    && AttemptsOrdered(g, w0, w)
    && (forall n :: n in g.depends && Up(w.states[n]) ==> Covered(w0, w, n))
  }

  /** Appending an event keeps coverage and, unless it is a premature attempt, the order of attempts. */
  lemma AppendEvent(g: Graph, w0: World, w: World, e: Event, w': World)
    requires LoadInvariant(g, w0, w) && Matches(g, w') && w'.trace == w.trace + [e]
    requires e.HookCalled? && e.hook.OnLoad? ==>
               forall d :: DependsOn(g, e.name, d) ==> Covered(w0, w, d)
    ensures w0.trace <= w'.trace && AttemptsOrdered(g, w0, w')
    ensures forall n :: n in g.depends && Covered(w0, w, n) ==> Covered(w0, w', n)
    ensures e.HookCalled? && e.hook.OnLoad? && e.name in g.depends ==> Covered(w0, w', e.name)
  {
    forall n, hi | 0 <= hi <= |w.trace| && AttemptBetween(w.trace, n, |w0.trace|, hi)
      ensures AttemptBetween(w'.trace, n, |w0.trace|, hi)
      ensures AttemptBetween(w'.trace, n, |w0.trace|, |w'.trace|)
    {
      var j :| |w0.trace| <= j < hi && j < |w.trace| && w.trace[j] == HookCalled(n, OnLoad);
      assert w'.trace[j] == HookCalled(n, OnLoad);
    }
    if e.HookCalled? && e.hook.OnLoad? {
      assert w'.trace[|w.trace|] == HookCalled(e.name, OnLoad);
    }
  }

  lemma PluginLoadOrdered(g: Graph, hooks: Hooks, w0: World, w: World, n: string)
    requires LoadInvariant(g, w0, w) && n in g.depends
    requires forall d :: DependsOn(g, n, d) ==> Covered(w0, w, d)
    ensures LoadInvariant(g, w0, PluginLoad(hooks, w, n))
    ensures Covered(w0, PluginLoad(hooks, w, n), n)
    ensures forall m :: m in g.depends && Covered(w0, w, m) ==> Covered(w0, PluginLoad(hooks, w, n), m)
  {
    if !Up(w.states[n]) {
      var called := CallHook(w, n, OnLoad);
      AppendEvent(g, w0, w, HookCalled(n, OnLoad), called);
      match hooks(w.trace, n, OnLoad) {
        case Truthy => AppendEvent(g, w0, called, StateSet(n, w.states[n], Loaded), SetState(called, n, Loaded));
        case Falsy =>
        case Raised => AppendEvent(g, w0, called, StateSet(n, w.states[n], Error), SetState(called, n, Error));
      }
    }
  }

  lemma PluginEnableOrdered(g: Graph, hooks: Hooks, w0: World, w: World, n: string)
    requires LoadInvariant(g, w0, w) && n in g.depends
    requires forall d :: DependsOn(g, n, d) ==> Covered(w0, w, d)
    ensures LoadInvariant(g, w0, PluginEnable(hooks, w, n))
    ensures forall m :: m in g.depends && Covered(w0, w, m) ==> Covered(w0, PluginEnable(hooks, w, n), m)
  {
    if !w.states[n].Running? {
      PluginLoadOrdered(g, hooks, w0, w, n);
      var loaded := if w.states[n].Registered? then PluginLoad(hooks, w, n) else w;
      if loaded.states[n].Loaded? {
        var called := CallHook(loaded, n, OnEnable);
        AppendEvent(g, w0, loaded, HookCalled(n, OnEnable), called);
        match hooks(loaded.trace, n, OnEnable) {
          case Truthy => AppendEvent(g, w0, called, StateSet(n, Loaded, Enabled), SetState(called, n, Enabled));
          case Falsy =>
          case Raised => AppendEvent(g, w0, called, StateSet(n, Loaded, Error), SetState(called, n, Error));
        }
      }
    }
  }

  /** All names of a rank below k are covered. */
  ghost predicate BelowCovered(g: Graph, rank: map<string, nat>, w0: World, w: World, k: nat)
    requires Matches(g, w0)
  {
    forall m :: m in g.depends && m in rank && rank[m] < k ==> Covered(w0, w, m)
  }

  lemma {:induction false} LoadOrdered(g: Graph, rank: map<string, nat>, hooks: Hooks, w0: World, w: World, n: string)
    requires Ranked(g, rank) && n in g.depends && LoadInvariant(g, w0, w) && BelowCovered(g, rank, w0, w, rank[n])
    ensures LoadInvariant(g, w0, Load(g, rank, hooks, w, n))
    ensures Covered(w0, Load(g, rank, hooks, w, n), n)
    ensures forall m :: m in g.depends && Covered(w0, w, m) ==> Covered(w0, Load(g, rank, hooks, w, n), m)
    decreases rank[n], 1, 0
  {
    LoadDependenciesOrdered(g, rank, hooks, w0, w, n, |g.depends[n]|);
    PluginLoadOrdered(g, hooks, w0, LoadDependencies(g, rank, hooks, w, n, |g.depends[n]|), n);
  }

  lemma {:induction false} LoadDependenciesOrdered(g: Graph, rank: map<string, nat>, hooks: Hooks, w0: World, w: World,
                                                   n: string, k: nat)
    requires Ranked(g, rank) && n in g.depends && LoadInvariant(g, w0, w) && BelowCovered(g, rank, w0, w, rank[n])
    requires k <= |g.depends[n]|
    ensures LoadInvariant(g, w0, LoadDependencies(g, rank, hooks, w, n, k))
    ensures forall m :: m in g.depends && Covered(w0, w, m) ==>
                          Covered(w0, LoadDependencies(g, rank, hooks, w, n, k), m)
    decreases rank[n], 0, k
  {
    if k > 0 {
      LoadDependenciesOrdered(g, rank, hooks, w0, w, n, k - 1);
      var v, d := LoadDependencies(g, rank, hooks, w, n, k - 1), g.depends[n][k - 1];
      if d in g.depends && Pending(v.states[d]) {
        assert DependsOn(g, n, d);
        LoadOrdered(g, rank, hooks, w0, v, d);
      }
    }
  }

  ghost predicate OrderedSoFar(g: Graph, order: seq<string>, w0: World, w: World, k: nat)
    requires k <= |order|
  {
    LoadInvariant(g, w0, w) && forall i :: 0 <= i < k && order[i] in g.depends ==> Covered(w0, w, order[i])
  }

  lemma EnablerOrdered(g: Graph, rank: map<string, nat>, order: seq<string>, hooks: Hooks, w0: World, w: World, k: nat)
    requires Ranked(g, rank) && Positions(order, rank) && k < |order| && OrderedSoFar(g, order, w0, w, k)
    ensures OrderedSoFar(g, order, w0, Enabler(g, rank, hooks)(w, order[k]), k + 1)
  {
    var n := order[k];
    if n in g.depends {
      LoadOrdered(g, rank, hooks, w0, w, n);
      PluginEnableOrdered(g, hooks, w0, Load(g, rank, hooks, w, n), n);
    }
  }

  lemma {:induction false} EachOrdered(g: Graph, order: seq<string>, step: Step, w0: World, k: nat)
    requires Matches(g, w0) && k <= |order|
    requires forall w, i: nat :: i < |order| && OrderedSoFar(g, order, w0, w, i) ==>
                                   OrderedSoFar(g, order, w0, step(w, order[i]), i + 1)
    ensures OrderedSoFar(g, order, w0, Each(step, order, w0, k), k)
  {
    if k > 0 {
      EachOrdered(g, order, step, w0, k - 1);
    }
  }

  /**
   Whatever the hooks return: enable_all raises exactly on a cycle; otherwise every plugin was up
   already or gets an on_load attempt, and every attempt follows one for each registered dependency
   that was not up already.
   */
  lemma EnableAllOrdered(g: Graph, hooks: Hooks, w: World)
    requires WellFormed(g) && Matches(g, w)
    ensures EnableAll(g, hooks, w).None? <==> Cyclic(g)
    ensures match EnableAll(g, hooks, w)
            case None => true
            case Some(w') =>
              && w.trace <= w'.trace
              && AttemptsOrdered(g, w, w')
              && forall n :: n in g.depends ==> Covered(w, w', n)
  {
    TopoOrderCorrect(g);
    if TopoOrder(g).Some? {
      var order := TopoOrder(g).value;
      PositionsRank(g, order);
      forall v, i: nat | i < |order| && OrderedSoFar(g, order, w, v, i)
        ensures OrderedSoFar(g, order, w, Enabler(g, RankOf(order), hooks)(v, order[i]), i + 1)
      {
        EnablerOrdered(g, RankOf(order), order, hooks, w, v, i);
      }
      EachOrdered(g, order, Enabler(g, RankOf(order), hooks), w, |order|);
      assert forall n :: n in g.depends ==> n in order;
    }
  }

  // ----- when every hook succeeds

  ghost predicate AllSucceed(hooks: Hooks) {
    forall t, n, h :: hooks(t, n, h).Truthy?
  }

  function BringUp(n: string): seq<Event> {
    [HookCalled(n, OnLoad), StateSet(n, Registered, Loaded), HookCalled(n, OnEnable), StateSet(n, Loaded, Enabled)]
  }

  function BringUpAll(names: seq<string>): seq<Event> {
    if names == [] then []
    else BringUpAll(names[..|names| - 1]) + BringUp(names[|names| - 1])
  }

  /** The names that were set to a given state, in the order of the transitions. */
  function Transitions(t: seq<Event>, s: PluginState): seq<string> {
    if t == [] then []
    else
      var last := t[|t| - 1];
      Transitions(t[..|t| - 1], s) + if last.StateSet? && last.to == s then [last.name] else []
  }

  /** States after the first k plugins of the order were brought up. */
  ghost predicate FirstEnabled(order: seq<string>, k: nat, w: World)
    requires k <= |order|
  {
    forall i :: 0 <= i < |order| ==>
                  order[i] in w.states && w.states[order[i]] == if i < k then Enabled else Registered
  }

  lemma {:induction false} NothingToLoad(g: Graph, rank: map<string, nat>, hooks: Hooks, w: World, n: string, k: nat)
    requires Matches(g, w) && Descends(g, w, rank) && n in g.depends && n in rank && k <= |g.depends[n]|
    requires forall d :: DependsOn(g, n, d) ==> !Pending(w.states[d])
    ensures LoadDependencies(g, rank, hooks, w, n, k) == w
  {
    if k > 0 {
      assert g.depends[n][k - 1] in g.depends ==> DependsOn(g, n, g.depends[n][k - 1]);
      NothingToLoad(g, rank, hooks, w, n, k - 1);
    }
  }

  lemma BringUpOne(hooks: Hooks, w: World, n: string)
    requires AllSucceed(hooks) && n in w.states && w.states[n] == Registered
    ensures PluginEnable(hooks, PluginLoad(hooks, w, n), n)
            == World(w.states[n := Enabled], w.trace + BringUp(n))
  {
    var loaded := PluginLoad(hooks, w, n);
    assert loaded == World(w.states[n := Loaded], w.trace + [HookCalled(n, OnLoad), StateSet(n, Registered, Loaded)]);
    var enabled := PluginEnable(hooks, loaded, n);
    assert enabled.trace == loaded.trace + [HookCalled(n, OnEnable), StateSet(n, Loaded, Enabled)];
  }

  lemma OneMoreEnabled(rank: map<string, nat>, order: seq<string>, k: nat, w: World, w': World)
    requires k < |order| && Positions(order, rank) && FirstEnabled(order, k, w)
    requires w'.states == w.states[order[k] := Enabled]
    ensures FirstEnabled(order, k + 1, w')
  {
  }

  /** One enable in the run of enable_all. */
  ghost predicate Advances(g: Graph, order: seq<string>, w: World, k: nat, w': World)
    requires k < |order|
  {
    Matches(g, w) && FirstEnabled(order, k, w) ==>
      Matches(g, w') && FirstEnabled(order, k + 1, w') && w'.trace == w.trace + BringUp(order[k])
  }

  lemma EnablerAdvances(g: Graph, rank: map<string, nat>, order: seq<string>, hooks: Hooks, w: World, k: nat)
    requires Ranked(g, rank) && Positions(order, rank) && k < |order| && AllSucceed(hooks)
    ensures Advances(g, order, w, k, Enabler(g, rank, hooks)(w, order[k]))
  {
    if Matches(g, w) && FirstEnabled(order, k, w) {
      var n := order[k];
      assert forall m :: m in rank ==> order[rank[m]] in w.states;
      NothingToLoad(g, rank, hooks, w, n, |g.depends[n]|);
      assert Load(g, rank, hooks, w, n) == PluginLoad(hooks, w, n);
      BringUpOne(hooks, w, n);
      OneMoreEnabled(rank, order, k, w, Enabler(g, rank, hooks)(w, n));
    }
  }

  lemma BringUpNext(order: seq<string>, k: nat)
    requires k < |order|
    ensures BringUpAll(order[..k + 1]) == BringUpAll(order[..k]) + BringUp(order[k])
  {
    assert order[..k + 1][..k] == order[..k];
  }

  lemma {:induction false} EachAdvances(g: Graph, order: seq<string>, step: Step, w: World, k: nat)
    requires Matches(g, w) && k <= |order| && FirstEnabled(order, 0, w)
    requires forall v, i: nat :: i < |order| ==> Advances(g, order, v, i, step(v, order[i]))
    ensures var r := Each(step, order, w, k);
            Matches(g, r) && FirstEnabled(order, k, r) && r.trace == w.trace + BringUpAll(order[..k])
  {
    if k > 0 {
      EachAdvances(g, order, step, w, k - 1);
      BringUpNext(order, k - 1);
    }
  }

  lemma {:induction false} TransitionsAppend(t: seq<Event>, u: seq<Event>, s: PluginState)
    ensures Transitions(t + u, s) == Transitions(t, s) + Transitions(u, s)
  {
    if u == [] {
      assert t + u == t;
    } else {
      assert (t + u)[..|t + u| - 1] == t + u[..|u| - 1];
      TransitionsAppend(t, u[..|u| - 1], s);
    }
  }

  lemma {:induction false} BringUpTransitions(names: seq<string>)
    ensures Transitions(BringUpAll(names), Enabled) == names
  {
    if names != [] {
      var n := names[|names| - 1];
      BringUpTransitions(names[..|names| - 1]);
      TransitionsAppend(BringUpAll(names[..|names| - 1]), BringUp(n), Enabled);
      assert BringUp(n)[..3][..2] == [HookCalled(n, OnLoad)] + [StateSet(n, Registered, Loaded)];
      assert Transitions(BringUp(n)[..3][..2], Enabled) == [] by {
        TransitionsAppend([HookCalled(n, OnLoad)], [StateSet(n, Registered, Loaded)], Enabled);
      }
      assert Transitions(BringUp(n)[..3], Enabled) == [];
      assert Transitions(BringUp(n), Enabled) == [n];
    }
  }

  /** The transitions to a state since w. */
  function TransitionsSince(w: World, w': World, s: PluginState): seq<string>
    requires |w.trace| <= |w'.trace|
  {
    Transitions(w'.trace[|w.trace|..], s)
  }

  lemma AllAdvance(g: Graph, order: seq<string>, hooks: Hooks, w: World)
    requires IsTopological(g, order) && Ranked(g, RankOf(order)) && AllSucceed(hooks)
    requires Matches(g, w) && FirstEnabled(order, 0, w)
    ensures var r := Each(Enabler(g, RankOf(order), hooks), order, w, |order|);
            FirstEnabled(order, |order|, r) && r.trace == w.trace + BringUpAll(order)
  {
    forall v, i: nat | i < |order|
      ensures Advances(g, order, v, i, Enabler(g, RankOf(order), hooks)(v, order[i]))
    {
      EnablerAdvances(g, RankOf(order), order, hooks, v, i);
    }
    EachAdvances(g, order, Enabler(g, RankOf(order), hooks), w, |order|);
    assert order[..|order|] == order;
  }

  lemma EnableAllSucceeds(g: Graph, hooks: Hooks, w: World)
    requires WellFormed(g) && !Cyclic(g) && AllSucceed(hooks)
    requires Matches(g, w) && forall n :: n in w.states ==> w.states[n] == Registered
    ensures TopoOrder(g).Some? && IsTopological(g, TopoOrder(g).value) && EnableAll(g, hooks, w).Some?
    ensures var up := EnableAll(g, hooks, w).value;
            && w.trace <= up.trace && TransitionsSince(w, up, Enabled) == TopoOrder(g).value
            && FirstEnabled(TopoOrder(g).value, |TopoOrder(g).value|, up)
  {
    TopoOrderCorrect(g);
    var order := TopoOrder(g).value;
    PositionsRank(g, order);
    assert FirstEnabled(order, 0, w) by {
      assert forall i :: 0 <= i < |order| ==> order[i] in order;
    }
    AllAdvance(g, order, hooks, w);
    var up := EnableAll(g, hooks, w).value;
    assert up.trace[|w.trace|..] == BringUpAll(order);
    BringUpTransitions(order);
  }

  ghost predicate DisableNeverRaises(hooks: Hooks) {
    forall t, n :: !hooks(t, n, OnDisable).Raised?
  }

  lemma StopOne(hooks: Hooks, w: World, n: string) returns (events: seq<Event>)
    requires n in w.states
    ensures PluginStop(hooks, w, n).trace == w.trace + events && Transitions(events, Disabled) == []
    ensures PluginStop(hooks, w, n).states[n := Disabled] == w.states[n := Disabled]
  {
    var call, change := HookCalled(n, OnStop), StateSet(n, w.states[n], Enabled);
    events := if hooks(w.trace, n, OnStop).Raised? then [call] else [call] + [change];
    TransitionsAppend([call], [change], Disabled);
  }

  /** The events of one disable, in whatever state the plugin is: one transition to disabled, the last. */
  lemma DisableOne(hooks: Hooks, w: World, n: string) returns (events: seq<Event>)
    requires n in w.states && DisableNeverRaises(hooks)
    ensures PluginDisable(hooks, w, n).trace == w.trace + events && Transitions(events, Disabled) == [n]
    ensures PluginDisable(hooks, w, n).states == w.states[n := Disabled]
  {
    var first, stopped := [], w;
    if w.states[n].Running? {
      first := StopOne(hooks, w, n);
      stopped := PluginStop(hooks, w, n);
    }
    events := first + [HookCalled(n, OnDisable)] + [StateSet(n, stopped.states[n], Disabled)];
    TransitionsAppend(first, [HookCalled(n, OnDisable)], Disabled);
    TransitionsAppend(first + [HookCalled(n, OnDisable)], [StateSet(n, stopped.states[n], Disabled)], Disabled);
  }

  lemma {:induction false} DisableEachStates(hooks: Hooks, names: seq<string>, w: World, k: nat, n: string)
    requires k <= |names| && DisableNeverRaises(hooks) && n in w.states && n in names[..k]
    ensures DisableEach(hooks, names, w, k).states[n] == Disabled
  {
    var before := DisableEach(hooks, names, w, k - 1);
    assert names[..k] == names[..k - 1] + [names[k - 1]];
    if names[k - 1] in w.states {
      var events := DisableOne(hooks, before, names[k - 1]);
    }
    if n != names[k - 1] {
      DisableEachStates(hooks, names, w, k - 1, n);
    }
  }

  lemma OneMoreTransition(names: seq<string>, k: nat, t: seq<Event>, first: seq<Event>, rest: seq<Event>,
                          s: PluginState)
    requires k < |names| && Transitions(first, s) == names[..k] && Transitions(rest, s) == [names[k]]
    ensures t + first + rest == t + (first + rest) && Transitions(first + rest, s) == names[..k + 1]
  {
    TransitionsAppend(first, rest, s);
  }

  lemma {:induction false} DisableEachTrace(hooks: Hooks, names: seq<string>, w: World, k: nat)
    returns (events: seq<Event>)
    requires k <= |names| && DisableNeverRaises(hooks) && forall i :: 0 <= i < |names| ==> names[i] in w.states
    ensures DisableEach(hooks, names, w, k).trace == w.trace + events && Transitions(events, Disabled) == names[..k]
  {
    events := [];
    if k > 0 {
      var before := DisableEach(hooks, names, w, k - 1);
      var first := DisableEachTrace(hooks, names, w, k - 1);
      var rest := DisableOne(hooks, before, names[k - 1]);
      events := first + rest;
      OneMoreTransition(names, k - 1, w.trace, first, rest, Disabled);
    }
  }

  lemma {:induction false} ReversedHolds(s: seq<string>)
    ensures forall n :: n in Reversed(s) <==> n in s
  {
    if s != [] {
      ReversedHolds(s[1..]);
    }
  }

  /** If no on_disable raises, disable_all disables every plugin, whatever state it was in, in reverse order. */
  lemma DisableAllSucceeds(g: Graph, hooks: Hooks, w: World)
    requires WellFormed(g) && !Cyclic(g) && DisableNeverRaises(hooks) && Matches(g, w)
    ensures DisableAll(g, hooks, w).Some? && TopoOrder(g).Some?
    ensures var down := DisableAll(g, hooks, w).value;
            && w.trace <= down.trace && TransitionsSince(w, down, Disabled) == Reversed(TopoOrder(g).value)
            && forall n :: n in g.depends ==> n in down.states && down.states[n] == Disabled
  {
    TopoOrderCorrect(g);
    var order := TopoOrder(g).value;
    var names := Reversed(order);
    ReversedHolds(order);
    assert forall i :: 0 <= i < |names| ==> names[i] in names;
    var events := DisableEachTrace(hooks, names, w, |names|);
    assert names[..|names|] == names;
    var down := DisableAll(g, hooks, w).value;
    assert down.trace[|w.trace|..] == events;
    forall n | n in g.depends
      ensures n in down.states && down.states[n] == Disabled
    {
      assert n in order;
      DisableEachStates(hooks, names, w, |names|, n);
    }
  }

  /**
   With succeeding hooks, from registered plugins and after any history: enable_all brings every plugin up once, in
   one dependency order, and disable_all, run on what it left, takes them down in exactly the reverse order.
   */
  lemma EnableThenDisable(g: Graph, hooks: Hooks, w: World)
    requires WellFormed(g) && !Cyclic(g) && AllSucceed(hooks)
    requires Matches(g, w) && forall n :: n in w.states ==> w.states[n] == Registered
    ensures match EnableAll(g, hooks, w)
            case None => false
            case Some(up) =>
              && w.trace <= up.trace && IsTopological(g, TransitionsSince(w, up, Enabled))
              && (forall n :: n in g.depends ==> up.states[n] == Enabled)
              && match DisableAll(g, hooks, up)
                 case None => false
                 case Some(down) =>
                   && up.trace <= down.trace
                   && TransitionsSince(up, down, Disabled) == Reversed(TransitionsSince(w, up, Enabled))
                   && forall n :: n in g.depends ==> n in down.states && down.states[n] == Disabled
  {
    EnableAllSucceeds(g, hooks, w);
    var up := EnableAll(g, hooks, w).value;
    assert forall n :: n in g.depends ==> n in TopoOrder(g).value;
    DisableAllSucceeds(g, hooks, up);
  }
}
