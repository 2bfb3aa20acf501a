/**
 What the trace of any run of load, enable, stop, disable, enable_all and disable_all looks like, whatever the hooks
 return: which hook is called in which state, and what follows each call.
 */
module PluginTraces {
  import opened Common
  import opened DependencyGraph
  import opened PluginLifecycle

  /** The state of a plugin after a trace that goes on from w0. */
  function StateAt(w0: World, t: seq<Event>, n: string): PluginState
    requires n in w0.states
  {
    if |t| <= |w0.trace| then w0.states[n]
    else
      var last := t[|t| - 1];
      if last.StateSet? && last.name == n then last.to else StateAt(w0, t[..|t| - 1], n)
  }

  /** The call at index i is followed by this change. */
  predicate SetsNext(t: seq<Event>, i: nat, n: string, from: PluginState, to: PluginState) {
    i + 1 < |t| && t[i + 1] == StateSet(n, from, to)
  }

  predicate SetsNothing(t: seq<Event>, i: nat) {
    i + 1 < |t| ==> !t[i + 1].StateSet?
  }

  /**
   on_load is called only for a plugin that is neither loaded, enabled nor running, and on_enable only for a loaded
   one. One that returns truthy is followed by the change to loaded or enabled, one that raises by the change to error,
   a falsy one by none. on_stop and on_disable are followed by their change unless they raise; on_disable is called for
   a running plugin only directly after an on_stop.
   */
  ghost predicate CallOk(hooks: Hooks, w0: World, t: seq<Event>, i: nat)
    requires i < |t| && t[i].HookCalled? && t[i].name in w0.states
  {
    var n, s := t[i].name, StateAt(w0, t[..i], t[i].name);
    var o := hooks(t[..i], n, t[i].hook);
    match t[i].hook
    case OnLoad =>
      && s != Loaded && s != Enabled && s != Running
      && (if o == Truthy then SetsNext(t, i, n, s, Loaded)
          else if o == Raised then SetsNext(t, i, n, s, Error) else SetsNothing(t, i))
    case OnEnable =>
      && s == Loaded
      && (if o == Truthy then SetsNext(t, i, n, Loaded, Enabled)
          else if o == Raised then SetsNext(t, i, n, Loaded, Error) else SetsNothing(t, i))
    case OnStop => if o != Raised then SetsNext(t, i, n, s, Enabled) else SetsNothing(t, i)
    case OnDisable =>
      && (s == Running ==> i > |w0.trace| && t[i - 1] == HookCalled(n, OnStop))
      && (if o != Raised then SetsNext(t, i, n, s, Disabled) else SetsNothing(t, i))
  }

  /** Every change of state directly follows a call for the same plugin. */
  ghost predicate EventOk(hooks: Hooks, w0: World, t: seq<Event>, i: nat)
    requires i < |t|
  {
    && t[i].name in w0.states
    && if t[i].HookCalled? then CallOk(hooks, w0, t, i)
       else i > |w0.trace| && t[i - 1].HookCalled? && t[i - 1].name == t[i].name
  }

  /** w comes from w0 by such events alone, calls of the hooks hs among them, and the states are what they say. */
  ghost predicate Lawful(hooks: Hooks, hs: set<Hook>, w0: World, w: World) {
    && w0.trace <= w.trace && w.states.Keys == w0.states.Keys
    && (forall n :: n in w.states ==> w.states[n] == StateAt(w0, w.trace, n))
    && (forall i: nat :: |w0.trace| <= i < |w.trace| ==> EventOk(hooks, w0, w.trace, i))
    && (forall i: nat :: |w0.trace| <= i < |w.trace| && w.trace[i].HookCalled? ==>
                                                 w.trace[i].hook in hs)
  }

  // ----- runs can be joined

  lemma {:induction false} StateAtJoined(w0: World, w: World, t: seq<Event>, n: string)
    requires n in w0.states && n in w.states && w0.trace <= w.trace <= t && w.states[n] == StateAt(w0, w.trace, n)
    ensures StateAt(w0, t, n) == StateAt(w, t, n)
    decreases |t|
  {
    if |t| > |w.trace| {
      assert w.trace <= t[..|t| - 1];
      StateAtJoined(w0, w, t[..|t| - 1], n);
    } else {
      assert t == w.trace;
    }
  }

  /** Going on does not spoil what was lawful. */
  lemma EarlierEventOk(hooks: Hooks, w0: World, t: seq<Event>, u: seq<Event>, i: nat)
    requires t <= u && i < |t| && EventOk(hooks, w0, t, i) && (|t| < |u| ==> !u[|t|].StateSet?)
    ensures EventOk(hooks, w0, u, i)
  {
    assert u[..i] == t[..i];
  }

  lemma LaterEventOk(hooks: Hooks, w0: World, w: World, u: seq<Event>, i: nat)
    requires w0.trace <= w.trace <= u && |w.trace| <= i < |u| && EventOk(hooks, w, u, i)
    requires w.states.Keys == w0.states.Keys && w.states[u[i].name] == StateAt(w0, w.trace, u[i].name)
    ensures EventOk(hooks, w0, u, i)
  {
    StateAtJoined(w0, w, u[..i], u[i].name);
  }

  lemma LawfulJoined(hooks: Hooks, hs: set<Hook>, w0: World, w: World, w': World)
    requires Lawful(hooks, hs, w0, w) && Lawful(hooks, hs, w, w')
    ensures Lawful(hooks, hs, w0, w')
  {
    forall n | n in w'.states
      ensures w'.states[n] == StateAt(w0, w'.trace, n)
    {
      StateAtJoined(w0, w, w'.trace, n);
    }
    assert |w.trace| < |w'.trace| ==> EventOk(hooks, w, w'.trace, |w.trace|);
    forall i: nat | |w0.trace| <= i < |w'.trace|
      ensures EventOk(hooks, w0, w'.trace, i)
      ensures w'.trace[i].HookCalled? ==> w'.trace[i].hook in hs
    {
      if i < |w.trace| {
        assert w'.trace[i] == w.trace[i];
        EarlierEventOk(hooks, w0, w.trace, w'.trace, i);
      } else {
        LaterEventOk(hooks, w0, w, w'.trace, i);
      }
    }
  }

  lemma Nothing(hooks: Hooks, hs: set<Hook>, w: World)
    ensures Lawful(hooks, hs, w, w)
  {
  }

  /** One call that changes nothing. */
  lemma CallOnly(hooks: Hooks, hs: set<Hook>, w: World, n: string, h: Hook)
    requires n in w.states && h in hs
    requires h == OnLoad || h == OnEnable ==> hooks(w.trace, n, h) == Falsy
    requires h == OnStop || h == OnDisable ==> hooks(w.trace, n, h) == Raised
    requires h == OnLoad ==> w.states[n] != Loaded && w.states[n] != Enabled && w.states[n] != Running
    requires h == OnEnable ==> w.states[n] == Loaded
    requires h == OnDisable ==> w.states[n] != Running
    ensures Lawful(hooks, hs, w, CallHook(w, n, h))
  {
    var t := w.trace + [HookCalled(n, h)];
    assert t[..|w.trace|] == w.trace;
  }

  /** One call and the change that follows. */
  lemma CallAndSet(hooks: Hooks, hs: set<Hook>, w: World, n: string, h: Hook, s: PluginState)
    requires n in w.states && h in hs
    requires h == OnLoad ==> w.states[n] != Loaded && w.states[n] != Enabled && w.states[n] != Running
    requires h == OnEnable ==> w.states[n] == Loaded
    requires h == OnDisable ==> w.states[n] != Running
    requires var o := hooks(w.trace, n, h);
             match h
             case OnLoad => (o == Truthy && s == Loaded) || (o == Raised && s == Error)
             case OnEnable => (o == Truthy && s == Enabled) || (o == Raised && s == Error)
             case OnStop => o != Raised && s == Enabled
             case OnDisable => o != Raised && s == Disabled
    ensures Lawful(hooks, hs, w, SetState(CallHook(w, n, h), n, s))
  {
    var called := CallHook(w, n, h);
    var t := called.trace + [StateSet(n, w.states[n], s)];
    assert t[..|w.trace|] == w.trace && t[..|w.trace| + 1] == called.trace && called.trace[..|w.trace|] == w.trace;
    forall m | m in w.states
      ensures SetState(called, n, s).states[m] == StateAt(w, t, m)
    {
      assert StateAt(w, called.trace, m) == StateAt(w, w.trace, m) == w.states[m];
    }
    assert EventOk(hooks, w, t, |w.trace|);
    assert EventOk(hooks, w, t, |w.trace| + 1);
  }

  // ----- every operation is lawful

  lemma MoreHooks(hooks: Hooks, hs: set<Hook>, more: set<Hook>, w0: World, w: World)
    requires Lawful(hooks, hs, w0, w) && hs <= more
    ensures Lawful(hooks, more, w0, w)
  {
  }

  lemma PluginLoadLawful(hooks: Hooks, w: World, n: string)
    requires n in w.states
    ensures Lawful(hooks, {OnLoad}, w, PluginLoad(hooks, w, n))
  {
    if !Up(w.states[n]) {
      match hooks(w.trace, n, OnLoad) {
        case Truthy => CallAndSet(hooks, {OnLoad}, w, n, OnLoad, Loaded);
        case Falsy => CallOnly(hooks, {OnLoad}, w, n, OnLoad);
        case Raised => CallAndSet(hooks, {OnLoad}, w, n, OnLoad, Error);
      }
    }
  }

  lemma PluginEnableLawful(hooks: Hooks, w: World, n: string)
    requires n in w.states
    ensures Lawful(hooks, {OnLoad, OnEnable}, w, PluginEnable(hooks, w, n))
  {
    var hs := {OnLoad, OnEnable};
    if !w.states[n].Running? {
      var loaded := if w.states[n].Registered? then PluginLoad(hooks, w, n) else w;
      PluginLoadLawful(hooks, w, n);
      MoreHooks(hooks, {OnLoad}, hs, w, PluginLoad(hooks, w, n));
      if loaded.states[n].Loaded? {
        match hooks(loaded.trace, n, OnEnable) {
          case Truthy => CallAndSet(hooks, hs, loaded, n, OnEnable, Enabled);
          case Falsy => CallOnly(hooks, hs, loaded, n, OnEnable);
          case Raised => CallAndSet(hooks, hs, loaded, n, OnEnable, Error);
        }
        LawfulJoined(hooks, hs, w, loaded, PluginEnable(hooks, w, n));
      }
    }
  }

  lemma PluginStopLawful(hooks: Hooks, w: World, n: string)
    requires n in w.states
    ensures Lawful(hooks, {OnStop}, w, PluginStop(hooks, w, n))
  {
    if hooks(w.trace, n, OnStop).Raised? {
      CallOnly(hooks, {OnStop}, w, n, OnStop);
    } else {
      CallAndSet(hooks, {OnStop}, w, n, OnStop, Enabled);
    }
  }

  /** A running plugin whose on_stop raised is still running when it is disabled. */
  lemma DisabledRunning(hooks: Hooks, w: World, n: string, w': World)
    requires n in w.states && hooks(w.trace, n, OnStop) == Raised
    requires var stopped := CallHook(w, n, OnStop);
             w' == if hooks(stopped.trace, n, OnDisable) == Raised then CallHook(stopped, n, OnDisable)
                   else SetState(CallHook(stopped, n, OnDisable), n, Disabled)
    ensures Lawful(hooks, {OnStop, OnDisable}, w, w')
  {
    var t0, t1 := w.trace + [HookCalled(n, OnStop)], w.trace + [HookCalled(n, OnStop)] + [HookCalled(n, OnDisable)];
    assert t0[..|w.trace|] == w.trace && t1[..|t0|] == t0 && t1[..|w.trace|] == w.trace;
    assert w'.trace[..|w.trace|] == w.trace && w'.trace[..|t0|] == t0 && w'.trace[..|t1|] == t1;
    forall m | m in w.states
      ensures w'.states[m] == StateAt(w, w'.trace, m)
    {
      assert StateAt(w, w.trace, m) == StateAt(w, t0, m) == StateAt(w, t1, m);
    }
    assert StateAt(w, w.trace, n) == StateAt(w, t0, n) == w.states[n];
    assert EventOk(hooks, w, w'.trace, |w.trace|);
    assert EventOk(hooks, w, w'.trace, |w.trace| + 1);
  }

  lemma PluginDisableLawful(hooks: Hooks, w: World, n: string)
    requires n in w.states
    ensures Lawful(hooks, {OnStop, OnDisable}, w, PluginDisable(hooks, w, n))
  {
    var hs := {OnStop, OnDisable};
    if w.states[n].Running? && hooks(w.trace, n, OnStop).Raised? {
      DisabledRunning(hooks, w, n, PluginDisable(hooks, w, n));
    } else {
      var stopped := if w.states[n].Running? then PluginStop(hooks, w, n) else w;
      PluginStopLawful(hooks, w, n);
      MoreHooks(hooks, {OnStop}, hs, w, PluginStop(hooks, w, n));
      if hooks(stopped.trace, n, OnDisable).Raised? {
        CallOnly(hooks, hs, stopped, n, OnDisable);
      } else {
        CallAndSet(hooks, hs, stopped, n, OnDisable, Disabled);
      }
      LawfulJoined(hooks, hs, w, stopped, PluginDisable(hooks, w, n));
    }
  }

  lemma {:induction false} LoadLawful(g: Graph, rank: map<string, nat>, hooks: Hooks, w: World, n: string)
    requires Matches(g, w) && Descends(g, w, rank) && n in g.depends && n in rank
    ensures Lawful(hooks, {OnLoad}, w, Load(g, rank, hooks, w, n))
    decreases rank[n], 1, 0
  {
    var v := LoadDependencies(g, rank, hooks, w, n, |g.depends[n]|);
    LoadDependenciesLawful(g, rank, hooks, w, n, |g.depends[n]|);
    PluginLoadLawful(hooks, v, n);
    LawfulJoined(hooks, {OnLoad}, w, v, PluginLoad(hooks, v, n));
  }

  lemma {:induction false} LoadDependenciesLawful(g: Graph, rank: map<string, nat>, hooks: Hooks, w: World, n: string,
                                                  k: nat)
    requires Matches(g, w) && Descends(g, w, rank) && n in g.depends && n in rank && k <= |g.depends[n]|
    ensures Lawful(hooks, {OnLoad}, w, LoadDependencies(g, rank, hooks, w, n, k))
    decreases rank[n], 0, k
  {
    if k > 0 {
      LoadDependenciesLawful(g, rank, hooks, w, n, k - 1);
      var v, d := LoadDependencies(g, rank, hooks, w, n, k - 1), g.depends[n][k - 1];
      if d in g.depends && Pending(v.states[d]) {
        assert DependsOn(g, n, d);
        LoadLawful(g, rank, hooks, v, d);
        LawfulJoined(hooks, {OnLoad}, w, v, Load(g, rank, hooks, v, d));
      }
    }
  }

  lemma EnablerLawful(g: Graph, rank: map<string, nat>, hooks: Hooks, w: World, n: string)
    requires Ranked(g, rank) && Matches(g, w)
    ensures Lawful(hooks, {OnLoad, OnEnable}, w, Enabler(g, rank, hooks)(w, n))
  {
    if n in g.depends {
      var v := Load(g, rank, hooks, w, n);
      LoadLawful(g, rank, hooks, w, n);
      MoreHooks(hooks, {OnLoad}, {OnLoad, OnEnable}, w, v);
      PluginEnableLawful(hooks, v, n);
      LawfulJoined(hooks, {OnLoad, OnEnable}, w, v, PluginEnable(hooks, v, n));
    }
  }

  lemma {:induction false} EachEnabledLawful(g: Graph, rank: map<string, nat>, order: seq<string>, hooks: Hooks,
                                             w: World, k: nat)
    requires Ranked(g, rank) && Matches(g, w) && k <= |order|
    ensures Lawful(hooks, {OnLoad, OnEnable}, w, Each(Enabler(g, rank, hooks), order, w, k))
  {
    if k > 0 {
      EachEnabledLawful(g, rank, order, hooks, w, k - 1);
      EachMatches(g, rank, order, hooks, w, k - 1);
      var v := Each(Enabler(g, rank, hooks), order, w, k - 1);
      EnablerLawful(g, rank, hooks, v, order[k - 1]);
      LawfulJoined(hooks, {OnLoad, OnEnable}, w, v, Enabler(g, rank, hooks)(v, order[k - 1]));
    }
  }

  /** Every run of enable_all is lawful, on every graph, from every world and for every behaviour of the hooks. */
  lemma EnableAllLawful(g: Graph, hooks: Hooks, w: World)
    requires WellFormed(g) && Matches(g, w)
    ensures match EnableAll(g, hooks, w)
            case None => true
            case Some(w') => Lawful(hooks, {OnLoad, OnEnable}, w, w')
  {
    TopoOrderCorrect(g);
    if TopoOrder(g).Some? {
      var order := TopoOrder(g).value;
      PositionsRank(g, order);
      EachEnabledLawful(g, RankOf(order), order, hooks, w, |order|);
    }
  }

  lemma {:induction false} DisableEachLawful(hooks: Hooks, names: seq<string>, w: World, k: nat)
    requires k <= |names|
    ensures Lawful(hooks, {OnStop, OnDisable}, w, DisableEach(hooks, names, w, k))
  {
    if k > 0 {
      DisableEachLawful(hooks, names, w, k - 1);
      var v := DisableEach(hooks, names, w, k - 1);
      if names[k - 1] in v.states {
        PluginDisableLawful(hooks, v, names[k - 1]);
        LawfulJoined(hooks, {OnStop, OnDisable}, w, v, PluginDisable(hooks, v, names[k - 1]));
      }
    }
  }

  /** So is every run of disable_all. */
  lemma DisableAllLawful(g: Graph, hooks: Hooks, w: World)
    requires WellFormed(g) && Matches(g, w)
    ensures match DisableAll(g, hooks, w)
            case None => true
            case Some(w') => Lawful(hooks, {OnStop, OnDisable}, w, w')
  {
    if TopoOrder(g).Some? {
      DisableEachLawful(hooks, Reversed(TopoOrder(g).value), w, |Reversed(TopoOrder(g).value)|);
    }
  }

  // ----- what a lawful run ends with

  predicate Answers(hooks: Hooks, t: seq<Event>, i: int, o: Outcome) {
    0 <= i < |t| && t[i].HookCalled? && hooks(t[..i], t[i].name, t[i].hook) == o
  }

  /** The last call of a hook of a plugin among the first k events from lo on, or -1. */
  function LastCall(t: seq<Event>, lo: nat, k: nat, n: string, h: Hook): (i: int)
    requires k <= |t|
    ensures -1 <= i < k
    ensures i != -1 ==> i >= lo && t[i] == HookCalled(n, h)
  {
    if k <= lo then -1 else if t[k - 1] == HookCalled(n, h) then k - 1 else LastCall(t, lo, k - 1, n, h)
  }

  /** The event before index k is no call for n whose change is still to come. */
  ghost predicate Settled(hooks: Hooks, w0: World, t: seq<Event>, k: nat, n: string)
    requires k <= |t|
  {
    k > |w0.trace| && t[k - 1].HookCalled? && t[k - 1].name == n ==> Answers(hooks, t, k - 1, Falsy)
  }

  lemma StateBefore(w0: World, t: seq<Event>, k: nat, n: string)
    requires n in w0.states && |w0.trace| < k <= |t|
    ensures StateAt(w0, t[..k], n)
            == if t[k - 1].StateSet? && t[k - 1].name == n then t[k - 1].to else StateAt(w0, t[..k - 1], n)
  {
    assert t[..k][..k - 1] == t[..k - 1];
  }

  /** What the calls so far say of a plugin that was registered. */
  ghost predicate Told(hooks: Hooks, w0: World, t: seq<Event>, k: nat, n: string)
    requires n in w0.states && k <= |t|
  {
    var s, lo := StateAt(w0, t[..k], n), |w0.trace|;
    var loaded := Answers(hooks, t, LastCall(t, lo, k, n, OnLoad), Truthy);
    var enabled := Answers(hooks, t, LastCall(t, lo, k, n, OnEnable), Truthy);
    (s == Enabled <==> enabled) && (s == Loaded || s == Enabled ==> loaded) && s != Running
  }

  /** What a call and the change behind it say. */
  lemma CallAndChange(hooks: Hooks, w0: World, w: World, k: nat, n: string)
    requires Lawful(hooks, {OnLoad, OnEnable}, w0, w) && n in w0.states && |w0.trace| + 1 < k <= |w.trace|
    requires w.trace[k - 1].StateSet? && w.trace[k - 1].name == n
    ensures var before, after := StateAt(w0, w.trace[..k - 2], n), StateAt(w0, w.trace[..k], n);
            var call := w.trace[k - 2];
            && (call == HookCalled(n, OnLoad) || call == HookCalled(n, OnEnable))
            && !Answers(hooks, w.trace, k - 2, Falsy)
            && (call.hook.OnEnable? <==> before == Loaded) && before != Enabled && before != Running
            && after == if !Answers(hooks, w.trace, k - 2, Truthy) then Error
                        else if call.hook.OnLoad? then Loaded else Enabled
  {
    assert EventOk(hooks, w0, w.trace, k - 1) && EventOk(hooks, w0, w.trace, k - 2);
    assert w.trace[k - 2].hook in {OnLoad, OnEnable};
    StateBefore(w0, w.trace, k, n);
  }

  /** A call whose change follows at once. */
  lemma ToldAfterChange(hooks: Hooks, w0: World, w: World, k: nat, n: string)
    requires Lawful(hooks, {OnLoad, OnEnable}, w0, w) && n in w0.states && |w0.trace| + 1 < k <= |w.trace|
    requires w.trace[k - 1].StateSet? && w.trace[k - 1].name == n && Told(hooks, w0, w.trace, k - 2, n)
    ensures Told(hooks, w0, w.trace, k, n)
  {
    CallAndChange(hooks, w0, w, k, n);
  }

  /** An event that changes nothing for n: a falsy call, or one that concerns another plugin. */
  lemma ToldAfterOther(hooks: Hooks, w0: World, w: World, k: nat, n: string)
    requires Lawful(hooks, {OnLoad, OnEnable}, w0, w) && n in w0.states && |w0.trace| < k <= |w.trace|
    requires !(w.trace[k - 1].StateSet? && w.trace[k - 1].name == n) && Settled(hooks, w0, w.trace, k, n)
    requires Told(hooks, w0, w.trace, k - 1, n)
    ensures Told(hooks, w0, w.trace, k, n)
  {
    assert EventOk(hooks, w0, w.trace, k - 1);
    StateBefore(w0, w.trace, k, n);
  }

  lemma {:induction false} ToldSoFar(hooks: Hooks, w0: World, w: World, k: nat, n: string)
    requires Lawful(hooks, {OnLoad, OnEnable}, w0, w) && n in w0.states && w0.states[n] == Registered
    requires |w0.trace| <= k <= |w.trace| && Settled(hooks, w0, w.trace, k, n)
    ensures Told(hooks, w0, w.trace, k, n)
  {
    if k > |w0.trace| {
      var last := w.trace[k - 1];
      assert EventOk(hooks, w0, w.trace, k - 1);
      if last.StateSet? && last.name == n {
        if k - 2 > |w0.trace| {
          assert EventOk(hooks, w0, w.trace, k - 3);
        }
        ToldSoFar(hooks, w0, w, k - 2, n);
        ToldAfterChange(hooks, w0, w, k, n);
      } else {
        if k - 1 > |w0.trace| {
          assert EventOk(hooks, w0, w.trace, k - 2);
        }
        ToldSoFar(hooks, w0, w, k - 1, n);
        ToldAfterOther(hooks, w0, w, k, n);
      }
    }
  }

  /**
   After enable_all, whatever the hooks returned: a plugin that was registered ends enabled if and only if its last
   on_load and its last on_enable were called and both returned truthy.
   */
  lemma EnabledExactly(g: Graph, hooks: Hooks, w: World, n: string)
    requires WellFormed(g) && Matches(g, w) && n in w.states && w.states[n] == Registered
    ensures match EnableAll(g, hooks, w)
            case None => true
            case Some(w') =>
              var load := LastCall(w'.trace, |w.trace|, |w'.trace|, n, OnLoad);
              var enable := LastCall(w'.trace, |w.trace|, |w'.trace|, n, OnEnable);
              w'.states[n] == Enabled <==>
                Answers(hooks, w'.trace, load, Truthy) && Answers(hooks, w'.trace, enable, Truthy)
  {
    EnableAllLawful(g, hooks, w);
    if EnableAll(g, hooks, w).Some? {
      var w' := EnableAll(g, hooks, w).value;
      var k := |w'.trace|;
      assert w'.trace[..k] == w'.trace;
      if k > |w.trace| {
        assert EventOk(hooks, w, w'.trace, k - 1);
      }
      ToldSoFar(hooks, w, w', k, n);
    }
  }

  // ----- which hooks one plugin has called

  /** The calls among some events. */
  function Calls(t: seq<Event>): seq<(string, Hook)> {
    if t == [] then []
    else
      var last := t[|t| - 1];
      Calls(t[..|t| - 1]) + if last.HookCalled? then [(last.name, last.hook)] else []
  }

  lemma {:induction false} CallsJoined(t: seq<Event>, u: seq<Event>)
    ensures Calls(t + u) == Calls(t) + Calls(u)
  {
    if u == [] {
      assert t + u == t;
    } else {
      assert (t + u)[..|t + u| - 1] == t + u[..|u| - 1];
      CallsJoined(t, u[..|u| - 1]);
    }
  }

  /** w' comes from w by these calls, and the changes that belong to them. */
  ghost predicate Made(w: World, w': World, calls: seq<(string, Hook)>) {
    w.trace <= w'.trace && Calls(w'.trace) == Calls(w.trace) + calls
  }

  lemma MadeJoined(w0: World, w: World, w': World, a: seq<(string, Hook)>, b: seq<(string, Hook)>)
    requires Made(w0, w, a) && Made(w, w', b)
    ensures Made(w0, w', a + b)
  {
    assert Calls(w0.trace) + a + b == Calls(w0.trace) + (a + b);
  }

  lemma CallMade(w: World, n: string, h: Hook, s: PluginState)
    requires n in w.states
    ensures Made(w, CallHook(w, n, h), [(n, h)]) && Made(w, SetState(CallHook(w, n, h), n, s), [(n, h)])
  {
    var t := w.trace + [HookCalled(n, h)];
    assert t[..|w.trace|] == w.trace && (t + [StateSet(n, w.states[n], s)])[..|t|] == t;
  }

  /** load calls on_load unless the plugin is up. */
  lemma PluginLoadCalls(hooks: Hooks, w: World, n: string)
    requires n in w.states
    ensures var s := w.states[n];
            Made(w, PluginLoad(hooks, w, n), if s == Loaded || s == Enabled || s == Running then [] else [(n, OnLoad)])
  {
    CallMade(w, n, OnLoad, Loaded);
    CallMade(w, n, OnLoad, Error);
  }

  /**
   enable first calls on_load, once more if need be, for a plugin that is registered; then on_enable exactly if the
   plugin is loaded now.
   */
  lemma PluginEnableCalls(hooks: Hooks, w: World, n: string)
    requires n in w.states
    ensures var s := w.states[n];
            var loads := if s == Registered then [(n, OnLoad)] else [];
            var enables := s == Loaded || (s == Registered && hooks(w.trace, n, OnLoad) == Truthy);
            Made(w, PluginEnable(hooks, w, n), loads + if enables then [(n, OnEnable)] else [])
  {
    if !w.states[n].Running? {
      var loaded := if w.states[n].Registered? then PluginLoad(hooks, w, n) else w;
      PluginLoadCalls(hooks, w, n);
      CallMade(loaded, n, OnEnable, Enabled);
      CallMade(loaded, n, OnEnable, Error);
      if loaded.states[n].Loaded? {
        MadeJoined(w, loaded, PluginEnable(hooks, w, n), if w.states[n].Registered? then [(n, OnLoad)] else [],
                   [(n, OnEnable)]);
      }
    }
  }

  lemma PluginStopCalls(hooks: Hooks, w: World, n: string)
    requires n in w.states
    ensures Made(w, PluginStop(hooks, w, n), [(n, OnStop)])
  {
    CallMade(w, n, OnStop, Enabled);
  }

  /** disable calls on_stop first for a running plugin, and on_disable in any case. */
  lemma PluginDisableCalls(hooks: Hooks, w: World, n: string)
    requires n in w.states
    ensures Made(w, PluginDisable(hooks, w, n),
                 (if w.states[n] == Running then [(n, OnStop)] else []) + [(n, OnDisable)])
  {
    var stopped := if w.states[n].Running? then PluginStop(hooks, w, n) else w;
    PluginStopCalls(hooks, w, n);
    CallMade(stopped, n, OnDisable, Disabled);
    MadeJoined(w, stopped, PluginDisable(hooks, w, n), if w.states[n] == Running then [(n, OnStop)] else [],
               [(n, OnDisable)]);
  }
}
