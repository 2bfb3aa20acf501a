/**
 Which plugins a load touches and in which order, whatever the hooks return: all it reaches along dependencies that were
 registered or unloaded, each after its own.
 */
module LoadTraces {
  import opened Common
  import opened DependencyGraph
  import opened PluginLifecycle
  import opened PluginTraces

  /** d was registered or unloaded when the load began. */
  predicate Waiting(w0: World, d: string) {
    d in w0.states && (w0.states[d] == Registered || w0.states[d] == Unloaded)
  }

  /** An on_load of d was called between two points of a trace. */
  ghost predicate Called(t: seq<Event>, d: string, lo: nat, hi: nat) {
    exists j: nat :: lo <= j < hi && j < |t| && t[j] == HookCalled(d, OnLoad)
  }

  lemma CalledLonger(t: seq<Event>, u: seq<Event>, d: string, lo: nat, hi: nat, hi': nat)
    requires Called(t, d, lo, hi) && t <= u && hi <= hi'
    ensures Called(u, d, lo, hi')
  {
    var j: nat :| lo <= j < hi && j < |t| && t[j] == HookCalled(d, OnLoad);
    assert u[j] == HookCalled(d, OnLoad);
  }

  /** A state that is no longer what it was changed after a call. */
  lemma {:induction false} ChangedIsCalled(hooks: Hooks, w0: World, w: World, k: nat, d: string)
    requires Lawful(hooks, {OnLoad}, w0, w) && d in w0.states && |w0.trace| <= k <= |w.trace|
    requires StateAt(w0, w.trace[..k], d) != w0.states[d]
    ensures Called(w.trace, d, |w0.trace|, k)
    ensures StateAt(w0, w.trace[..k], d) == Loaded || StateAt(w0, w.trace[..k], d) == Error
  {
    StateBefore(w0, w.trace, k, d);
    var last := w.trace[k - 1];
    if last.StateSet? && last.name == d {
      assert EventOk(hooks, w0, w.trace, k - 1) && EventOk(hooks, w0, w.trace, k - 2);
      assert w.trace[k - 2].hook in {OnLoad};
      assert w.trace[k - 2] == HookCalled(d, OnLoad);
    } else {
      ChangedIsCalled(hooks, w0, w, k - 1, d);
      CalledLonger(w.trace, w.trace, d, |w0.trace|, k - 1, k);
    }
  }

  /** A plugin that is registered or unloaded now was so from the start; one that was and is not has been called. */
  lemma WaitingOrCalled(hooks: Hooks, w0: World, w: World, d: string)
    requires Lawful(hooks, {OnLoad}, w0, w) && d in w0.states
    ensures Pending(w.states[d]) ==> Waiting(w0, d) && w.states[d] == w0.states[d]
    ensures Waiting(w0, d) && !Pending(w.states[d]) ==> Called(w.trace, d, |w0.trace|, |w.trace|)
  {
    assert w.trace[..|w.trace|] == w.trace;
    if w.states[d] != w0.states[d] {
      ChangedIsCalled(hooks, w0, w, |w.trace|, d);
    }
  }

  /** Every on_load since w0 comes after one for each registered dependency that was waiting then. */
  ghost predicate InOrder(g: Graph, w0: World, t: seq<Event>) {
    forall i: nat, d {:trigger DependsOn(g, t[i].name, d)} ::
      |w0.trace| <= i < |t| && t[i] == HookCalled(t[i].name, OnLoad) && DependsOn(g, t[i].name, d) && Waiting(w0, d) ==>
        Called(t, d, |w0.trace|, i)
  }

  /** All new events are about names of s. */
  ghost predicate Within(w0: World, t: seq<Event>, s: set<string>) {
    forall i :: |w0.trace| <= i < |t| ==> t[i].name in s
  }

  /** What holds during a load that began in w0, if the names of s lead only to names of s. */
  ghost predicate Loading(g: Graph, hooks: Hooks, w0: World, w: World, s: set<string>) {
    && Matches(g, w0) && Lawful(hooks, {OnLoad}, w0, w) && InOrder(g, w0, w.trace) && Within(w0, w.trace, s)
    && forall n, d {:trigger DependsOn(g, n, d)} :: n in s && DependsOn(g, n, d) && Waiting(w0, d) ==> d in s
  }

  lemma OneEventMore(g: Graph, w0: World, t: seq<Event>, e: Event)
    requires |w0.trace| <= |t| && InOrder(g, w0, t)
    requires e == HookCalled(e.name, OnLoad) ==>
               forall d :: DependsOn(g, e.name, d) && Waiting(w0, d) ==> Called(t, d, |w0.trace|, |t|)
    ensures InOrder(g, w0, t + [e])
  {
    var u := t + [e];
    forall i: nat, d | |w0.trace| <= i < |u| && u[i] == HookCalled(u[i].name, OnLoad)
                       && DependsOn(g, u[i].name, d) && Waiting(w0, d)
      ensures Called(u, d, |w0.trace|, i)
    {
      if i < |t| {
        assert DependsOn(g, t[i].name, d);
        CalledLonger(t, u, d, |w0.trace|, i, i);
      } else {
        CalledLonger(t, u, d, |w0.trace|, |t|, i);
      }
    }
  }

  lemma LoadedInOrder(g: Graph, hooks: Hooks, w0: World, w: World, n: string)
    requires |w0.trace| <= |w.trace| && InOrder(g, w0, w.trace) && n in w.states
    requires forall d :: DependsOn(g, n, d) && Waiting(w0, d) ==> Called(w.trace, d, |w0.trace|, |w.trace|)
    ensures InOrder(g, w0, PluginLoad(hooks, w, n).trace)
  {
    var t := w.trace + [HookCalled(n, OnLoad)];
    OneEventMore(g, w0, w.trace, HookCalled(n, OnLoad));
    OneEventMore(g, w0, t, StateSet(n, w.states[n], Loaded));
    OneEventMore(g, w0, t, StateSet(n, w.states[n], Error));
  }

  lemma LoadedIsCalled(hooks: Hooks, w0: World, w: World, n: string)
    requires Lawful(hooks, {OnLoad}, w0, w) && n in w0.states && !Up(w0.states[n])
    ensures var r := PluginLoad(hooks, w, n); Called(r.trace, n, |w0.trace|, |r.trace|)
  {
    if Up(w.states[n]) {
      assert w.trace[..|w.trace|] == w.trace;
      ChangedIsCalled(hooks, w0, w, |w.trace|, n);
    } else {
      assert PluginLoad(hooks, w, n).trace[|w.trace|] == HookCalled(n, OnLoad);
    }
  }

  lemma LoadedWithin(hooks: Hooks, w0: World, w: World, n: string, s: set<string>)
    requires |w0.trace| <= |w.trace| && Within(w0, w.trace, s) && n in w.states && n in s
    ensures Within(w0, PluginLoad(hooks, w, n).trace, s)
  {
  }

  lemma PluginLoading(g: Graph, hooks: Hooks, w0: World, w: World, n: string, s: set<string>)
    requires Loading(g, hooks, w0, w, s) && n in w.states && n in s
    requires forall d :: DependsOn(g, n, d) && Waiting(w0, d) ==> Called(w.trace, d, |w0.trace|, |w.trace|)
    ensures var r := PluginLoad(hooks, w, n);
            Loading(g, hooks, w0, r, s) && (Up(w0.states[n]) || Called(r.trace, n, |w0.trace|, |r.trace|))
  {
    PluginLoadLawful(hooks, w, n);
    LawfulJoined(hooks, {OnLoad}, w0, w, PluginLoad(hooks, w, n));
    LoadedInOrder(g, hooks, w0, w, n);
    LoadedWithin(hooks, w0, w, n, s);
    if !Up(w0.states[n]) {
      LoadedIsCalled(hooks, w0, w, n);
    }
  }

  lemma {:induction false} LoadLoading(g: Graph, rank: map<string, nat>, hooks: Hooks, w0: World, w: World, n: string,
                                       s: set<string>)
    requires Matches(g, w) && Descends(g, w, rank) && n in g.depends && n in rank && n in s
    requires Loading(g, hooks, w0, w, s)
    ensures var r := Load(g, rank, hooks, w, n);
            Loading(g, hooks, w0, r, s) && (Up(w0.states[n]) || Called(r.trace, n, |w0.trace|, |r.trace|))
    decreases rank[n], 1, 0
  {
    var k := |g.depends[n]|;
    var v := LoadDependencies(g, rank, hooks, w, n, k);
    DependenciesLoading(g, rank, hooks, w0, w, n, s, k);
    forall d | DependsOn(g, n, d) && Waiting(w0, d)
      ensures Called(v.trace, d, |w0.trace|, |v.trace|)
    {
      var j: nat :| j < k && g.depends[n][j] == d;
    }
    PluginLoading(g, hooks, w0, v, n, s);
  }

  lemma {:induction false} DependenciesLoading(g: Graph, rank: map<string, nat>, hooks: Hooks, w0: World, w: World,
                                               n: string, s: set<string>, k: nat)
    requires Matches(g, w) && Descends(g, w, rank) && n in g.depends && n in rank && n in s
    requires Loading(g, hooks, w0, w, s) && k <= |g.depends[n]|
    ensures var r := LoadDependencies(g, rank, hooks, w, n, k);
            && Loading(g, hooks, w0, r, s)
            && forall j: nat :: j < k && Waiting(w0, g.depends[n][j]) ==>
                                  Called(r.trace, g.depends[n][j], |w0.trace|, |r.trace|)
    decreases rank[n], 0, k + 1
  {
    if k > 0 {
      DependenciesLoading(g, rank, hooks, w0, w, n, s, k - 1);
      var v, d := LoadDependencies(g, rank, hooks, w, n, k - 1), g.depends[n][k - 1];
      var r := LoadDependency(g, rank, hooks, v, n, d);
      DependencyLoading(g, rank, hooks, w0, v, n, d, s);
      forall j: nat | j < k && Waiting(w0, g.depends[n][j])
        ensures Called(r.trace, g.depends[n][j], |w0.trace|, |r.trace|)
      {
        if j < k - 1 {
          CalledLonger(v.trace, r.trace, g.depends[n][j], |w0.trace|, |v.trace|, |r.trace|);
        }
      }
    }
  }

  lemma {:induction false} DependencyLoading(g: Graph, rank: map<string, nat>, hooks: Hooks, w0: World, v: World,
                                             n: string, d: string, s: set<string>)
    requires Matches(g, v) && Descends(g, v, rank) && n in g.depends && n in rank && n in s && d in g.depends[n]
    requires Loading(g, hooks, w0, v, s)
    ensures var r := LoadDependency(g, rank, hooks, v, n, d);
            && Loading(g, hooks, w0, r, s) && v.trace <= r.trace
            && (Waiting(w0, d) ==> Called(r.trace, d, |w0.trace|, |r.trace|))
    decreases rank[n], 0, 0
  {
    if d in g.depends {
      WaitingOrCalled(hooks, w0, v, d);
      if Pending(v.states[d]) {
        assert DependsOn(g, n, d);
        LoadLoading(g, rank, hooks, w0, v, d, s);
        LoadLawful(g, rank, hooks, v, d);
      }
    }
  }

  lemma NewCall(hooks: Hooks, w0: World, w: World, i: nat)
    requires Lawful(hooks, {OnLoad}, w0, w) && |w0.trace| <= i < |w.trace| && w.trace[i].HookCalled?
    ensures w.trace[i].name in w0.states && w.trace[i].hook == OnLoad
    ensures !Up(StateAt(w0, w.trace[..i], w.trace[i].name))
  {
    assert EventOk(hooks, w0, w.trace, i);
    assert w.trace[i].hook in {OnLoad};
  }

  lemma NewChange(hooks: Hooks, w0: World, w: World, i: nat)
    requires Lawful(hooks, {OnLoad}, w0, w) && |w0.trace| <= i < |w.trace| && w.trace[i].StateSet?
    ensures i > |w0.trace| && w.trace[i - 1].HookCalled? && w.trace[i - 1].name == w.trace[i].name
  {
    assert EventOk(hooks, w0, w.trace, i);
  }

  /** A plugin that is up is not called and so stays as it is. */
  lemma {:induction false} UpStays(hooks: Hooks, w0: World, w: World, k: nat, n: string)
    requires Lawful(hooks, {OnLoad}, w0, w) && n in w0.states && Up(w0.states[n]) && |w0.trace| <= k <= |w.trace|
    ensures StateAt(w0, w.trace[..k], n) == w0.states[n]
  {
    if k > |w0.trace| {
      UpStays(hooks, w0, w, k - 1, n);
      StateBefore(w0, w.trace, k, n);
      if w.trace[k - 1].StateSet? && w.trace[k - 1].name == n {
        NewChange(hooks, w0, w, k - 1);
        NewCall(hooks, w0, w, k - 2);
        UpStays(hooks, w0, w, k - 2, n);
        assert false;
      }
    }
  }

  lemma UpIsNotCalled(hooks: Hooks, w0: World, w: World, n: string)
    requires Lawful(hooks, {OnLoad}, w0, w) && n in w0.states && Up(w0.states[n])
    ensures !Called(w.trace, n, |w0.trace|, |w.trace|)
  {
    if Called(w.trace, n, |w0.trace|, |w.trace|) {
      var i: nat :| |w0.trace| <= i < |w.trace| && w.trace[i] == HookCalled(n, OnLoad);
      UpStays(hooks, w0, w, i, n);
      NewCall(hooks, w0, w, i);
      assert false;
    }
  }

  /**
   A load calls on_load of its plugin unless that is up, and every on_load comes after one for each registered
   dependency that was registered or unloaded when the load began. It touches only names of every set that holds the
   plugin and, with a name, its registered dependencies in one of these states.
   */
  lemma LoadExactly(g: Graph, rank: map<string, nat>, hooks: Hooks, w: World, n: string, s: set<string>)
    requires Matches(g, w) && Descends(g, w, rank) && n in g.depends && n in rank && n in s
    requires forall m, d {:trigger DependsOn(g, m, d)} :: m in s && DependsOn(g, m, d) && Waiting(w, d) ==> d in s
    ensures var r := Load(g, rank, hooks, w, n);
            && InOrder(g, w, r.trace) && Within(w, r.trace, s) && w.trace <= r.trace
            && (Called(r.trace, n, |w.trace|, |r.trace|)
                <==> w.states[n] != Loaded && w.states[n] != Enabled && w.states[n] != Running)
  {
    Nothing(hooks, {OnLoad}, w);
    LoadLoading(g, rank, hooks, w, w, n, s);
    var r := Load(g, rank, hooks, w, n);
    if Up(w.states[n]) && Called(r.trace, n, |w.trace|, |r.trace|) {
      UpIsNotCalled(hooks, w, r, n);
    }
  }

  // ----- the dependencies are taken in the order in which they are listed

  /** The dependencies that a load of n has to load, as listed. */
  function WaitingOf(w: World, depends: seq<string>): seq<(string, Hook)> {
    if depends == [] then []
    else
      var d := depends[|depends| - 1];
      WaitingOf(w, depends[..|depends| - 1]) + if Waiting(w, d) then [(d, OnLoad)] else []
  }

  /** None of the first k dependencies of n has one to wait for, and none is listed twice. */
  ghost predicate Shallow(g: Graph, w: World, n: string, k: nat)
    requires n in g.depends && k <= |g.depends[n]|
  {
    && NoDuplicates(g.depends[n][..k])
    && forall j, d :: 0 <= j < k && DependsOn(g, g.depends[n][j], d) ==> !Waiting(w, d)
  }

  lemma OthersUntouched(hooks: Hooks, w: World, n: string, m: string)
    requires n in w.states && m in w.states && m != n
    ensures PluginLoad(hooks, w, n).states[m] == w.states[m]
  {
  }

  /** What the first k dependencies leave, if their names are all in `list`. */
  ghost predicate Listed(w: World, v: World, list: seq<string>) {
    && v.states.Keys == w.states.Keys && Made(w, v, WaitingOf(w, list))
    && (forall m :: m in w.states && (m !in list || !Waiting(w, m)) ==> v.states[m] == w.states[m])
  }

  lemma ListedNext(g: Graph, rank: map<string, nat>, hooks: Hooks, w: World, v: World, list: seq<string>, d: string)
    requires Matches(g, w) && Matches(g, v) && Descends(g, v, rank) && d in g.depends && d in rank && d !in list
    requires Waiting(w, d) && Listed(w, v, list) && forall e :: DependsOn(g, d, e) ==> !Waiting(w, e)
    ensures Load(g, rank, hooks, v, d) == PluginLoad(hooks, v, d)
    ensures Listed(w, PluginLoad(hooks, v, d), list + [d])
  {
    forall e | DependsOn(g, d, e)
      ensures !Pending(v.states[e])
    {
      assert !Waiting(w, e);
    }
    NothingToLoad(g, rank, hooks, v, d, |g.depends[d]|);
    PluginLoadCalls(hooks, v, d);
    MadeJoined(w, v, PluginLoad(hooks, v, d), WaitingOf(w, list), [(d, OnLoad)]);
    assert (list + [d])[..|list|] == list;
  }

  lemma ListedSkip(w: World, v: World, list: seq<string>, d: string)
    requires Listed(w, v, list) && !Waiting(w, d)
    ensures Listed(w, v, list + [d])
  {
    assert (list + [d])[..|list|] == list;
    assert WaitingOf(w, list + [d]) == WaitingOf(w, list);
  }

  lemma {:induction false} ListedCalls(g: Graph, rank: map<string, nat>, hooks: Hooks, w: World, n: string, k: nat)
    requires Matches(g, w) && Descends(g, w, rank) && n in g.depends && n in rank && k <= |g.depends[n]|
    requires Shallow(g, w, n, k)
    ensures Listed(w, LoadDependencies(g, rank, hooks, w, n, k), g.depends[n][..k])
  {
    if k == 0 {
      assert Calls(w.trace) + [] == Calls(w.trace);
    } else {
      var list, d := g.depends[n][..k - 1], g.depends[n][k - 1];
      assert g.depends[n][..k] == list + [d];
      assert d !in list by {
        assert forall j :: 0 <= j < k - 1 ==> g.depends[n][..k][j] != g.depends[n][..k][k - 1];
      }
      assert Shallow(g, w, n, k - 1) by {
        assert forall j :: 0 <= j < k - 1 ==> list[j] == g.depends[n][..k][j];
      }
      ListedCalls(g, rank, hooks, w, n, k - 1);
      var v := LoadDependencies(g, rank, hooks, w, n, k - 1);
      if Waiting(w, d) {
        assert DependsOn(g, n, d);
        ListedNext(g, rank, hooks, w, v, list, d);
      } else {
        ListedSkip(w, v, list, d);
      }
    }
  }

  /** So if the dependencies have none to wait for themselves, on_load is called for them as listed, and then for n. */
  lemma LoadAsListed(g: Graph, rank: map<string, nat>, hooks: Hooks, w: World, n: string)
    requires Matches(g, w) && Descends(g, w, rank) && n in g.depends && n in rank
    requires Shallow(g, w, n, |g.depends[n]|) && n !in g.depends[n]
    ensures var s := w.states[n];
            var own := if s == Loaded || s == Enabled || s == Running then [] else [(n, OnLoad)];
            Made(w, Load(g, rank, hooks, w, n), WaitingOf(w, g.depends[n]) + own)
  {
    var k := |g.depends[n]|;
    assert g.depends[n][..k] == g.depends[n];
    ListedCalls(g, rank, hooks, w, n, k);
    var v, s := LoadDependencies(g, rank, hooks, w, n, k), w.states[n];
    PluginLoadCalls(hooks, v, n);
    MadeJoined(w, v, PluginLoad(hooks, v, n), WaitingOf(w, g.depends[n]),
               if s == Loaded || s == Enabled || s == Running then [] else [(n, OnLoad)]);
  }
}
