/**
 When a direct load ends. load follows pending dependencies and keeps no record of the names it is loading, so unlike
 enable_all it has no test for a cycle; what decides is whether it can run into one.
 */
module DirectLoad {
  import opened Common
  import opened DependencyGraph
  import opened PluginLifecycle

  /** load of a calls load of b, if b is still pending by then. */
  predicate Follows(g: Graph, w: World, a: string, b: string)
    requires Matches(g, w)
  {
    DependsOn(g, a, b) && Pending(w.states[b])
  }

  predicate IsStep(g: Graph, w: World, p: seq<string>, i: nat)
    requires Matches(g, w)
  {
    i + 1 < |p| && Follows(g, w, p[i], p[i + 1])
  }

  /** A way the recursion of load can take. */
  ghost predicate IsDescent(g: Graph, w: World, p: seq<string>)
    requires Matches(g, w)
  {
    && p != [] && p[0] in g.depends
    && forall i: nat :: i < |p| - 1 ==> IsStep(g, w, p, i)
  }

  ghost predicate Reaches(g: Graph, w: World, n: string, m: string)
    requires Matches(g, w)
  {
    exists p :: IsDescent(g, w, p) && p[0] == n && p[|p| - 1] == m
  }

  /** A descent from n that comes back to a name it has passed. */
  ghost predicate RunsInCircles(g: Graph, w: World, n: string, p: seq<string>)
    requires Matches(g, w)
  {
    IsDescent(g, w, p) && p[0] == n && exists i :: 0 <= i < |p| - 1 && p[i] == p[|p| - 1]
  }

  function OnlyPending(w: World, names: seq<string>): (r: seq<string>)
    ensures forall d :: d in r <==> d in names && d in w.states && Pending(w.states[d])
  {
    if names == [] then []
    else
      var last := names[|names| - 1];
      OnlyPending(w, names[..|names| - 1]) + if last in w.states && Pending(w.states[last]) then [last] else []
  }

  /** The pending dependencies of what n reaches. */
  ghost function Followed(g: Graph, w: World, n: string): (f: Graph)
    requires Matches(g, w)
    ensures f.names == g.names && f.depends.Keys == g.depends.Keys
    ensures forall a, b :: DependsOn(f, a, b) <==> Follows(g, w, a, b) && Reaches(g, w, n, a)
  {
    var f := Graph(g.names, map a | a in g.depends :: if Reaches(g, w, n, a) then OnlyPending(w, g.depends[a]) else []);
    f
  }

  lemma OneFurther(g: Graph, w: World, n: string, a: string, b: string)
    requires Matches(g, w) && Reaches(g, w, n, a) && Follows(g, w, a, b)
    ensures Reaches(g, w, n, b)
  {
    var p :| IsDescent(g, w, p) && p[0] == n && p[|p| - 1] == a;
    var q := p + [b];
    forall i: nat | i < |q| - 1
      ensures IsStep(g, w, q, i)
    {
      assert i < |p| - 1 ==> IsStep(g, w, p, i);
    }
    assert q[0] == n && q[|q| - 1] == b;
  }

  lemma JoinedStep(g: Graph, w: World, p: seq<string>, c: seq<string>, i: nat)
    requires Matches(g, w) && p != [] && c != [] && p[|p| - 1] == c[0] && i < |p| + |c| - 2
    requires if i < |p| - 1 then IsStep(g, w, p, i) else IsStep(g, w, c, i - (|p| - 1))
    ensures IsStep(g, w, p + c[1..], i)
  {
    var q := p + c[1..];
    if i >= |p| - 1 {
      assert q[i] == c[i - (|p| - 1)] && q[i + 1] == c[i - (|p| - 1) + 1];
    }
  }

  lemma Joined(g: Graph, w: World, p: seq<string>, c: seq<string>)
    requires Matches(g, w) && IsDescent(g, w, p) && |c| >= 2 && p[|p| - 1] == c[0] == c[|c| - 1]
    requires forall i: nat :: i < |c| - 1 ==> IsStep(g, w, c, i)
    ensures RunsInCircles(g, w, p[0], p + c[1..])
  {
    var q := p + c[1..];
    forall i: nat | i < |q| - 1
      ensures IsStep(g, w, q, i)
    {
      JoinedStep(g, w, p, c, i);
    }
    assert q[0] == p[0] && q[|p| - 1] == q[|q| - 1];
  }

  lemma CycleSteps(g: Graph, w: World, n: string, c: seq<string>, i: nat)
    requires Matches(g, w) && IsCycle(Followed(g, w, n), c) && i < |c| - 1
    ensures IsStep(g, w, c, i) && Reaches(g, w, n, c[i])
  {
    assert DependsOn(Followed(g, w, n), c[i], c[i + 1]);
  }

  /** A cycle among the followed dependencies is one that n runs into. */
  lemma CycleIsMet(g: Graph, w: World, n: string) returns (q: seq<string>)
    requires Matches(g, w) && Cyclic(Followed(g, w, n))
    ensures RunsInCircles(g, w, n, q)
  {
    var c :| IsCycle(Followed(g, w, n), c);
    forall i: nat | i < |c| - 1
      ensures IsStep(g, w, c, i)
    {
      CycleSteps(g, w, n, c, i);
    }
    CycleSteps(g, w, n, c, 0);
    var p :| IsDescent(g, w, p) && p[0] == n && p[|p| - 1] == c[0];
    Joined(g, w, p, c);
    q := p + c[1..];
  }

  lemma AcyclicIsRanked(g: Graph) returns (rank: map<string, nat>)
    requires WellFormed(g) && !Cyclic(g)
    ensures Ranked(g, rank)
  {
    TopoOrderCorrect(g);
    PositionsRank(g, TopoOrder(g).value);
    rank := RankOf(TopoOrder(g).value);
  }

  /** Without a circle to run into there is a rank that falls along all that n reaches. */
  lemma NoCircleIsRanked(g: Graph, w: World, n: string) returns (rank: map<string, nat>)
    requires WellFormed(g) && Matches(g, w) && n in g.depends && !exists p :: RunsInCircles(g, w, n, p)
    ensures n in rank && Descends(g, w, rank)
  {
    var f := Followed(g, w, n);
    if Cyclic(f) {
      var p := CycleIsMet(g, w, n);
      assert false;
    }
    var all := AcyclicIsRanked(f);
    rank := map m | m in all && Reaches(g, w, n, m) :: all[m];
    assert IsDescent(g, w, [n]) && [n][0] == n;
    assert n in f.depends;
    forall a, b | a in rank && DependsOn(g, a, b) && Pending(w.states[b])
      ensures b in rank && rank[b] < rank[a]
    {
      assert Follows(g, w, a, b);
      assert DependsOn(f, a, b);
      OneFurther(g, w, n, a, b);
    }
  }

  // ----- the recursion itself, cut off at a depth: None when it is not done by then

  function LoadNamed(hooks: Hooks, w: World, n: string): World {
    if n in w.states then PluginLoad(hooks, w, n) else w
  }

  function LoadWithin(g: Graph, hooks: Hooks, w: World, n: string, depth: nat): Option<World>
    requires n in g.depends
    decreases depth, 0, 0
  {
    if depth == 0 then None
    else
      match DependenciesWithin(g, hooks, w, n, |g.depends[n]|, depth - 1)
      case None => None
      case Some(v) => Some(LoadNamed(hooks, v, n))
  }

  function DependenciesWithin(g: Graph, hooks: Hooks, w: World, n: string, k: nat, depth: nat): Option<World>
    requires n in g.depends && k <= |g.depends[n]|
    decreases depth, 2, k
  {
    if k == 0 then Some(w)
    else
      match DependenciesWithin(g, hooks, w, n, k - 1, depth)
      case None => None
      case Some(v) => DependencyWithin(g, hooks, v, g.depends[n][k - 1], depth)
  }

  function DependencyWithin(g: Graph, hooks: Hooks, w: World, d: string, depth: nat): Option<World>
    decreases depth, 1, 0
  {
    if d in g.depends && d in w.states && Pending(w.states[d]) then LoadWithin(g, hooks, w, d, depth) else Some(w)
  }

  /** A load that ends within a depth ends in the same world within any greater one. */
  lemma {:induction false} Deeper(g: Graph, hooks: Hooks, w: World, n: string, depth: nat, more: nat)
    requires n in g.depends && depth <= more && LoadWithin(g, hooks, w, n, depth).Some?
    ensures LoadWithin(g, hooks, w, n, more) == LoadWithin(g, hooks, w, n, depth)
    decreases depth, 0, 0
  {
    DependenciesDeeper(g, hooks, w, n, |g.depends[n]|, depth - 1, more - 1);
  }

  lemma {:induction false} DependenciesDeeper(g: Graph, hooks: Hooks, w: World, n: string, k: nat, depth: nat,
                                              more: nat)
    requires n in g.depends && k <= |g.depends[n]| && depth <= more
    requires DependenciesWithin(g, hooks, w, n, k, depth).Some?
    ensures DependenciesWithin(g, hooks, w, n, k, more) == DependenciesWithin(g, hooks, w, n, k, depth)
    decreases depth, 1, k
  {
    if k > 0 {
      DependenciesDeeper(g, hooks, w, n, k - 1, depth, more);
      var v, d := DependenciesWithin(g, hooks, w, n, k - 1, depth).value, g.depends[n][k - 1];
      if d in g.depends && d in v.states && Pending(v.states[d]) {
        Deeper(g, hooks, v, d, depth, more);
      }
    }
  }

  /** Where ranks fall, a depth above the rank is enough. */
  lemma {:induction false} DeepEnough(g: Graph, rank: map<string, nat>, hooks: Hooks, w: World, n: string, depth: nat)
    requires Matches(g, w) && Descends(g, w, rank) && n in g.depends && n in rank && rank[n] < depth
    ensures LoadWithin(g, hooks, w, n, depth) == Some(Load(g, rank, hooks, w, n))
    decreases depth, 0, 0
  {
    DependenciesDeepEnough(g, rank, hooks, w, n, |g.depends[n]|, depth - 1);
  }

  lemma {:induction false} DependenciesDeepEnough(g: Graph, rank: map<string, nat>, hooks: Hooks, w: World, n: string,
                                                  k: nat, depth: nat)
    requires Matches(g, w) && Descends(g, w, rank) && n in g.depends && n in rank && rank[n] <= depth
    requires k <= |g.depends[n]|
    ensures DependenciesWithin(g, hooks, w, n, k, depth) == Some(LoadDependencies(g, rank, hooks, w, n, k))
    decreases depth, 2, k
  {
    if k > 0 {
      DependenciesDeepEnough(g, rank, hooks, w, n, k - 1, depth);
      var v, d := LoadDependencies(g, rank, hooks, w, n, k - 1), g.depends[n][k - 1];
      if d in g.depends && Pending(v.states[d]) {
        assert DependsOn(g, n, d);
        DeepEnough(g, rank, hooks, v, d, depth);
      }
    }
  }

  /** Names that lead to each other: each depends on the next. */
  ghost predicate IsTrap(g: Graph, next: map<string, string>) {
    forall m {:trigger next[m]} :: m in next ==> next[m] in next && DependsOn(g, m, next[m])
  }

  ghost function PendingNames(w: World): set<string> {
    set m | m in w.states && Pending(w.states[m])
  }

  /** The trap is closed as long as every name that comes next is pending. */
  ghost predicate Closed(w: World, next: map<string, string>) {
    next.Values <= PendingNames(w)
  }

  lemma OwnLoadKeepsClosed(hooks: Hooks, w: World, n: string, next: map<string, string>)
    requires Closed(w, next) && n !in next.Values
    ensures Closed(LoadNamed(hooks, w, n), next)
  {
    var v := LoadNamed(hooks, w, n);
    forall m | m in next.Values
      ensures m in PendingNames(v)
    {
      assert m in PendingNames(w) && v.states[m] == w.states[m];
    }
  }

  /** No load that ends touches a closed trap, at whatever depth and whatever the hooks return. */
  lemma {:induction false} TrapHolds(g: Graph, hooks: Hooks, w: World, n: string, depth: nat, next: map<string, string>)
    requires n in g.depends && IsTrap(g, next) && Closed(w, next)
    ensures var r := LoadWithin(g, hooks, w, n, depth); r.Some? ==> n !in next && Closed(r.value, next)
    decreases depth, 0, 0
  {
    if depth > 0 {
      if n in next {
        TrapIsNotLeft(g, hooks, w, n, depth - 1, next);
      } else {
        TrapHoldsDependencies(g, hooks, w, n, |g.depends[n]|, depth - 1, next, 0);
        var r := DependenciesWithin(g, hooks, w, n, |g.depends[n]|, depth - 1);
        if r.Some? {
          OwnLoadKeepsClosed(hooks, r.value, n, next);
        }
      }
    }
  }

  lemma {:induction false} TrapIsNotLeft(g: Graph, hooks: Hooks, w: World, n: string, depth: nat,
                                         next: map<string, string>)
    requires n in g.depends && IsTrap(g, next) && Closed(w, next) && n in next
    ensures DependenciesWithin(g, hooks, w, n, |g.depends[n]|, depth).None?
    decreases depth, 3, 0
  {
    assert DependsOn(g, n, next[n]);
    var j: nat :| j < |g.depends[n]| && g.depends[n][j] == next[n];
    TrapHoldsDependencies(g, hooks, w, n, |g.depends[n]|, depth, next, j);
  }

  lemma {:induction false} TrapHoldsDependencies(g: Graph, hooks: Hooks, w: World, n: string, k: nat, depth: nat,
                                                 next: map<string, string>, j: nat)
    requires n in g.depends && IsTrap(g, next) && Closed(w, next) && k <= |g.depends[n]|
    ensures var r := DependenciesWithin(g, hooks, w, n, k, depth);
            r.Some? ==> Closed(r.value, next) && (n in next && j < k ==> g.depends[n][j] != next[n])
    decreases depth, 2, k
  {
    if k > 0 {
      TrapHoldsDependencies(g, hooks, w, n, k - 1, depth, next, j);
      var r := DependenciesWithin(g, hooks, w, n, k - 1, depth);
      if r.Some? {
        TrapHoldsDependency(g, hooks, r.value, n, g.depends[n][k - 1], depth, next);
      }
    }
  }

  lemma {:induction false} TrapHoldsDependency(g: Graph, hooks: Hooks, w: World, n: string, d: string, depth: nat,
                                               next: map<string, string>)
    requires IsTrap(g, next) && Closed(w, next)
    ensures var r := DependencyWithin(g, hooks, w, d, depth);
            r.Some? ==> Closed(r.value, next) && (n in next ==> next[n] != d)
    decreases depth, 1, 0
  {
    assert n in next ==> next[n] in next.Values && next[n] in PendingNames(w);
    if d in g.depends && d in w.states && Pending(w.states[d]) {
      TrapHolds(g, hooks, w, d, depth, next);
    }
  }

  /** What follows the first occurrence of m. */
  function NextOf(p: seq<string>, m: string): string
    requires p != [] && m in p[..|p| - 1]
  {
    p[IndexOf(p[..|p| - 1], m) + 1]
  }

  lemma NextIsFollowed(g: Graph, w: World, p: seq<string>, i: nat, m: string)
    requires Matches(g, w) && IsDescent(g, w, p) && i < |p| - 1 && p[i] == p[|p| - 1] && m in p[..|p| - 1]
    ensures Follows(g, w, m, NextOf(p, m)) && NextOf(p, m) in p[..|p| - 1]
  {
    var k := IndexOf(p[..|p| - 1], m);
    assert IsStep(g, w, p, k);
    assert p[k + 1] == p[..|p| - 1][if k + 2 < |p| then k + 1 else i];
  }

  lemma CircleIsTrap(g: Graph, w: World, n: string, p: seq<string>) returns (next: map<string, string>)
    requires Matches(g, w) && RunsInCircles(g, w, n, p)
    ensures IsTrap(g, next) && Closed(w, next) && n in next
  {
    var i :| 0 <= i < |p| - 1 && p[i] == p[|p| - 1];
    next := map m | m in p[..|p| - 1] :: NextOf(p, m);
    assert p[..|p| - 1][0] == n;
    forall m | m in next
      ensures next[m] in next && Follows(g, w, m, next[m])
    {
      NextIsFollowed(g, w, p, i, m);
    }
  }

  /**
   Whatever the hooks return, a direct load ends exactly unless its plugin can run in circles along pending
   dependencies. Cycles among plugins that are loaded already, or that it does not reach, do no harm.
   */
  lemma LoadEndsExactly(g: Graph, hooks: Hooks, w: World, n: string)
    requires WellFormed(g) && Matches(g, w) && n in g.depends
    ensures (exists depth :: LoadWithin(g, hooks, w, n, depth).Some?) <==> !exists p :: RunsInCircles(g, w, n, p)
  {
    if !exists p :: RunsInCircles(g, w, n, p) {
      var rank := NoCircleIsRanked(g, w, n);
      DeepEnough(g, rank, hooks, w, n, rank[n] + 1);
    }
    forall p, depth | RunsInCircles(g, w, n, p)
      ensures LoadWithin(g, hooks, w, n, depth).None?
    {
      var next := CircleIsTrap(g, w, n, p);
      TrapHolds(g, hooks, w, n, depth, next);
    }
  }

  /** The smallest circle: a pending plugin that depends on itself never gets loaded, whatever the hooks return. */
  lemma SelfDependencyNeverEnds(g: Graph, hooks: Hooks, w: World, n: string, depth: nat)
    requires Matches(g, w) && DependsOn(g, n, n) && Pending(w.states[n])
    ensures LoadWithin(g, hooks, w, n, depth).None?
  {
    assert Follows(g, w, n, n);
    TrapHolds(g, hooks, w, n, depth, map[n := n]);
  }
}
