/**
 The dependency graph of the plugin master: the recursive depth-first topological sort and the
 proof that it raises exactly on a cycle.
 */
module DependencyGraph {
  import opened Common

  /** Registered plugin names in registration order, and the declared dependencies of each. */
  datatype Graph = Graph(names: seq<string>, depends: map<string, seq<string>>)

  ghost predicate WellFormed(g: Graph) {
    && NoDuplicates(g.names)
    && (forall n {:trigger n in g.names} :: n in g.names <==> n in g.depends)
  }

  /** a declares a dependency on b and both are registered. */
  predicate DependsOn(g: Graph, a: string, b: string) {
    a in g.depends && b in g.depends && b in g.depends[a]
  }

  ghost predicate IsPath(g: Graph, p: seq<string>) {
    forall i :: 0 <= i < |p| - 1 ==> DependsOn(g, p[i], p[i + 1])
  }

  ghost predicate IsCycle(g: Graph, p: seq<string>) {
    |p| >= 2 && p[0] == p[|p| - 1] && IsPath(g, p)
  }

  ghost predicate Cyclic(g: Graph) {
    exists p :: IsCycle(g, p)
  }

  /** Every dependency of a listed name is listed strictly earlier. */
  ghost predicate DependenciesFirst(g: Graph, order: seq<string>) {
    forall i, d :: 0 <= i < |order| && DependsOn(g, order[i], d) ==> d in order[..i]
  }

  ghost predicate IsTopological(g: Graph, order: seq<string>) {
    && NoDuplicates(order)
    && (forall n :: n in order <==> n in g.depends)
    && DependenciesFirst(g, order)
  }

  // ----- the sort as a function; the set `visited` of the program is the set of names in `order`

  function Dfs(g: Graph, name: string, temp: set<string>, order: seq<string>): Option<seq<string>>
    requires name in g.depends
    decreases g.depends.Keys - temp, 0
  {
    if name in order then Some(order)
    else if name in temp then None
    else
      match DfsAll(g, g.depends[name], temp + {name}, order)
      case None => None
      case Some(o) => Some(o + [name])
  }

  function DfsAll(g: Graph, names: seq<string>, temp: set<string>, order: seq<string>): Option<seq<string>>
    decreases g.depends.Keys - temp, 1, |names|
  {
    if names == [] then Some(order)
    else if names[0] !in g.depends then DfsAll(g, names[1..], temp, order)
    else
      match Dfs(g, names[0], temp, order)
      case None => None
      case Some(o) => DfsAll(g, names[1..], temp, o)
  }

  function TopoOrder(g: Graph): Option<seq<string>> {
    DfsAll(g, g.names, {}, [])
  }

  // ----- correctness of the sort

  /** What holds between two calls of dfs: `path` is the recursion stack. */
  ghost predicate DfsState(g: Graph, path: seq<string>, order: seq<string>) {
    && IsPath(g, path)
    && NoDuplicates(order)
    && (forall n :: n in order ==> n in g.depends && n !in path)
    && DependenciesFirst(g, order)
  }

  ghost predicate Extends(g: Graph, path: seq<string>, before: seq<string>, after: seq<string>) {
    DfsState(g, path, after) && before <= after
  }

  lemma {:induction false} DfsCorrect(g: Graph, name: string, path: seq<string>, order: seq<string>)
    requires name in g.depends && DfsState(g, path, order)
    requires path != [] ==> DependsOn(g, path[|path| - 1], name)
    ensures match Dfs(g, name, Elements(path), order)
            case None => Cyclic(g)
            case Some(o) => Extends(g, path, order, o) && name in o
    decreases g.depends.Keys - Elements(path), 0
  {
    if name in order {
    } else if name in path {
      var k :| 0 <= k < |path| && path[k] == name;
      assert IsCycle(g, path[k..] + [name]);
    } else {
      var deeper := path + [name];
      assert Elements(deeper) == Elements(path) + {name};
      DfsAllCorrect(g, g.depends[name], deeper, order);
      var r := DfsAll(g, g.depends[name], Elements(deeper), order);
      if r.Some? {
        var o := r.value;
        assert name in deeper;
        forall i, d | 0 <= i < |o + [name]| && DependsOn(g, (o + [name])[i], d)
          ensures d in (o + [name])[..i]
        {
          assert (o + [name])[..i] == o[..i];
          assert i == |o| ==> o[..i] == o;
        }
        assert forall n :: n in path ==> n in deeper;
      }
    }
  }

  lemma {:induction false} DfsAllCorrect(g: Graph, names: seq<string>, path: seq<string>, order: seq<string>)
    requires DfsState(g, path, order)
    requires path != [] ==> path[|path| - 1] in g.depends && forall n :: n in names ==> n in g.depends[path[|path| - 1]]
    ensures match DfsAll(g, names, Elements(path), order)
            case None => Cyclic(g)
            case Some(o) => Extends(g, path, order, o) && forall n :: n in names && n in g.depends ==> n in o
    decreases g.depends.Keys - Elements(path), 1, |names|
  {
    if names != [] {
      assert names[0] in names && forall n :: n in names[1..] ==> n in names;
      if names[0] in g.depends {
        DfsCorrect(g, names[0], path, order);
        match Dfs(g, names[0], Elements(path), order) {
          case None =>
          case Some(o) => DfsAllCorrect(g, names[1..], path, o);
        }
      } else {
        DfsAllCorrect(g, names[1..], path, order);
      }
      assert forall n :: n in names ==> n == names[0] || n in names[1..];
    }
  }

  /** Along a path in a topological order, positions strictly decrease. */
  lemma {:induction false} PathGoesDown(g: Graph, order: seq<string>, p: seq<string>, a: nat, b: nat)
    requires IsTopological(g, order) && IsPath(g, p) && |p| >= 2 && a < |order| && b < |order|
    requires order[a] == p[0] && order[b] == p[|p| - 1]
    ensures b < a
    decreases |p|
  {
    assert DependsOn(g, p[0], p[1]);
    assert p[1] in order[..a];
    var c: nat :| c < a && order[c] == p[1];
    if |p| > 2 {
      forall i | 0 <= i < |p[1..]| - 1
        ensures DependsOn(g, p[1..][i], p[1..][i + 1])
      {
        assert DependsOn(g, p[i + 1], p[i + 1 + 1]);
      }
      PathGoesDown(g, order, p[1..], c, b);
    }
  }

  lemma TopologicalIsAcyclic(g: Graph, order: seq<string>)
    requires IsTopological(g, order)
    ensures !Cyclic(g)
  {
    forall p | IsCycle(g, p)
      ensures false
    {
      assert DependsOn(g, p[0], p[1]);
      var a: nat :| a < |order| && order[a] == p[0];
      PathGoesDown(g, order, p, a, a);
    }
  }

  lemma {:induction false} SetSize(s: seq<string>)
    requires NoDuplicates(s)
    ensures |Elements(s)| == |s|
  {
    if s != [] {
      var rest := s[..|s| - 1];
      SetSize(rest);
      assert Elements(s) == Elements(rest) + {s[|s| - 1]};
    }
  }

  lemma {:induction false} SameLength(s: seq<string>, t: seq<string>)
    requires NoDuplicates(s) && NoDuplicates(t) && forall x :: x in s <==> x in t
    ensures |s| == |t|
  {
    SetSize(s);
    SetSize(t);
    assert Elements(s) == Elements(t);
  }

  /** The sort raises exactly on a cyclic graph, and otherwise lists every plugin once, dependencies first. */
  lemma TopoOrderCorrect(g: Graph)
    requires WellFormed(g)
    ensures TopoOrder(g).None? <==> Cyclic(g)
    ensures TopoOrder(g).Some? ==> IsTopological(g, TopoOrder(g).value)
    ensures TopoOrder(g).Some? ==> |TopoOrder(g).value| == |g.names|
  {
    assert Elements<string>([]) == {};
    DfsAllCorrect(g, g.names, [], []);
    if TopoOrder(g).Some? {
      var order := TopoOrder(g).value;
      TopologicalIsAcyclic(g, order);
      SameLength(order, g.names);
    }
  }

  // ----- among what the dependencies leave open, the listed order is kept

  /** The registered names of a list that are not in order yet, each once. */
  function New(g: Graph, names: seq<string>, order: seq<string>): seq<string> {
    if names == [] then []
    else if names[0] !in g.depends || names[0] in order then New(g, names[1..], order)
    else [names[0]] + New(g, names[1..], order + [names[0]])
  }

  /** Every registered dependency of a listed name is in order or listed before it; no listed name is in progress. */
  ghost predicate ListedWell(g: Graph, names: seq<string>, temp: set<string>, order: seq<string>) {
    && (forall i, d :: 0 <= i < |names| && DependsOn(g, names[i], d) ==> d in order || d in names[..i])
    && (forall i :: 0 <= i < |names| && names[i] in g.depends ==> names[i] !in temp)
  }

  lemma {:induction false} AllInOrder(g: Graph, names: seq<string>, temp: set<string>, order: seq<string>)
    requires forall i :: 0 <= i < |names| && names[i] in g.depends ==> names[i] in order
    ensures DfsAll(g, names, temp, order) == Some(order)
    decreases |names|
  {
    if names != [] {
      AllInOrder(g, names[1..], temp, order);
    }
  }

  lemma ListedWellBehind(g: Graph, names: seq<string>, temp: set<string>, order: seq<string>, order': seq<string>)
    requires names != [] && ListedWell(g, names, temp, order) && order <= order'
    requires names[0] in g.depends ==> names[0] in order'
    ensures ListedWell(g, names[1..], temp, order')
  {
    forall i, d | 0 <= i < |names| - 1 && DependsOn(g, names[1..][i], d)
      ensures d in order' || d in names[1..][..i]
    {
      assert DependsOn(g, names[i + 1], d);
      if d !in order {
        var k :| 0 <= k < i + 1 && names[k] == d;
        if k > 0 {
          assert names[1..][..i][k - 1] == d;
        }
      }
    }
  }

  lemma {:induction false} NewInListedOrder(g: Graph, names: seq<string>, temp: set<string>, order: seq<string>)
    requires ListedWell(g, names, temp, order)
    ensures DfsAll(g, names, temp, order) == Some(order + New(g, names, order))
    decreases |names|
  {
    if names == [] {
      assert order + [] == order;
    } else if names[0] !in g.depends || names[0] in order {
      ListedWellBehind(g, names, temp, order, order);
      NewInListedOrder(g, names[1..], temp, order);
    } else {
      var n := names[0];
      forall i | 0 <= i < |g.depends[n]| && g.depends[n][i] in g.depends
        ensures g.depends[n][i] in order
      {
        assert DependsOn(g, names[0], g.depends[n][i]);
      }
      AllInOrder(g, g.depends[n], temp + {n}, order);
      ListedWellBehind(g, names, temp, order, order + [n]);
      NewInListedOrder(g, names[1..], temp, order + [n]);
      assert order + [n] + New(g, names[1..], order + [n]) == order + New(g, names, order);
    }
  }

  lemma {:induction false} NewOfDistinct(g: Graph, names: seq<string>, order: seq<string>)
    requires NoDuplicates(names) && forall i :: 0 <= i < |names| ==> names[i] in g.depends && names[i] !in order
    ensures New(g, names, order) == names
    decreases |names|
  {
    if names != [] {
      NewOfDistinct(g, names[1..], order + [names[0]]);
    }
  }

  /** Plugins that are registered after their dependencies come in the order in which they were registered. */
  lemma RegistrationOrderKept(g: Graph)
    requires WellFormed(g) && DependenciesFirst(g, g.names)
    ensures TopoOrder(g) == Some(g.names)
  {
    NewInListedOrder(g, g.names, {}, []);
    assert forall i :: 0 <= i < |g.names| ==> g.names[i] in g.names;
    NewOfDistinct(g, g.names, []);
    assert [] + g.names == g.names;
  }

  /** Dependencies of one plugin that are listed after their own come in the order in which they are listed. */
  lemma DependencyOrderKept(g: Graph, name: string, temp: set<string>, order: seq<string>)
    requires name in g.depends && name !in temp && name !in order
    requires ListedWell(g, g.depends[name], temp + {name}, order)
    ensures Dfs(g, name, temp, order) == Some(order + New(g, g.depends[name], order) + [name])
  {
    NewInListedOrder(g, g.depends[name], temp + {name}, order);
  }

  // ----- the nested function of the program, over the variables it captures

  class TopoSorter {
    const g: Graph
    var visited: set<string>
    var temp: set<string>
    var order: seq<string>

    ghost predicate Valid()
      reads this
    {
      visited == Elements(order)
    }

    constructor (g: Graph)
      ensures this.g == g && Valid() && temp == {} && order == []
    {
      this.g := g;
      visited, temp, order := {}, {}, [];
    }

    /** `ok` is false when the program raises; the captured variables are then abandoned. */
    method Visit(name: string) returns (ok: bool)
      requires Valid() && name in g.depends
      modifies this
      ensures ok <==> Dfs(g, name, old(temp), old(order)).Some?
      ensures ok ==> Valid() && temp == old(temp) && Some(order) == Dfs(g, name, old(temp), old(order))
      decreases g.depends.Keys - temp
    {
      if name in visited {
        return true;
      }
      if name in temp {
        return false;
      }
      temp := temp + {name};
      var deps := g.depends[name];
      for i := 0 to |deps|
        invariant Valid() && temp == old(temp) + {name}
        invariant DfsAll(g, deps[i..], temp, order) == DfsAll(g, deps, temp, old(order))
      {
        if deps[i] in g.depends {
          ok := Visit(deps[i]);
          if !ok {
            return;
          }
        }
      }
      temp := temp - {name};
      visited := visited + {name};
      order := order + [name];
      return true;
    }
  }

  method ComputeTopoOrder(g: Graph) returns (r: Option<seq<string>>)
    requires WellFormed(g)
    ensures r == TopoOrder(g)
    ensures r.None? <==> Cyclic(g)
    ensures r.Some? ==> IsTopological(g, r.value)
  {
    TopoOrderCorrect(g);
    var sorter := new TopoSorter(g);
    for i := 0 to |g.names|
      invariant sorter.g == g && sorter.Valid() && sorter.temp == {}
      invariant DfsAll(g, g.names[i..], {}, sorter.order) == TopoOrder(g)
    {
      assert g.names[i] in g.names;
      var ok := sorter.Visit(g.names[i]);
      if !ok {
        return None;
      }
    }
    return Some(sorter.order);
  }
}
