/**
 The plugin master as the program keeps it: plugin objects whose states change, and the recursion and loops over them.
 Each method refines the function of the same name in PluginLifecycle.
 */
module PluginProgram {
  import opened Common
  import opened DependencyGraph
  import opened DirectLoad
  import opened PluginLifecycle

  class Plugin {
    const name: string
    const depends: seq<string>
    var state: PluginState

    constructor (name: string, depends: seq<string>)
      ensures this.name == name && this.depends == depends && state == Registered
    {
      this.name, this.depends, state := name, depends, Registered;
    }
  }

  class PluginMaster {
    const hooks: Hooks
    var names: seq<string>
    var plugins: map<string, Plugin>
    var trace: seq<Event>
    ghost var members: set<Plugin>
    ghost var graph: Graph
    ghost var world: World

    /** The ghost fields are the graph of the registered plugins and their states. */
    ghost predicate Valid()
      reads this, members`state
    {
      && graph.names == names && WellFormed(graph)
      && graph.depends.Keys == plugins.Keys == world.states.Keys && world.trace == trace
      && (forall n {:trigger plugins[n]} :: n in plugins ==>
            && plugins[n] in members && plugins[n].name == n
            && plugins[n].depends == graph.depends[n] && plugins[n].state == world.states[n])
    }

    constructor (hooks: Hooks)
      ensures Valid() && this.hooks == hooks && plugins == map[]
      ensures graph == Graph([], map[]) && world == World(map[], [])
    {
      this.hooks := hooks;
      names, plugins, trace := [], map[], [];
      members, graph, world := {}, Graph([], map[]), World(map[], []);
    }

    /** False when the name is taken; the program raises and registers nothing. */
    method Register(p: Plugin) returns (ok: bool)
      requires Valid() && p !in members
      modifies this, p
      ensures Valid()
      ensures ok <==> p.name !in old(plugins)
      ensures !ok ==> unchanged(this) && unchanged(p)
      ensures ok ==> plugins == old(plugins)[p.name := p] && members == old(members) + {p}
      ensures ok ==> graph == Extended(old(graph), p.name, p.depends)
      ensures ok ==> world == World(old(world).states[p.name := Registered],
                                    old(world).trace + [StateSet(p.name, old(p.state), Registered)])
    {
      if p.name in plugins {
        return false;
      }
      EntersRegistered(world, p.name, p.state);
      Enter(p);
      EmitState(p, Registered);
      return true;
    }

    method Enter(p: Plugin)
      requires Valid() && p !in members && p.name !in plugins
      modifies this`plugins, this`names, this`members, this`graph, this`world
      ensures Valid()
      ensures plugins == old(plugins)[p.name := p] && members == old(members) + {p}
      ensures graph == Extended(old(graph), p.name, p.depends)
      ensures world == World(old(world).states[p.name := p.state], old(world).trace)
    {
      ExtendedIsWellFormed(graph, p.name, p.depends);
      plugins, names, members := plugins[p.name := p], names + [p.name], members + {p};
      graph := Extended(graph, p.name, p.depends);
      world := World(world.states[p.name := p.state], world.trace);
    }

    method EmitState(p: Plugin, s: PluginState)
      requires Valid() && p.name in plugins && plugins[p.name] == p
      modifies this`trace, this`world, p
      ensures Valid() && world == SetState(old(world), p.name, s)
    {
      trace := trace + [StateSet(p.name, p.state, s)];
      p.state := s;
      world := SetState(world, p.name, s);
    }

    method InvokeHook(n: string, h: Hook) returns (o: Outcome)
      requires Valid()
      modifies this`trace, this`world
      ensures Valid() && o == hooks(old(world).trace, n, h) && world == CallHook(old(world), n, h)
    {
      o := hooks(trace, n, h);
      trace := trace + [HookCalled(n, h)];
      world := CallHook(world, n, h);
    }

    method LoadPlugin(p: Plugin)
      requires Valid() && p.name in plugins && plugins[p.name] == p
      modifies this`trace, this`world, p
      ensures Valid() && world == PluginLoad(hooks, old(world), p.name)
    {
      if Up(p.state) {
        return;
      }
      var o := InvokeHook(p.name, OnLoad);
      if o.Truthy? {
        EmitState(p, Loaded);
      } else if o.Raised? {
        EmitState(p, Error);
      }
    }

    method EnablePlugin(p: Plugin)
      requires Valid() && p.name in plugins && plugins[p.name] == p
      modifies this`trace, this`world, p
      ensures Valid() && world == PluginEnable(hooks, old(world), p.name)
    {
      if p.state.Running? {
        return;
      }
      if p.state.Registered? {
        LoadPlugin(p);
      }
      if !p.state.Loaded? {
        return;
      }
      var o := InvokeHook(p.name, OnEnable);
      if o.Truthy? {
        EmitState(p, Enabled);
      } else if o.Raised? {
        EmitState(p, Error);
      }
    }

    method StopPlugin(p: Plugin)
      requires Valid() && p.name in plugins && plugins[p.name] == p
      modifies this`trace, this`world, p
      ensures Valid() && world == PluginStop(hooks, old(world), p.name)
    {
      var o := InvokeHook(p.name, OnStop);
      if !o.Raised? {
        EmitState(p, Enabled);
      }
    }

    method DisablePlugin(p: Plugin)
      requires Valid() && p.name in plugins && plugins[p.name] == p
      modifies this`trace, this`world, p
      ensures Valid() && world == PluginDisable(hooks, old(world), p.name)
    {
      if p.state.Running? {
        StopPlugin(p);
      }
      var o := InvokeHook(p.name, OnDisable);
      if !o.Raised? {
        EmitState(p, Disabled);
      }
    }

    /** The recursive load; it ends because the ghost rank falls. */
    method LoadByName(n: string, ghost rank: map<string, nat>)
      requires Valid() && Descends(graph, world, rank) && (n in plugins ==> n in rank)
      modifies this`trace, this`world, members
      ensures Valid()
      ensures world == if n in plugins then Load(graph, rank, hooks, old(world), n) else old(world)
      decreases if n in rank then rank[n] else 0, 2
    {
      if n !in plugins {
        return;
      }
      LoadDependencyList(n, rank);
      LoadPlugin(plugins[n]);
    }

    method LoadDependencyList(n: string, ghost rank: map<string, nat>)
      requires Valid() && n in plugins && n in rank && Descends(graph, world, rank)
      modifies this`trace, this`world, members
      ensures Valid() && world == LoadDependencies(graph, rank, hooks, old(world), n, |graph.depends[n]|)
      decreases rank[n], 1
    {
      var deps := plugins[n].depends;
      ghost var w := world;
      for i := 0 to |deps|
        invariant Valid() && world == LoadDependencies(graph, rank, hooks, w, n, i)
      {
        LoadNextDependency(n, deps[i], rank, w, i);
      }
    }

    /** One turn of that loop. */
    method LoadNextDependency(n: string, d: string, ghost rank: map<string, nat>, ghost w: World, ghost i: nat)
      requires Valid() && n in plugins && n in rank && Matches(graph, w) && Descends(graph, w, rank)
      requires i < |graph.depends[n]| && d == graph.depends[n][i]
      requires world == LoadDependencies(graph, rank, hooks, w, n, i)
      modifies this`trace, this`world, members
      ensures Valid() && world == LoadDependencies(graph, rank, hooks, w, n, i + 1)
      decreases rank[n], 0
    {
      if d in plugins && Pending(plugins[d].state) {
        assert DependsOn(graph, n, d);
        LoadByName(d, rank);
      }
    }

    /** A direct load, on any master on which it ends, cyclic or not. */
    method LoadDirectly(n: string)
      requires Valid() && (n in plugins ==> !exists p :: RunsInCircles(graph, world, n, p))
      modifies this`trace, this`world, members
      ensures Valid()
      ensures if n in plugins then exists depth :: LoadWithin(graph, hooks, old(world), n, depth) == Some(world)
              else world == old(world)
    {
      if n in plugins {
        ghost var rank := NoCircleIsRanked(graph, world, n);
        LoadByName(n, rank);
        DeepEnough(graph, rank, hooks, old(world), n, rank[n] + 1);
      }
    }

    method EnableByName(n: string, ghost rank: map<string, nat>)
      requires Valid() && Descends(graph, world, rank) && (n in plugins ==> n in rank)
      modifies this`trace, this`world, members
      ensures Valid()
      ensures world == if n in plugins then Enable(graph, rank, hooks, old(world), n) else old(world)
    {
      if n !in plugins {
        return;
      }
      LoadByName(n, rank);
      EnablePlugin(plugins[n]);
    }

    method EnableInOrder(order: seq<string>, ghost rank: map<string, nat>)
      requires Valid() && Ranked(graph, rank)
      modifies this`trace, this`world, members
      ensures Valid() && world == Each(Enabler(graph, rank, hooks), order, old(world), |order|)
    {
      for i := 0 to |order|
        invariant Valid() && world == Each(Enabler(graph, rank, hooks), order, old(world), i)
      {
        EnableNext(order[i], rank);
      }
    }

    /** One turn of that loop. */
    method EnableNext(n: string, ghost rank: map<string, nat>)
      requires Valid() && Ranked(graph, rank)
      modifies this`trace, this`world, members
      ensures Valid() && world == Enabler(graph, rank, hooks)(old(world), n)
    {
      EnableByName(n, rank);
    }

    method DisableNames(names: seq<string>)
      requires Valid()
      modifies this`trace, this`world, members
      ensures Valid() && world == DisableEach(hooks, names, old(world), |names|)
    {
      for i := 0 to |names|
        invariant Valid() && world == DisableEach(hooks, names, old(world), i)
      {
        DisableNext(names[i]);
      }
    }

    /** One turn of that loop. */
    method DisableNext(n: string)
      requires Valid()
      modifies this`trace, this`world, members
      ensures Valid() && world == DisableNamed(hooks, old(world), n)
    {
      if n in plugins {
        DisablePlugin(plugins[n]);
      }
    }

    method CurrentGraph() returns (g: Graph)
      requires Valid()
      ensures g == graph
    {
      g := Graph(names, map n | n in plugins :: plugins[n].depends);
    }

    /** `ok` is false when the sort raises. */
    method EnableEveryPlugin() returns (ok: bool)
      requires Valid()
      modifies this`trace, this`world, members
      ensures Valid() && (ok <==> !Cyclic(graph))
      ensures match EnableAll(graph, hooks, old(world))
              case None => !ok && world == old(world)
              case Some(w) => ok && world == w
    {
      var g := CurrentGraph();
      var r := ComputeTopoOrder(g);
      if r.None? {
        return false;
      }
      PositionsRank(graph, r.value);
      EnableInOrder(r.value, RankOf(r.value));
      return true;
    }

    method DisableEveryPlugin() returns (ok: bool)
      requires Valid()
      modifies this`trace, this`world, members
      ensures Valid() && (ok <==> !Cyclic(graph))
      ensures match DisableAll(graph, hooks, old(world))
              case None => !ok && world == old(world)
              case Some(w) => ok && world == w
    {
      var g := CurrentGraph();
      var r := ComputeTopoOrder(g);
      if r.None? {
        return false;
      }
      DisableNames(Reversed(r.value));
      return true;
    }
  }
}
