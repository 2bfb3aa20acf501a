/**
 The inference system call under any interleaving: each call is a thread with its own program counter, and
 one step of the machine is one atomic operation, allocation, lock or unlock of one thread.
 */
module SyscallModel {
  import opened Common

  const EAGAIN := -11
  const ENOMEM := -12
  const EFAULT := -14
  const ENODEV := -19

  /** What a thread is there for: the system call, a kernel caller of the engine, or a change of the engine. */
  datatype Call = Syscall | KernelInfer | Register(engine: nat) | Unregister(engine: nat)

  /**
   What the outside decides: user memory, allocations and the engine's answer. Errors are negative; argError comes
   from the copy of the arguments, permError from the capabilities and the rate limiter.
   */
  datatype Env = Env(call: Call, argError: int, permError: int, nameOk: bool, inputError: int, inputMemory: bool,
                     copyInOk: bool, output: Option<nat>, outputMemory: bool, engineReturn: int, copyOutOk: bool)

  /** The error of a call that fails before it is counted. */
  function EntryError(env: Env): int {
    if env.argError != 0 then env.argError else env.permError
  }

  /** Buffers of one call; the output buffer comes with its size. */
  datatype Buffers = Buffers(input: nat, output: Option<(nat, nat)>)

  /** Where a thread stands with respect to the engine mutex. */
  datatype Section = Waiting | Holding | Running(engine: nat) | Leaving(ret: int)

  /** Program counters; buffers is None for a kernel caller, whose buffers are its own. */
  datatype Thread =
    | Idle
    | Rejecting
    | ReadName
    | ReadInput
    | CopyInput(input: nat)
    | MakeOutput(input: nat)
    | Infer(buffers: Option<Buffers>, section: Section)
    | Finish(all: Buffers, ret: int)
    | FreeOutput(all: Buffers, result: int)
    | FreeInput(input: nat, result: int)
    | PutPermit(result: int)
    | Change(call: Call, section: Section)
    | Done(result: int)
    | Changed(call: Call)

  predicate IsOver(th: Thread) {
    th.Done? || th.Changed?
  }

  /** What a step does to the shared state. */
  datatype Effect =
    | Quiet
    | TakePermit
    | GivePermit
    | Alloc
    | Free(buffer: nat)
    | Lock
    | Unlock
    | SetEngine(call: Call)
    | TakeNumber

  datatype Event =
    | Took(thread: nat)
    | Gave(thread: nat)
    | Allocated(thread: nat, buffer: nat)
    | Freed(thread: nat, buffer: nat)
    | Numbered(thread: nat, id: nat)

  /** A change of the engine and the thread that made it. */
  datatype Made = Made(thread: nat, call: Call)

  /**
   The shared state: the active counter, the engine pointer, the mutex owner, the request counter, the live
   buffers with the threads that allocated them. log and changes record what happened.
   */
  datatype World = World(active: int, engine: Option<nat>, owner: Option<nat>, lastId: nat,
                         live: map<nat, nat>, nextBuffer: nat, threads: map<nat, Thread>,
                         log: multiset<Event>, changes: seq<Made>)

  const START := World(0, None, None, 1, map[], 0, map[], multiset{}, [])

  function At(w: World, t: nat): Thread {
    if t in w.threads then w.threads[t] else Idle
  }

  // ----- one step of one thread

  function ResultOf(all: Buffers, ret: int, env: Env): int {
    if ret != 0 then ret
    else if all.output.None? then 0
    else if env.copyOutOk then all.output.value.1 else EFAULT
  }

  function Transition(w: World, limit: nat, th: Thread, env: Env): (Thread, Effect)
    requires !IsOver(th)
  {
    match th
    case Idle => (
      match env.call
      case Syscall =>
        if EntryError(env) != 0 then (Done(EntryError(env)), Quiet)
        else (if w.active + 1 > limit then Rejecting else ReadName, TakePermit)
      case KernelInfer => (Infer(None, Waiting), Quiet)
      case _ => (Change(env.call, Waiting), Quiet))
    case Rejecting => (Done(EAGAIN), GivePermit)
    case ReadName => (if env.nameOk then ReadInput else PutPermit(EFAULT), Quiet)
    case ReadInput =>
      if env.inputError != 0 then (PutPermit(env.inputError), Quiet)
      else if !env.inputMemory then (PutPermit(ENOMEM), Quiet)
      else (CopyInput(w.nextBuffer), Alloc)
    case CopyInput(b) => if env.copyInOk then (MakeOutput(b), Quiet) else (PutPermit(EFAULT), Free(b))
    case MakeOutput(b) =>
      if env.output.None? then (Infer(Some(Buffers(b, None)), Waiting), Quiet)
      else if env.outputMemory then (Infer(Some(Buffers(b, Some((w.nextBuffer, env.output.value)))), Waiting), Alloc)
      else (FreeInput(b, ENOMEM), Quiet)
    case Infer(bs, s) => (
      match s
      case Waiting => (Infer(bs, Holding), Lock)
      case Holding => (Infer(bs, if w.engine.Some? then Running(w.engine.value) else Leaving(ENODEV)), Quiet)
      case Running(_) => (Infer(bs, Leaving(env.engineReturn)), Quiet)
      case Leaving(ret) => (if bs.Some? then Finish(bs.value, ret) else Done(ret), Unlock))
    case Finish(all, ret) => (FreeOutput(all, ResultOf(all, ret, env)), TakeNumber)
    case FreeOutput(all, r) => (FreeInput(all.input, r), if all.output.Some? then Free(all.output.value.0) else Quiet)
    case FreeInput(b, r) => (PutPermit(r), Free(b))
    case PutPermit(r) => (Done(r), GivePermit)
    case Change(c, s) => (
      match s
      case Waiting => (Change(c, Holding), Lock)
      case Holding => (Change(c, Leaving(0)), SetEngine(c))
      case _ => (Changed(c), Unlock))
  }

  function EngineAfter(engine: Option<nat>, c: Call): Option<nat> {
    match c
    case Register(e) => Some(e)
    case Unregister(e) => if engine == Some(e) then None else engine
    case _ => engine
  }

  /** The shared state after an effect of thread t. */
  function Apply(w: World, t: nat, effect: Effect): World {
    match effect
    case Quiet => w
    case TakePermit => w.(active := w.active + 1, log := w.log + multiset{Took(t)})
    case GivePermit => w.(active := w.active - 1, log := w.log + multiset{Gave(t)})
    case Alloc => w.(live := w.live[w.nextBuffer := t], nextBuffer := w.nextBuffer + 1,
                     log := w.log + multiset{Allocated(t, w.nextBuffer)})
    case Free(b) => w.(live := w.live - {b}, log := w.log + multiset{Freed(t, b)})
    case Lock => w.(owner := Some(t))
    case Unlock => w.(owner := None)
    case SetEngine(c) => w.(engine := EngineAfter(w.engine, c), changes := w.changes + [Made(t, c)])
    case TakeNumber => w.(lastId := w.lastId + 1, log := w.log + multiset{Numbered(t, w.lastId + 1)})
  }

  function After(w: World, t: nat, th: Thread, effect: Effect): World {
    Apply(w, t, effect).(threads := w.threads[t := th])
  }

  predicate WantsLock(th: Thread) {
    (th.Infer? || th.Change?) && th.section.Waiting?
  }

  /** A thread can step unless its call is over or waits for a mutex that another thread holds. */
  predicate Enabled(w: World, t: nat) {
    !IsOver(At(w, t)) && (WantsLock(At(w, t)) ==> w.owner.None?)
  }

  function Next(w: World, limit: nat, t: nat, env: Env): World
    requires Enabled(w, t)
  {
    var (th, effect) := Transition(w, limit, At(w, t), env);
    After(w, t, th, effect)
  }

  /** The world after a run of steps, or None if one of them was not enabled. */
  function Run(limit: nat, steps: seq<(nat, Env)>): Option<World> {
    if steps == [] then Some(START)
    else
      var before, (t, env) := Run(limit, steps[..|steps| - 1]), steps[|steps| - 1];
      if before.None? || !Enabled(before.value, t) then None else Some(Next(before.value, limit, t, env))
  }

  // ----- what a thread owns

  /** Threads between the increment and the decrement of the active counter. */
  predicate IsCounted(th: Thread) {
    !th.Idle? && !IsOver(th) && !th.Change? && (th.Infer? ==> th.buffers.Some?)
  }

  predicate IsAdmitted(th: Thread) {
    IsCounted(th) && !th.Rejecting?
  }

  function BuffersOf(all: Buffers): set<nat> {
    {all.input} + if all.output.Some? then {all.output.value.0} else {}
  }

  function Holds(th: Thread): set<nat> {
    match th
    case CopyInput(b) => {b}
    case MakeOutput(b) => {b}
    case Infer(bs, _) => if bs.Some? then BuffersOf(bs.value) else {}
    case Finish(all, _) => BuffersOf(all)
    case FreeOutput(all, _) => BuffersOf(all)
    case FreeInput(b, _) => {b}
    case _ => {}
  }

  predicate InSection(th: Thread) {
    (th.Infer? || th.Change?) && !th.section.Waiting?
  }

  predicate Runs(th: Thread, engine: nat) {
    th.Infer? && th.section == Running(engine)
  }

  /** The two buffers of a call are different ones. */
  predicate WellFormed(th: Thread) {
    && ((th.Finish? || th.FreeOutput?) && th.all.output.Some? ==> th.all.output.value.0 != th.all.input)
    && (th.Infer? && th.buffers.Some? && th.buffers.value.output.Some? ==>
          th.buffers.value.output.value.0 != th.buffers.value.input)
    && (th.Change? ==> !th.section.Running?)
  }

  /** How the effect of a step of thread t to th shows in the permit it has. */
  ghost predicate PermitMatches(w: World, limit: nat, t: nat, th: Thread, effect: Effect) {
    var was := At(w, t);
    && !th.Idle?
    && IsCounted(th) == (if effect.TakePermit? then true else if effect.GivePermit? then false else IsCounted(was))
    && (effect.TakePermit? ==> was.Idle? && (IsAdmitted(th) <==> w.active + 1 <= limit))
    && (effect.GivePermit? ==> IsCounted(was))
    && (IsAdmitted(th) ==> effect.TakePermit? || IsAdmitted(was))
  }

  /** The same for its buffers. */
  ghost predicate BuffersMatch(w: World, t: nat, th: Thread, effect: Effect) {
    var was := At(w, t);
    && (forall b: nat :: b in Holds(th) <==>
          if effect.Alloc? then b in Holds(was) || b == w.nextBuffer
          else if effect.Free? then b in Holds(was) && b != effect.buffer else b in Holds(was))
    && (effect.Free? ==> effect.buffer in Holds(was))
  }

  /** The same for its place with respect to the mutex. */
  ghost predicate SectionMatches(w: World, t: nat, th: Thread, effect: Effect) {
    var was := At(w, t);
    && InSection(th) == (if effect.Lock? then true else if effect.Unlock? then false else InSection(was))
    && (effect.Lock? ==> WantsLock(was)) && (effect.Unlock? || effect.SetEngine? ==> InSection(was))
    && (forall e: nat :: Runs(th, e) ==> w.engine == Some(e) && !effect.SetEngine?)
    && (th.Changed? || (th.Change? && th.section.Leaving?) ==>
          (effect.SetEngine? && effect.call == th.call) || (was.Change? && was.section.Leaving? && was.call == th.call))
  }

  lemma TransitionPermit(w: World, limit: nat, t: nat, env: Env)
    requires Enabled(w, t)
    ensures var (th, effect) := Transition(w, limit, At(w, t), env);
            PermitMatches(w, limit, t, th, effect)
  {
  }

  lemma TransitionBuffers(w: World, limit: nat, t: nat, env: Env)
    requires Enabled(w, t) && WellFormed(At(w, t)) && forall b: nat :: b in Holds(At(w, t)) ==> b < w.nextBuffer
    ensures var (th, effect) := Transition(w, limit, At(w, t), env);
            BuffersMatch(w, t, th, effect)
  {
  }

  lemma TransitionWellFormed(w: World, limit: nat, t: nat, env: Env)
    requires Enabled(w, t) && WellFormed(At(w, t)) && forall b: nat :: b in Holds(At(w, t)) ==> b < w.nextBuffer
    ensures WellFormed(Transition(w, limit, At(w, t), env).0)
  {
    var was := At(w, t);
    assert was.MakeOutput? ==> was.input in Holds(was);
  }

  lemma TransitionSection(w: World, limit: nat, t: nat, env: Env)
    requires Enabled(w, t) && WellFormed(At(w, t))
    ensures var (th, effect) := Transition(w, limit, At(w, t), env);
            SectionMatches(w, t, th, effect)
  {
  }

  // ----- the invariant

  function Counted(threads: map<nat, Thread>): set<nat> {
    set t | t in threads && IsCounted(threads[t])
  }

  function Admitted(threads: map<nat, Thread>): set<nat> {
    set t | t in threads && IsAdmitted(threads[t])
  }

  ghost predicate ThreadsWellFormed(w: World) {
    forall t: nat :: WellFormed(At(w, t))
  }

  ghost predicate PermitsLogged(log: multiset<Event>, th: Thread, t: nat) {
    && log[Took(t)] == log[Gave(t)] + (if IsCounted(th) then 1 else 0)
    && log[Took(t)] <= if th.Idle? then 0 else 1
  }

  ghost predicate BufferLogged(log: multiset<Event>, th: Thread, t: nat, b: nat, next: nat) {
    && log[Allocated(t, b)] == log[Freed(t, b)] + (if b in Holds(th) then 1 else 0)
    && log[Allocated(t, b)] <= if b < next then 1 else 0
  }

  ghost predicate PermitsAgree(w: World, limit: nat) {
    && w.active == |Counted(w.threads)| && |Admitted(w.threads)| <= limit
    && forall t: nat :: PermitsLogged(w.log, At(w, t), t)
  }

  ghost predicate LiveAt(live: map<nat, nat>, th: Thread, t: nat, b: nat) {
    b in Holds(th) <==> b in live && live[b] == t
  }

  /** The live buffers are those that some thread holds, each held by one thread. */
  ghost predicate LiveAgrees(w: World) {
    && (forall b :: b in w.live ==> b < w.nextBuffer)
    && (forall t: nat, b: nat :: LiveAt(w.live, At(w, t), t, b))
  }

  ghost predicate BuffersAgree(w: World) {
    LiveAgrees(w) && forall t: nat, b: nat :: BufferLogged(w.log, At(w, t), t, b, w.nextBuffer)
  }

  ghost predicate LockAgrees(w: World) {
    forall t: nat :: w.owner == Some(t) <==> InSection(At(w, t))
  }

  /** The engine that a sequence of changes leaves. */
  function LastEngine(changes: seq<Made>): Option<nat> {
    if changes == [] then None else EngineAfter(LastEngine(changes[..|changes| - 1]), changes[|changes| - 1].call)
  }

  ghost predicate EngineAgrees(w: World) {
    && w.engine == LastEngine(w.changes)
    && (forall t: nat, e: nat :: Runs(At(w, t), e) ==> w.engine == Some(e))
  }

  ghost predicate NumbersAgree(w: World) {
    && (forall t: nat, id: nat :: Numbered(t, id) in w.log ==> id <= w.lastId && w.log[Numbered(t, id)] == 1)
    && (forall t: nat, u: nat, id: nat :: Numbered(t, id) in w.log && Numbered(u, id) in w.log ==> t == u)
  }

  predicate IsRecorded(th: Thread, t: nat, changes: seq<Made>) {
    th.Changed? || (th.Change? && th.section.Leaving?) ==> Made(t, th.call) in changes
  }

  /** A change that was made has been recorded. */
  ghost predicate ChangesAgree(w: World) {
    forall t: nat :: IsRecorded(At(w, t), t, w.changes)
  }

  ghost predicate Invariant(w: World, limit: nat) {
    && ThreadsWellFormed(w) && PermitsAgree(w, limit) && BuffersAgree(w) && LockAgrees(w) && EngineAgrees(w)
    && NumbersAgree(w) && ChangesAgree(w)
  }

  // ----- every step keeps the invariant

  lemma CountedAfter(threads: map<nat, Thread>, t: nat, th: Thread)
    ensures Counted(threads[t := th]) == if IsCounted(th) then Counted(threads) + {t} else Counted(threads) - {t}
    ensures Admitted(threads[t := th]) == if IsAdmitted(th) then Admitted(threads) + {t} else Admitted(threads) - {t}
  {
  }

  lemma SubsetSize<T>(a: set<T>, b: set<T>)
    requires a <= b
    ensures |a| <= |b|
  {
    assert b == a + (b - a);
  }

  lemma AdmittedAreCounted(threads: map<nat, Thread>)
    ensures |Admitted(threads)| <= |Counted(threads)|
  {
    SubsetSize(Admitted(threads), Counted(threads));
  }

  /** Putting t into a set or taking it out. */
  lemma SizeAfter(s: set<nat>, t: nat, s': set<nat>, stays: bool)
    requires s' == if stays then s + {t} else s - {t}
    ensures |s'| == |s - {t}| + (if stays then 1 else 0)
    ensures |s| == |s - {t}| + (if t in s then 1 else 0)
  {
    assert s == if t in s then s - {t} + {t} else s - {t};
    assert s + {t} == s - {t} + {t};
  }

  lemma SizesAfter(threads: map<nat, Thread>, t: nat, th: Thread)
    ensures var after := threads[t := th];
            && |Counted(after)| == |Counted(threads)| + Bit(IsCounted(th)) - Bit(t in Counted(threads))
            && |Admitted(after)| == |Admitted(threads)| + Bit(IsAdmitted(th)) - Bit(t in Admitted(threads))
  {
    CountedAfter(threads, t, th);
    SizeAfter(Counted(threads), t, Counted(threads[t := th]), IsCounted(th));
    SizeAfter(Admitted(threads), t, Admitted(threads[t := th]), IsAdmitted(th));
  }

  lemma CountsAfter(w: World, limit: nat, t: nat, th: Thread, effect: Effect)
    requires w.active == |Counted(w.threads)| && |Admitted(w.threads)| <= limit
    requires PermitMatches(w, limit, t, th, effect)
    ensures var threads := w.threads[t := th];
            Apply(w, t, effect).active == |Counted(threads)| && |Admitted(threads)| <= limit
  {
    SizesAfter(w.threads, t, th);
    AdmittedAreCounted(w.threads);
    assert t in Counted(w.threads) <==> IsCounted(At(w, t));
    assert t in Admitted(w.threads) <==> IsAdmitted(At(w, t));
  }

  lemma KeepsPermits(w: World, limit: nat, t: nat, th: Thread, effect: Effect)
    requires PermitsAgree(w, limit) && PermitMatches(w, limit, t, th, effect)
    ensures PermitsAgree(After(w, t, th, effect), limit)
  {
    var w' := After(w, t, th, effect);
    CountsAfter(w, limit, t, th, effect);
    forall u: nat
      ensures PermitsLogged(w'.log, At(w', u), u)
    {
      assert PermitsLogged(w.log, At(w, u), u);
      assert At(w', u) == if u == t then th else At(w, u);
    }
  }

  lemma LoggedAfter(w: World, t: nat, th: Thread, effect: Effect, u: nat, b: nat)
    requires BuffersMatch(w, t, th, effect) && BufferLogged(w.log, At(w, u), u, b, w.nextBuffer)
    requires b in Holds(At(w, u)) ==> b < w.nextBuffer
    ensures BufferLogged(Apply(w, t, effect).log, if u == t then th else At(w, u), u, b, Apply(w, t, effect).nextBuffer)
  {
  }

  lemma LiveAfter(w: World, t: nat, th: Thread, effect: Effect, u: nat, b: nat)
    requires BuffersMatch(w, t, th, effect) && forall c :: c in w.live ==> c < w.nextBuffer
    requires LiveAt(w.live, At(w, u), u, b) && LiveAt(w.live, At(w, t), t, b)
    ensures LiveAt(Apply(w, t, effect).live, if u == t then th else At(w, u), u, b)
  {
  }

  lemma KeepsLive(w: World, t: nat, th: Thread, effect: Effect)
    requires LiveAgrees(w) && BuffersMatch(w, t, th, effect)
    ensures LiveAgrees(After(w, t, th, effect))
  {
    var w' := After(w, t, th, effect);
    forall u: nat, b: nat
      ensures LiveAt(w'.live, At(w', u), u, b)
    {
      assert LiveAt(w.live, At(w, u), u, b) && LiveAt(w.live, At(w, t), t, b);
      assert At(w', u) == if u == t then th else At(w, u);
      LiveAfter(w, t, th, effect, u, b);
    }
  }

  lemma KeepsBuffers(w: World, t: nat, th: Thread, effect: Effect)
    requires BuffersAgree(w) && BuffersMatch(w, t, th, effect)
    ensures BuffersAgree(After(w, t, th, effect))
  {
    var w' := After(w, t, th, effect);
    KeepsLive(w, t, th, effect);
    forall u: nat, b: nat
      ensures BufferLogged(w'.log, At(w', u), u, b, w'.nextBuffer)
    {
      assert BufferLogged(w.log, At(w, u), u, b, w.nextBuffer);
      assert LiveAt(w.live, At(w, u), u, b);
      assert At(w', u) == if u == t then th else At(w, u);
      LoggedAfter(w, t, th, effect, u, b);
    }
  }

  lemma KeepsLock(w: World, t: nat, th: Thread, effect: Effect)
    requires LockAgrees(w) && SectionMatches(w, t, th, effect) && (WantsLock(At(w, t)) ==> w.owner.None?)
    ensures LockAgrees(After(w, t, th, effect))
  {
    var w' := After(w, t, th, effect);
    forall u: nat
      ensures w'.owner == Some(u) <==> InSection(At(w', u))
    {
      assert At(w', u) == if u == t then th else At(w, u);
      assert w.owner == Some(u) <==> InSection(At(w, u));
      assert w.owner == Some(t) <==> InSection(At(w, t));
    }
  }

  lemma KeepsEngine(w: World, t: nat, th: Thread, effect: Effect)
    requires LockAgrees(w) && EngineAgrees(w) && SectionMatches(w, t, th, effect)
    ensures EngineAgrees(After(w, t, th, effect))
  {
    var w' := After(w, t, th, effect);
    if effect.SetEngine? {
      assert w'.changes[..|w'.changes| - 1] == w.changes;
    }
    forall u: nat, e: nat | Runs(At(w', u), e)
      ensures w'.engine == Some(e)
    {
      assert At(w', u) == if u == t then th else At(w, u);
      if u != t {
        assert w.owner == Some(u) && w.engine == Some(e);
        assert w.owner == Some(t) <==> InSection(At(w, t));
      }
    }
  }

  lemma KeepsNumbers(w: World, t: nat, th: Thread, effect: Effect)
    requires NumbersAgree(w)
    ensures NumbersAgree(After(w, t, th, effect))
  {
    var w' := After(w, t, th, effect);
    forall u: nat, id: nat | Numbered(u, id) in w'.log
      ensures id <= w'.lastId && w'.log[Numbered(u, id)] == 1
      ensures Numbered(u, id) in w.log || (u == t && id == w.lastId + 1)
    {
      if Numbered(u, id) in w.log {
        assert id <= w.lastId && w.log[Numbered(u, id)] == 1;
      }
    }
  }

  lemma AfterKeeps(w: World, limit: nat, t: nat, th: Thread, effect: Effect)
    requires Invariant(w, limit) && WellFormed(th) && (WantsLock(At(w, t)) ==> w.owner.None?)
    requires PermitMatches(w, limit, t, th, effect)
    requires BuffersMatch(w, t, th, effect) && SectionMatches(w, t, th, effect)
    ensures Invariant(After(w, t, th, effect), limit)
  {
    forall u: nat
      ensures WellFormed(At(After(w, t, th, effect), u))
      ensures IsRecorded(At(After(w, t, th, effect), u), u, After(w, t, th, effect).changes)
    {
      assert WellFormed(At(w, u)) && IsRecorded(At(w, u), u, w.changes) && IsRecorded(At(w, t), t, w.changes);
    }
    KeepsPermits(w, limit, t, th, effect);
    KeepsBuffers(w, t, th, effect);
    KeepsLock(w, t, th, effect);
    KeepsEngine(w, t, th, effect);
    KeepsNumbers(w, t, th, effect);
  }

  lemma NextKeeps(w: World, limit: nat, t: nat, env: Env)
    requires Invariant(w, limit) && Enabled(w, t)
    ensures Invariant(Next(w, limit, t, env), limit)
  {
    var (th, effect) := Transition(w, limit, At(w, t), env);
    assert WellFormed(At(w, t));
    forall b: nat | b in Holds(At(w, t))
      ensures b < w.nextBuffer
    {
      assert LiveAt(w.live, At(w, t), t, b);
    }
    TransitionPermit(w, limit, t, env);
    TransitionBuffers(w, limit, t, env);
    TransitionWellFormed(w, limit, t, env);
    TransitionSection(w, limit, t, env);
    AfterKeeps(w, limit, t, th, effect);
  }

  lemma {:induction false} RunInvariant(limit: nat, steps: seq<(nat, Env)>)
    requires Run(limit, steps).Some?
    ensures Invariant(Run(limit, steps).value, limit)
    decreases |steps|
  {
    if steps == [] {
      assert Counted(START.threads) == {} && Admitted(START.threads) == {};
    } else {
      var before, last := steps[..|steps| - 1], steps[|steps| - 1];
      RunInvariant(limit, before);
      NextKeeps(Run(limit, before).value, limit, last.0, last.1);
    }
  }

  // ----- main results, for every run of any number of interleaved threads

  /**
   No more than limit calls are admitted at once, and the counter is exactly the number of admitted calls and
   of those on their way out after a refusal.
   */
  lemma AdmittedBounded(limit: nat, steps: seq<(nat, Env)>)
    requires Run(limit, steps).Some?
    ensures var w := Run(limit, steps).value;
            && |Admitted(w.threads)| <= limit && w.active == |Counted(w.threads)|
            && forall t :: t in Counted(w.threads) <==> t in Admitted(w.threads) || At(w, t).Rejecting?
  {
    RunInvariant(limit, steps);
  }

  /** A call that gets as far as the count is refused exactly when limit calls are admitted or on their way out. */
  lemma RefusedExactly(limit: nat, steps: seq<(nat, Env)>, t: nat, env: Env)
    requires Run(limit, steps).Some? && At(Run(limit, steps).value, t).Idle? && env.call.Syscall?
    ensures var w := Run(limit, steps).value;
            At(Next(w, limit, t, env), t).Rejecting? <==>
              env.argError == 0 && env.permError == 0 && |Counted(w.threads)| >= limit
  {
    RunInvariant(limit, steps);
  }

  // ----- a refusal while none is admitted, at every limit

  /** The next step of a run, from thread state was to th. */
  lemma OneMore(limit: nat, steps: seq<(nat, Env)>, w: World, t: nat, env: Env, was: Thread, th: Thread, effect: Effect)
    returns (w': World)
    requires Run(limit, steps) == Some(w) && At(w, t) == was && !IsOver(was) && !WantsLock(was)
    requires Transition(w, limit, was, env) == (th, effect)
    requires effect.TakePermit? || effect.GivePermit? || effect.Quiet?
    ensures Run(limit, steps + [(t, env)]) == Some(w') && w'.threads == w.threads[t := th]
    ensures w'.active == w.active + if effect.TakePermit? then 1 else if effect.GivePermit? then -1 else 0
  {
    w' := Next(w, limit, t, env);
    assert (steps + [(t, env)])[..|steps|] == steps;
  }

  /** Thread u when the first `entered` threads have been counted and the first `gone` of them have left. */
  function Place(limit: nat, entered: nat, gone: nat, u: nat): Thread {
    if u >= entered then Idle else if u >= limit then Rejecting else if u < gone then Done(EFAULT) else ReadName
  }

  ghost predicate InPlace(w: World, limit: nat, entered: nat, gone: nat) {
    && w.active == entered - gone
    && forall u: nat {:trigger At(w, u)} :: At(w, u) == Place(limit, entered, gone, u)
  }

  lemma OneEntered(limit: nat, steps: seq<(nat, Env)>, bad: Env, v: World, t: nat) returns (w: World)
    requires bad.call.Syscall? && EntryError(bad) == 0 && Run(limit, steps) == Some(v) && At(v, t) == Idle
    ensures Run(limit, steps + [(t, bad)]) == Some(w) && w.active == v.active + 1
    ensures w.threads == v.threads[t := if v.active + 1 > limit then Rejecting else ReadName]
  {
    w := OneMore(limit, steps, v, t, bad, Idle, if v.active + 1 > limit then Rejecting else ReadName, TakePermit);
  }

  lemma EnteredInPlace(limit: nat, n: nat, v: World, w: World)
    requires n > 0 && InPlace(v, limit, n - 1, 0) && w.active == v.active + 1
    requires w.threads == v.threads[n - 1 := if n > limit then Rejecting else ReadName]
    ensures InPlace(w, limit, n, 0)
  {
    forall u: nat
      ensures At(w, u) == Place(limit, n, 0, u)
    {
      assert At(v, u) == Place(limit, n - 1, 0, u);
    }
  }

  /** Calls enter one after another; those above the limit are refused and have not yet counted themselves out. */
  lemma {:induction false} Entered(limit: nat, bad: Env, n: nat) returns (steps: seq<(nat, Env)>, w: World)
    requires bad.call.Syscall? && EntryError(bad) == 0
    ensures Run(limit, steps) == Some(w) && InPlace(w, limit, n, 0)
  {
    if n == 0 {
      steps, w := [], START;
    } else {
      var before, v := Entered(limit, bad, n - 1);
      assert At(v, n - 1) == Idle;
      w := OneEntered(limit, before, bad, v, n - 1);
      steps := before + [(n - 1, bad)];
      EnteredInPlace(limit, n, v, w);
    }
  }

  lemma OneGone(limit: nat, steps: seq<(nat, Env)>, bad: Env, v: World, t: nat)
    returns (after: seq<(nat, Env)>, w: World)
    requires !bad.nameOk && Run(limit, steps) == Some(v) && At(v, t) == ReadName
    ensures Run(limit, after) == Some(w)
    ensures w.threads == v.threads[t := Done(EFAULT)] && w.active == v.active - 1
  {
    var u := OneMore(limit, steps, v, t, bad, ReadName, PutPermit(EFAULT), Quiet);
    w := OneMore(limit, steps + [(t, bad)], u, t, bad, PutPermit(EFAULT), Done(EFAULT), GivePermit);
    after := steps + [(t, bad)] + [(t, bad)];
  }

  lemma GoneInPlace(limit: nat, n: nat, v: World, w: World)
    requires 0 < n <= limit && InPlace(v, limit, 2 * limit, n - 1) && w.active == v.active - 1
    requires w.threads == v.threads[n - 1 := Done(EFAULT)]
    ensures InPlace(w, limit, 2 * limit, n)
  {
    forall u: nat
      ensures At(w, u) == Place(limit, 2 * limit, n, u)
    {
      assert At(v, u) == Place(limit, 2 * limit, n - 1, u);
    }
  }

  /** Then the first n of the admitted calls fail on the model name and leave. */
  lemma {:induction false} Gone(limit: nat, bad: Env, n: nat) returns (steps: seq<(nat, Env)>, w: World)
    requires bad.call.Syscall? && EntryError(bad) == 0 && !bad.nameOk && n <= limit
    ensures Run(limit, steps) == Some(w) && InPlace(w, limit, 2 * limit, n)
  {
    if n == 0 {
      steps, w := Entered(limit, bad, 2 * limit);
    } else {
      var before, v := Gone(limit, bad, n - 1);
      assert At(v, n - 1) == Place(limit, 2 * limit, n - 1, n - 1);
      steps, w := OneGone(limit, before, bad, v, n - 1);
      GoneInPlace(limit, n, v, w);
    }
  }

  /**
   So at every limit a call can be refused though no call is admitted: as many calls as the limit are admitted, as many
   more are refused, the admitted ones leave, and those refused have not yet counted themselves out.
   */
  lemma RefusedThoughIdle(limit: nat, bad: Env) returns (steps: seq<(nat, Env)>)
    requires bad.call.Syscall? && EntryError(bad) == 0 && !bad.nameOk
    ensures var w := Run(limit, steps + [(2 * limit, bad)]);
            w.Some? && Admitted(w.value.threads) == {} && At(w.value, 2 * limit).Rejecting?
  {
    var before, w := Gone(limit, bad, limit);
    steps := before;
    assert At(w, 2 * limit) == Idle;
    var after := OneMore(limit, steps, w, 2 * limit, bad, Idle, Rejecting, TakePermit);
    forall t | t in after.threads
      ensures !IsAdmitted(after.threads[t])
    {
      assert At(w, t) == Place(limit, 2 * limit, limit, t);
    }
  }

  // ----- permits, buffers, the mutex and the engine

  /** When a call is over, it has given back its permit, if it took one, and freed each of its buffers once. */
  lemma OverReleasesOnce(limit: nat, steps: seq<(nat, Env)>, t: nat, b: nat)
    requires Run(limit, steps).Some? && IsOver(At(Run(limit, steps).value, t))
    ensures var w := Run(limit, steps).value;
            && w.log[Took(t)] == w.log[Gave(t)] <= 1
            && w.log[Allocated(t, b)] == w.log[Freed(t, b)] <= 1
            && !(b in w.live && w.live[b] == t)
  {
    RunInvariant(limit, steps);
    var w := Run(limit, steps).value;
    assert PermitsLogged(w.log, At(w, t), t) && BufferLogged(w.log, At(w, t), t, b, w.nextBuffer);
    assert LiveAt(w.live, At(w, t), t, b);
  }

  ghost predicate AllOver(w: World) {
    forall t :: t in w.threads ==> IsOver(w.threads[t])
  }

  lemma OverIsQuiet(w: World, limit: nat)
    requires Invariant(w, limit) && AllOver(w)
    ensures w.active == 0 && w.live == map[] && w.owner == None
  {
    assert Counted(w.threads) == {};
    assert forall b :: b in w.live ==> LiveAt(w.live, At(w, w.live[b]), w.live[b], b);
    assert w.owner.Some? ==> InSection(At(w, w.owner.value));
  }

  /** When all calls are over, nothing is counted, allocated or locked. */
  lemma AllOverIsQuiet(limit: nat, steps: seq<(nat, Env)>)
    requires Run(limit, steps).Some? && AllOver(Run(limit, steps).value)
    ensures var w := Run(limit, steps).value; w.active == 0 && w.live == map[] && w.owner == None
  {
    RunInvariant(limit, steps);
    OverIsQuiet(Run(limit, steps).value, limit);
  }

  lemma MutualExclusion(limit: nat, steps: seq<(nat, Env)>, t: nat, u: nat)
    requires Run(limit, steps).Some?
    requires InSection(At(Run(limit, steps).value, t)) && InSection(At(Run(limit, steps).value, u))
    ensures t == u
  {
    RunInvariant(limit, steps);
  }

  /** e was registered by change i, and no later change replaced or removed it. */
  predicate RegisteredAt(changes: seq<Made>, e: nat, i: nat) {
    && i < |changes| && changes[i].call == Register(e)
    && forall j :: i < j < |changes| ==> !changes[j].call.Register? && changes[j].call != Unregister(e)
  }

  lemma {:induction false} LastEngineExactly(changes: seq<Made>, e: nat)
    ensures LastEngine(changes) == Some(e) <==> exists i: nat :: RegisteredAt(changes, e, i)
  {
    if changes != [] {
      var before, last := changes[..|changes| - 1], |changes| - 1;
      LastEngineExactly(before, e);
      if LastEngine(changes) == Some(e) {
        if changes[last].call == Register(e) {
          assert RegisteredAt(changes, e, last);
        } else {
          var i: nat :| RegisteredAt(before, e, i);
          assert RegisteredAt(changes, e, i);
        }
      }
      if i: nat :| RegisteredAt(changes, e, i) && i < last {
        assert RegisteredAt(before, e, i);
      }
    }
  }

  /** A thread only ever runs the engine that was registered last and not unregistered since. */
  lemma RunsOnlyRegistered(limit: nat, steps: seq<(nat, Env)>, t: nat, e: nat)
    requires Run(limit, steps).Some? && Runs(At(Run(limit, steps).value, t), e)
    ensures exists i: nat :: RegisteredAt(Run(limit, steps).value.changes, e, i)
  {
    RunInvariant(limit, steps);
    LastEngineExactly(Run(limit, steps).value.changes, e);
  }

  lemma UnregisteredBefore(changes: seq<Made>, made: Made, e: nat, k: nat)
    requires made in changes && made.call == Unregister(e) && RegisteredAt(changes, e, k)
    ensures IndexOf(changes, made) < k
  {
    assert changes[IndexOf(changes, made)] == made;
  }

  lemma ChangeIsRecorded(limit: nat, steps: seq<(nat, Env)>, u: nat, c: Call)
    requires Run(limit, steps).Some? && At(Run(limit, steps).value, u) == Changed(c)
    ensures Made(u, c) in Run(limit, steps).value.changes
  {
    RunInvariant(limit, steps);
    assert IsRecorded(At(Run(limit, steps).value, u), u, Run(limit, steps).value.changes);
  }

  /** Once a thread has returned from unregistering e, no thread runs e until e is registered again. */
  lemma UnregisteredNeverRuns(limit: nat, steps: seq<(nat, Env)>, u: nat, e: nat, t: nat)
    requires Run(limit, steps).Some? && At(Run(limit, steps).value, u) == Changed(Unregister(e))
    ensures var w := Run(limit, steps).value;
            && Made(u, Unregister(e)) in w.changes
            && (Runs(At(w, t), e) ==>
                  exists k: nat :: IndexOf(w.changes, Made(u, Unregister(e))) < k && RegisteredAt(w.changes, e, k))
  {
    ChangeIsRecorded(limit, steps, u, Unregister(e));
    var w := Run(limit, steps).value;
    if Runs(At(w, t), e) {
      RunsOnlyRegistered(limit, steps, t, e);
      var k: nat :| RegisteredAt(w.changes, e, k);
      UnregisteredBefore(w.changes, Made(u, Unregister(e)), e, k);
    }
  }

  /** No two calls are given the same request id. */
  lemma RequestIdsDistinct(limit: nat, steps: seq<(nat, Env)>, t: nat, u: nat, id: nat)
    requires Run(limit, steps).Some?
    requires Numbered(t, id) in Run(limit, steps).value.log && Numbered(u, id) in Run(limit, steps).value.log
    ensures t == u && Run(limit, steps).value.log[Numbered(t, id)] == 1
  {
    RunInvariant(limit, steps);
  }

  ghost predicate IsNumbered(w: World, id: nat) {
    exists t: nat :: Numbered(t, id) in w.log
  }

  lemma NumberedStays(w: World, limit: nat, t: nat, env: Env, id: nat)
    requires Enabled(w, t) && IsNumbered(w, id)
    ensures IsNumbered(Next(w, limit, t, env), id)
  {
    var u: nat :| Numbered(u, id) in w.log;
    assert Numbered(u, id) in Next(w, limit, t, env).log;
  }

  /** The ids are 2, 3 and so on in turn, and each is given to some call. */
  lemma {:induction false} EveryIdIsGiven(limit: nat, steps: seq<(nat, Env)>, id: nat)
    requires Run(limit, steps).Some? && 1 < id <= Run(limit, steps).value.lastId
    ensures IsNumbered(Run(limit, steps).value, id)
    decreases |steps|
  {
    if steps != [] {
      var before, last := steps[..|steps| - 1], steps[|steps| - 1];
      var w := Run(limit, before).value;
      if id <= w.lastId {
        EveryIdIsGiven(limit, before, id);
        NumberedStays(w, limit, last.0, last.1, id);
      } else {
        assert Numbered(last.0, id) in Next(w, limit, last.0, last.1).log;
      }
    }
  }

  /** A call that has come back from the engine is given the next one. */
  lemma FinishTakesNext(w: World, limit: nat, t: nat, env: Env)
    requires At(w, t).Finish?
    ensures var v := Next(w, limit, t, env); v.lastId == w.lastId + 1 && Numbered(t, v.lastId) in v.log
  {
  }

  // ----- every call ends

  function SectionRank(s: Section): nat {
    match s
    case Waiting => 3
    case Holding => 2
    case Running(_) => 1
    case Leaving(_) => 0
  }

  function Rank(th: Thread): nat {
    match th
    case Idle => 13
    case ReadName => 12
    case ReadInput => 11
    case CopyInput(_) => 10
    case MakeOutput(_) => 9
    case Infer(_, s) => 5 + SectionRank(s)
    case Change(_, s) => 5 + SectionRank(s)
    case Finish(_, _) => 4
    case FreeOutput(_, _) => 3
    case FreeInput(_, _) => 2
    case PutPermit(_) => 1
    case Rejecting => 1
    case _ => 0
  }

  /** A call takes at most 13 steps of its own. */
  lemma StepsRunOut(w: World, limit: nat, t: nat, env: Env)
    requires Enabled(w, t)
    ensures Rank(At(Next(w, limit, t, env), t)) < Rank(At(w, t)) <= 13
  {
  }

  /** No deadlock: while some call is not over, some such call can step. */
  lemma NoDeadlock(limit: nat, steps: seq<(nat, Env)>, t: nat) returns (u: nat)
    requires Run(limit, steps).Some? && t in Run(limit, steps).value.threads
    requires !IsOver(At(Run(limit, steps).value, t))
    ensures u in Run(limit, steps).value.threads && Enabled(Run(limit, steps).value, u)
  {
    RunInvariant(limit, steps);
    var w := Run(limit, steps).value;
    if Enabled(w, t) {
      return t;
    } else {
      u := w.owner.value;
      assert InSection(At(w, u));
    }
  }

  // ----- a call that runs without interruption

  /** The world when t has stepped until its call is over or blocked. */
  function Alone(w: World, limit: nat, t: nat, env: Env): World
    decreases Rank(At(w, t))
  {
    if !Enabled(w, t) then w
    else
      StepsRunOut(w, limit, t, env);
      Alone(Next(w, limit, t, env), limit, t, env)
  }

  /** What the system call returns. */
  function Outcome(active: int, engine: Option<nat>, limit: nat, env: Env): int {
    if env.argError != 0 then env.argError
    else if env.permError != 0 then env.permError
    else if active >= limit then EAGAIN
    else if !env.nameOk then EFAULT
    else if env.inputError != 0 then env.inputError
    else if !env.inputMemory then ENOMEM
    else if !env.copyInOk then EFAULT
    else if env.output.Some? && !env.outputMemory then ENOMEM
    else if engine.None? then ENODEV
    else if env.engineReturn != 0 then env.engineReturn
    else if env.output.None? then 0
    else if !env.copyOutOk then EFAULT
    else env.output.value
  }

  /** The calls that come as far as the engine take a request id. */
  predicate TakesNumber(active: int, limit: nat, env: Env) {
    && env.argError == 0 && env.permError == 0 && active < limit
    && env.nameOk && env.inputError == 0 && env.inputMemory && env.copyInOk
    && (env.output.Some? ==> env.outputMemory)
  }

  /** z is what w becomes when t ends with result r, freeing some buffers and taking some request ids. */
  ghost predicate EndsWith(w: World, z: World, t: nat, r: int, freed: set<nat>, numbers: nat) {
    && At(z, t) == Done(r) && z.active == w.active - 1 && z.live == w.live - freed
    && z.lastId == w.lastId + numbers && z.owner == w.owner && z.engine == w.engine
  }

  lemma FromPutPermit(w: World, limit: nat, t: nat, env: Env, r: int)
    requires At(w, t) == PutPermit(r)
    ensures EndsWith(w, Alone(w, limit, t, env), t, r, {}, 0)
  {
    var v := Next(w, limit, t, env);
    assert !Enabled(v, t) && Alone(v, limit, t, env) == v;
  }

  lemma FromFreeInput(w: World, limit: nat, t: nat, env: Env, b: nat, r: int)
    requires At(w, t) == FreeInput(b, r)
    ensures EndsWith(w, Alone(w, limit, t, env), t, r, {b}, 0)
  {
    FromPutPermit(Next(w, limit, t, env), limit, t, env, r);
  }

  lemma FromFreeOutput(w: World, limit: nat, t: nat, env: Env, all: Buffers, r: int)
    requires At(w, t) == FreeOutput(all, r)
    ensures EndsWith(w, Alone(w, limit, t, env), t, r, BuffersOf(all), 0)
  {
    var v := Next(w, limit, t, env);
    FromFreeInput(v, limit, t, env, all.input, r);
    assert v.live - {all.input} == w.live - BuffersOf(all);
  }

  lemma FromFinish(w: World, limit: nat, t: nat, env: Env, all: Buffers, ret: int)
    requires At(w, t) == Finish(all, ret)
    ensures EndsWith(w, Alone(w, limit, t, env), t, ResultOf(all, ret, env), BuffersOf(all), 1)
  {
    FromFreeOutput(Next(w, limit, t, env), limit, t, env, all, ResultOf(all, ret, env));
  }

  lemma FromLeaving(w: World, limit: nat, t: nat, env: Env, all: Buffers, ret: int)
    requires At(w, t) == Infer(Some(all), Leaving(ret))
    ensures EndsWith(w.(owner := None), Alone(w, limit, t, env), t, ResultOf(all, ret, env), BuffersOf(all), 1)
  {
    FromFinish(Next(w, limit, t, env), limit, t, env, all, ret);
  }

  lemma FromHolding(w: World, limit: nat, t: nat, env: Env, all: Buffers)
    requires At(w, t) == Infer(Some(all), Holding)
    ensures var ret := if w.engine.Some? then env.engineReturn else ENODEV;
            EndsWith(w.(owner := None), Alone(w, limit, t, env), t, ResultOf(all, ret, env), BuffersOf(all), 1)
  {
    var v := Next(w, limit, t, env);
    if w.engine.Some? {
      FromLeaving(Next(v, limit, t, env), limit, t, env, all, env.engineReturn);
    } else {
      FromLeaving(v, limit, t, env, all, ENODEV);
    }
  }

  lemma FromInfer(w: World, limit: nat, t: nat, env: Env, all: Buffers)
    requires At(w, t) == Infer(Some(all), Waiting) && w.owner == None
    ensures var ret := if w.engine.Some? then env.engineReturn else ENODEV;
            EndsWith(w, Alone(w, limit, t, env), t, ResultOf(all, ret, env), BuffersOf(all), 1)
  {
    FromHolding(Next(w, limit, t, env), limit, t, env, all);
  }

  /** What a call has passed when it has read the model name. */
  predicate PassedName(w: World, limit: nat, env: Env) {
    EntryError(env) == 0 && w.active > 0 && w.active - 1 < limit && env.nameOk
  }

  lemma FromMakeOutput(w: World, limit: nat, t: nat, env: Env, b: nat)
    requires At(w, t) == MakeOutput(b) && w.owner == None
    requires PassedName(w, limit, env) && env.inputError == 0 && env.inputMemory && env.copyInOk
    requires forall c :: c in w.live ==> c < w.nextBuffer
    ensures EndsWith(w, Alone(w, limit, t, env), t, Outcome(w.active - 1, w.engine, limit, env), {b},
                     if TakesNumber(w.active - 1, limit, env) then 1 else 0)
  {
    var v := Next(w, limit, t, env);
    if env.output.None? {
      FromInfer(v, limit, t, env, Buffers(b, None));
    } else if env.outputMemory {
      var all := Buffers(b, Some((w.nextBuffer, env.output.value)));
      FromInfer(v, limit, t, env, all);
      assert v.live - BuffersOf(all) == w.live - {b};
    } else {
      FromFreeInput(v, limit, t, env, b, ENOMEM);
    }
  }

  lemma FromCopyInput(w: World, limit: nat, t: nat, env: Env, b: nat)
    requires At(w, t) == CopyInput(b) && w.owner == None
    requires PassedName(w, limit, env) && env.inputError == 0 && env.inputMemory
    requires forall c :: c in w.live ==> c < w.nextBuffer
    ensures EndsWith(w, Alone(w, limit, t, env), t, Outcome(w.active - 1, w.engine, limit, env), {b},
                     if TakesNumber(w.active - 1, limit, env) then 1 else 0)
  {
    var v := Next(w, limit, t, env);
    if env.copyInOk {
      FromMakeOutput(v, limit, t, env, b);
    } else {
      FromPutPermit(v, limit, t, env, EFAULT);
    }
  }

  lemma FromReadInput(w: World, limit: nat, t: nat, env: Env)
    requires At(w, t) == ReadInput && w.owner == None
    requires PassedName(w, limit, env)
    requires forall c :: c in w.live ==> c < w.nextBuffer
    ensures EndsWith(w, Alone(w, limit, t, env), t, Outcome(w.active - 1, w.engine, limit, env), {},
                     if TakesNumber(w.active - 1, limit, env) then 1 else 0)
  {
    var v := Next(w, limit, t, env);
    if env.inputError != 0 {
      FromPutPermit(v, limit, t, env, env.inputError);
    } else if !env.inputMemory {
      FromPutPermit(v, limit, t, env, ENOMEM);
    } else {
      FromCopyInput(v, limit, t, env, w.nextBuffer);
      assert v.live - {w.nextBuffer} == w.live - {};
    }
  }

  lemma FromRejecting(w: World, limit: nat, t: nat, env: Env)
    requires At(w, t) == Rejecting
    ensures EndsWith(w, Alone(w, limit, t, env), t, EAGAIN, {}, 0)
  {
    var v := Next(w, limit, t, env);
    assert !Enabled(v, t) && Alone(v, limit, t, env) == v;
  }

  lemma FromReadName(w: World, limit: nat, t: nat, env: Env)
    requires At(w, t) == ReadName && w.owner == None
    requires EntryError(env) == 0 && w.active > 0 && w.active - 1 < limit
    requires forall c :: c in w.live ==> c < w.nextBuffer
    ensures EndsWith(w, Alone(w, limit, t, env), t, Outcome(w.active - 1, w.engine, limit, env), {},
                     if TakesNumber(w.active - 1, limit, env) then 1 else 0)
  {
    var v := Next(w, limit, t, env);
    if env.nameOk {
      FromReadInput(v, limit, t, env);
    } else {
      FromPutPermit(v, limit, t, env, EFAULT);
    }
  }

  /**
   A call that nothing interrupts returns its outcome and leaves the counter, the live buffers, the mutex and
   the engine as they were.
   */
  lemma AloneReturnsOutcome(w: World, limit: nat, t: nat, env: Env)
    requires At(w, t).Idle? && env.call.Syscall? && w.owner == None && w.active >= 0
    requires forall c :: c in w.live ==> c < w.nextBuffer
    ensures var z := Alone(w, limit, t, env);
            && At(z, t) == Done(Outcome(w.active, w.engine, limit, env))
            && z.active == w.active && z.live == w.live && z.owner == None && z.engine == w.engine
            && z.lastId == w.lastId + if TakesNumber(w.active, limit, env) then 1 else 0
  {
    var v := Next(w, limit, t, env);
    if EntryError(env) != 0 {
      assert !Enabled(v, t) && Alone(v, limit, t, env) == v;
    } else if w.active >= limit {
      FromRejecting(v, limit, t, env);
    } else {
      FromReadName(v, limit, t, env);
    }
  }

  // ----- kernel callers and changes of the engine, alone

  /** z is w with thread t at th and the engine at e, and nothing else changed but the record of changes. */
  ghost predicate LeavesRest(w: World, z: World, t: nat, th: Thread, e: Option<nat>) {
    && z.threads == w.threads[t := th] && z.engine == e && z.owner == None
    && z.active == w.active && z.live == w.live && z.lastId == w.lastId && z.log == w.log
  }

  lemma AloneIsOver(w: World, limit: nat, t: nat, env: Env)
    requires IsOver(At(w, t))
    ensures Alone(w, limit, t, env) == w
  {
  }

  lemma KernelLeaves(w: World, limit: nat, t: nat, env: Env, ret: int)
    requires At(w, t) == Infer(None, Leaving(ret))
    ensures LeavesRest(w, Alone(w, limit, t, env), t, Done(ret), w.engine)
    ensures Alone(w, limit, t, env).changes == w.changes
  {
    AloneIsOver(Next(w, limit, t, env), limit, t, env);
  }

  lemma KernelHolds(w: World, limit: nat, t: nat, env: Env)
    requires At(w, t) == Infer(None, Holding)
    ensures var ret := if w.engine.Some? then env.engineReturn else ENODEV;
            LeavesRest(w, Alone(w, limit, t, env), t, Done(ret), w.engine)
    ensures Alone(w, limit, t, env).changes == w.changes
  {
    var v := Next(w, limit, t, env);
    if w.engine.Some? {
      KernelLeaves(Next(v, limit, t, env), limit, t, env, env.engineReturn);
    } else {
      KernelLeaves(v, limit, t, env, ENODEV);
    }
  }

  lemma KernelWaits(w: World, limit: nat, t: nat, env: Env)
    requires At(w, t) == Infer(None, Waiting) && w.owner == None
    ensures var ret := if w.engine.Some? then env.engineReturn else ENODEV;
            LeavesRest(w, Alone(w, limit, t, env), t, Done(ret), w.engine)
    ensures Alone(w, limit, t, env).changes == w.changes
  {
    KernelHolds(Next(w, limit, t, env), limit, t, env);
  }

  /** A kernel caller gets what the engine returns, or that there is none, and changes nothing. */
  lemma AloneInfers(w: World, limit: nat, t: nat, env: Env)
    requires At(w, t).Idle? && env.call.KernelInfer? && w.owner == None
    ensures var ret := if w.engine.Some? then env.engineReturn else -19;
            LeavesRest(w, Alone(w, limit, t, env), t, Done(ret), w.engine)
    ensures Alone(w, limit, t, env).changes == w.changes
  {
    KernelWaits(Next(w, limit, t, env), limit, t, env);
  }

  lemma ChangeHolds(w: World, limit: nat, t: nat, env: Env, c: Call)
    requires At(w, t) == Change(c, Holding)
    ensures LeavesRest(w, Alone(w, limit, t, env), t, Changed(c), EngineAfter(w.engine, c))
    ensures Alone(w, limit, t, env).changes == w.changes + [Made(t, c)]
  {
    var v := Next(w, limit, t, env);
    AloneIsOver(Next(v, limit, t, env), limit, t, env);
  }

  lemma ChangeWaits(w: World, limit: nat, t: nat, env: Env, c: Call)
    requires At(w, t) == Change(c, Waiting) && w.owner == None
    ensures LeavesRest(w, Alone(w, limit, t, env), t, Changed(c), EngineAfter(w.engine, c))
    ensures Alone(w, limit, t, env).changes == w.changes + [Made(t, c)]
  {
    ChangeHolds(Next(w, limit, t, env), limit, t, env, c);
  }

  /** A registration makes its engine the engine; an unregistration removes it if it is that one. Both are recorded. */
  lemma AloneChanges(w: World, limit: nat, t: nat, env: Env)
    requires At(w, t).Idle? && (env.call.Register? || env.call.Unregister?) && w.owner == None
    ensures var after := if env.call.Register? then Some(env.call.engine)
                         else if w.engine == Some(env.call.engine) then None else w.engine;
            LeavesRest(w, Alone(w, limit, t, env), t, Changed(env.call), after)
    ensures Alone(w, limit, t, env).changes == w.changes + [Made(t, env.call)]
  {
    ChangeWaits(Next(w, limit, t, env), limit, t, env, env.call);
  }
}
