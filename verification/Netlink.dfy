/**
 Decision requests from the kernel to user space: a request is queued, sent, and then answered or timed
 out. Each locked region of the program, and each arming or cancelling of a timer, is one step, and steps of
 different requests interleave.
 */
module Netlink {
  import opened Common

  const MAX_PENDING := 8192

  datatype Decision = Decision(requestId: nat, decision: int, overrides: bool)

  datatype Pending = Pending(id: nat, hasCallback: bool)

  datatype Stats = Stats(sent: nat, received: nat, overrides: nat, errors: nat, queueFull: nat)

  /** The program's globals, and the ids of the requests whose timers run. The counter is an atomic int of its own. */
  datatype Program = Program(enabled: bool, lastId: nat, pending: seq<Pending>, count: int, armed: set<nat>,
                             stats: Stats)

  /** How sending the request message ends: no memory for it, refused by the socket, or sent. */
  datatype SendResult = NoMessage | SendFailed | Sent

  datatype Refusal = NoDevice | InvalidArgument | NoMemory | NoBuffers

  /**
   A call of ai_layer2_request_decision is Draw, up to the allocation of its entry, then Link, which holds the lock,
   then Arm, which starts the timer, then Finish. An answer from user space is Respond, which holds the lock, and if it
   finds its request, Deliver, which stops the timer and calls back. Expire is a timer.
   */
  datatype Op =
    | Draw(hasContext: bool, memory: bool, hasCallback: bool)
    | Link(entry: Pending)
    | Arm(id: nat)
    | Finish(id: nat, result: SendResult)
    | Respond(decision: Decision)
    | Deliver(entry: Pending, decision: Decision)
    | Expire(entry: Pending)
    | SetEnabled(enabled: bool)

  datatype Reply =
    | Refused(error: Refusal)
    | Drawn(id: nat)
    | Queued
    | Accepted
    | Withdrawn
    | Found(entry: Pending)
    | CalledBack(to: Pending, decision: Decision)
    | NoMatch
    | Done

  // ----- the program

  /** The index of the entry with an id, from index i on. */
  function FindId(ps: seq<Pending>, id: nat, i: nat): (k: int)
    requires i <= |ps|
    ensures k == -1 ==> forall j :: i <= j < |ps| ==> ps[j].id != id
    ensures k != -1 ==> i <= k < |ps| && ps[k].id == id
  {
    FindKey(ps, (e: Pending) => e.id, id, i)
  }

  /** The id is drawn before the allocation, and without the lock. */
  function DrawStep(p: Program, hasContext: bool, memory: bool): (Program, Reply) {
    if !p.enabled then (p, Refused(NoDevice))
    else if !hasContext then (p, Refused(InvalidArgument))
    else (p.(lastId := p.lastId + 1), if memory then Drawn(p.lastId + 1) else Refused(NoMemory))
  }

  function LinkStep(p: Program, e: Pending): (Program, Reply) {
    if p.count >= MAX_PENDING then (p.(stats := p.stats.(queueFull := p.stats.queueFull + 1)), Refused(NoBuffers))
    else (p.(pending := [e] + p.pending, count := p.count + 1), Queued)
  }

  function ArmStep(p: Program, id: nat): (Program, Reply) {
    (p.(armed := p.armed + {id}), Done)
  }

  /** Unlinks a request; the program does this without looking whether it is still linked. */
  function Unlink(p: Program, id: nat): Program {
    var k := FindId(p.pending, id, 0);
    p.(pending := if k == -1 then p.pending else RemoveAt(p.pending, k), count := p.count - 1)
  }

  /** A failed send withdraws its request and leaves the timer running. */
  function FinishStep(p: Program, id: nat, result: SendResult): (Program, Reply) {
    var q := if result.NoMessage? then p else p.(stats := p.stats.(sent := p.stats.sent + 1));
    if result.Sent? then (q, Accepted) else (Unlink(q, id), Withdrawn)
  }

  function RespondStep(p: Program, d: Decision): (Program, Reply) {
    var q := p.(stats := p.stats.(received := p.stats.received + 1));
    var k := FindId(q.pending, d.requestId, 0);
    if k == -1 then (q, NoMatch) else (Unlink(q, d.requestId), Found(q.pending[k]))
  }

  function DeliverStep(p: Program, e: Pending, d: Decision): (Program, Reply) {
    (p.(armed := p.armed - {e.id}, stats := p.stats.(overrides := p.stats.overrides + if d.overrides then 1 else 0)),
     CalledBack(e, d))
  }

  /** A timer has its entry at hand and does not search for it; its decision is to keep things as they are. */
  function ExpireStep(p: Program, e: Pending): (Program, Reply) {
    (Unlink(p, e.id).(armed := p.armed - {e.id}, stats := p.stats.(errors := p.stats.errors + 1)),
     CalledBack(e, Decision(e.id, 0, false)))
  }

  function Step(p: Program, op: Op): (Program, Reply) {
    match op
    case Draw(hasContext, memory, _) => DrawStep(p, hasContext, memory)
    case Link(e) => LinkStep(p, e)
    case Arm(id) => ArmStep(p, id)
    case Finish(id, result) => FinishStep(p, id, result)
    case Respond(d) => RespondStep(p, d)
    case Deliver(e, d) => DeliverStep(p, e, d)
    case Expire(e) => ExpireStep(p, e)
    case SetEnabled(enabled) => (p.(enabled := enabled), Done)
  }

  // ----- what has become of every queued request, read off the replies

  /** What took a request off the list. */
  datatype Fate = Waiting | Answered | TimedOut | TakenBack

  /** How far the call that queued a request has come, or what it returned. */
  datatype CallState = Linked | Sending | Returned | Failed

  /** fired: its timer has fired, whether or not the request was still on the list. */
  datatype Request = Request(call: CallState, fate: Fate, fired: bool, hasCallback: bool)

  datatype Callback = Callback(id: nat, decision: Decision)

  /**
   ids are all ids drawn so far, in order; drawn are the requests not yet linked, with whether they call back; answers
   are the decisions found to match a request and not yet delivered.
   */
  datatype World = World(p: Program, ids: seq<nat>, drawn: map<nat, bool>, requests: map<nat, Request>,
                         answers: map<nat, Decision>, callbacks: seq<Callback>)

  const START := World(Program(false, 0, [], 0, {}, Stats(0, 0, 0, 0, 0)), [], map[], map[], map[], [])

  predicate IsEntry(w: World, e: Pending) {
    e.id in w.requests && w.requests[e.id].hasCallback == e.hasCallback
  }

  /** A drawn request is linked once, armed once and finishes once. A timer that was armed and not stopped may fire. */
  predicate Enabled(w: World, op: Op) {
    match op
    case Link(e) => e.id in w.drawn && w.drawn[e.id] == e.hasCallback
    case Arm(id) => id in w.requests && w.requests[id].call.Linked?
    case Finish(id, _) => id in w.requests && w.requests[id].call.Sending?
    case Deliver(e, d) => IsEntry(w, e) && e.id in w.answers && w.answers[e.id] == d
    case Expire(e) => IsEntry(w, e) && e.id in w.p.armed
    case _ => true
  }

  function CallBack(cs: seq<Callback>, reply: Reply): seq<Callback>
    requires reply.CalledBack?
  {
    cs + if reply.to.hasCallback then [Callback(reply.to.id, reply.decision)] else []
  }

  function Finished(r: Request, accepted: bool): Request {
    if accepted then r.(call := Returned)
    else r.(call := Failed, fate := if r.fate.Waiting? then TakenBack else r.fate)
  }

  function Fired(r: Request): Request {
    r.(fired := true, fate := if r.fate.Waiting? then TimedOut else r.fate)
  }

  function Next(w: World, op: Op): World
    requires Enabled(w, op)
  {
    var (p, reply) := Step(w.p, op);
    match op
    case Draw(_, _, hasCallback) =>
      w.(p := p,
         ids := w.ids + if p.lastId != w.p.lastId then [p.lastId] else [],
         drawn := if reply.Drawn? then w.drawn[reply.id := hasCallback] else w.drawn)
    case Link(e) =>
      w.(p := p,
         drawn := w.drawn - {e.id},
         requests := if reply.Queued? then w.requests[e.id := Request(Linked, Waiting, false, e.hasCallback)]
                     else w.requests)
    case Arm(id) => w.(p := p, requests := w.requests[id := w.requests[id].(call := Sending)])
    case Finish(id, _) => w.(p := p, requests := w.requests[id := Finished(w.requests[id], reply.Accepted?)])
    case Respond(d) =>
      if reply.Found? && d.requestId in w.requests then
        w.(p := p,
           requests := w.requests[d.requestId := w.requests[d.requestId].(fate := Answered)],
           answers := w.answers[d.requestId := d])
      else w.(p := p)
    case Deliver(e, _) => w.(p := p, answers := w.answers - {e.id}, callbacks := CallBack(w.callbacks, reply))
    case Expire(e) =>
      w.(p := p, requests := w.requests[e.id := Fired(w.requests[e.id])], callbacks := CallBack(w.callbacks, reply))
    case SetEnabled(_) => w.(p := p)
  }

  /** The world after a run, or None if one of its steps was not enabled. */
  function Run(ops: seq<Op>): Option<World> {
    if ops == [] then Some(START)
    else
      var before := Run(ops[..|ops| - 1]);
      if before.None? || !Enabled(before.value, ops[|ops| - 1]) then None
      else Some(Next(before.value, ops[|ops| - 1]))
  }

  predicate Reachable(w: World, ops: seq<Op>) {
    Run(ops) == Some(w)
  }

  // ----- the two ways to decrement the counter for a request that is not on the list

  /** Its call failed only after it was answered or had timed out. */
  predicate IsFailedLate(r: Request) {
    r.call.Failed? && !r.fate.TakenBack?
  }

  /** Its timer fired only after it was answered or withdrawn. */
  predicate IsFiredLate(r: Request) {
    r.fired && !r.fate.TimedOut?
  }

  function FailedLate(requests: map<nat, Request>): set<nat> {
    set id | id in requests && IsFailedLate(requests[id])
  }

  function FiredLate(requests: map<nat, Request>): set<nat> {
    set id | id in requests && IsFiredLate(requests[id])
  }

  lemma FailedLateAfter(requests: map<nat, Request>, id: nat, r: Request)
    requires id in requests || !IsFailedLate(r)
    ensures |FailedLate(requests[id := r])|
            == |FailedLate(requests)| + Bit(IsFailedLate(r)) - Bit(id in requests && IsFailedLate(requests[id]))
  {
    var before, after := FailedLate(requests), FailedLate(requests[id := r]);
    assert after == if IsFailedLate(r) then before + {id} else before - {id};
  }

  lemma FiredLateAfter(requests: map<nat, Request>, id: nat, r: Request)
    requires id in requests || !IsFiredLate(r)
    ensures |FiredLate(requests[id := r])|
            == |FiredLate(requests)| + Bit(IsFiredLate(r)) - Bit(id in requests && IsFiredLate(requests[id]))
  {
    var before, after := FiredLate(requests), FiredLate(requests[id := r]);
    assert after == if IsFiredLate(r) then before + {id} else before - {id};
  }

  // ----- the invariant

  /** The list holds exactly the waiting requests, once each, with their callbacks. */
  ghost predicate ListAgrees(ps: seq<Pending>, requests: map<nat, Request>) {
    && (forall i, j :: 0 <= i < j < |ps| ==> ps[i].id != ps[j].id)
    && (forall i :: 0 <= i < |ps| ==>
          var e := ps[i];
          e.id in requests && requests[e.id].fate.Waiting? && requests[e.id].hasCallback == e.hasCallback)
    && (forall id :: id in requests && requests[id].fate.Waiting? ==> FindId(ps, id, 0) != -1)
  }

  /** The ids were drawn in turn, and a request is either still to be linked or was linked. */
  ghost predicate IdsAgree(w: World) {
    && |w.ids| == w.p.lastId && (forall i :: 0 <= i < |w.ids| ==> w.ids[i] == i + 1)
    && (forall id :: id in w.requests ==> 0 < id <= w.p.lastId && id !in w.drawn)
    && (forall id :: id in w.drawn ==> 0 < id <= w.p.lastId)
  }

  ghost predicate CountAgrees(w: World) {
    && w.p.count == |w.p.pending| - |FailedLate(w.requests)| - |FiredLate(w.requests)|
    && w.p.count <= MAX_PENDING
  }

  /** What a request can be, given whether its timer runs and whether an answer to it is on its way. */
  predicate StateOk(r: Request, armed: bool, answering: bool) {
    && (r.fate.TakenBack? ==> r.call.Failed?) && (r.fate.Waiting? ==> !r.call.Failed? && !r.fired)
    && (r.fate.TimedOut? ==> r.fired) && (answering ==> r.fate.Answered?)
    && (armed || r.fired ==> !r.call.Linked?) && !(armed && r.fired)
    && (!armed && !r.fired && !r.call.Linked? ==> r.fate.Answered? && !answering)
  }

  ghost predicate StatesAgree(w: World) {
    && (forall id :: id in w.p.armed || id in w.answers ==> id in w.requests)
    && (forall id :: id in w.requests ==> StateOk(w.requests[id], id in w.p.armed, id in w.answers))
  }

  function CallbackCount(cs: seq<Callback>, id: nat): nat {
    if cs == [] then 0 else CallbackCount(cs[..|cs| - 1], id) + Bit(cs[|cs| - 1].id == id)
  }

  /** How often the callback of a request has run: for its answer, and for its timer. */
  function Calls(w: World, id: nat): nat {
    if id !in w.requests || !w.requests[id].hasCallback then 0
    else Bit(w.requests[id].fate.Answered? && id !in w.answers) + Bit(w.requests[id].fired)
  }

  ghost predicate CallbacksAgree(w: World) {
    && (forall i :: 0 <= i < |w.callbacks| ==> w.callbacks[i].decision.requestId == w.callbacks[i].id)
    && (forall id: nat :: CallbackCount(w.callbacks, id) == Calls(w, id))
    && (forall id :: id in w.answers ==> w.answers[id].requestId == id)
  }

  ghost predicate Invariant(w: World) {
    && ListAgrees(w.p.pending, w.requests) && IdsAgree(w) && CountAgrees(w) && StatesAgree(w) && CallbacksAgree(w)
  }

  // ----- every step keeps the invariant

  /** A step that concerns no linked request. */
  lemma SameRequests(w: World, w': World)
    requires Invariant(w) && IdsAgree(w') && w'.requests == w.requests && w'.answers == w.answers
    requires w'.p.pending == w.p.pending && w'.p.count == w.p.count && w'.p.armed == w.p.armed
    requires w'.callbacks == w.callbacks
    ensures Invariant(w')
  {
    assert forall id: nat :: CallbackCount(w.callbacks, id) == Calls(w, id) == Calls(w', id);
  }

  lemma DrawKeepsIds(w: World, op: Op)
    requires IdsAgree(w) && op.Draw?
    ensures IdsAgree(Next(w, op))
  {
  }

  lemma DrawKeeps(w: World, op: Op)
    requires Invariant(w) && op.Draw?
    ensures Invariant(Next(w, op))
  {
    DrawKeepsIds(w, op);
    SameRequests(w, Next(w, op));
  }

  /** Linking a request that was never linked puts it on the list beside the others. */
  lemma LinkKeepsList(ps: seq<Pending>, requests: map<nat, Request>, e: Pending)
    requires ListAgrees(ps, requests) && e.id !in requests
    ensures ListAgrees([e] + ps, requests[e.id := Request(Linked, Waiting, false, e.hasCallback)])
  {
    var after := requests[e.id := Request(Linked, Waiting, false, e.hasCallback)];
    forall j | j in after && after[j].fate.Waiting?
      ensures FindId([e] + ps, j, 0) != -1
    {
      if j == e.id {
        assert ([e] + ps)[0].id == j;
      } else {
        var k := FindId(ps, j, 0);
        assert ([e] + ps)[k + 1].id == j;
      }
    }
  }

  lemma LinkKeepsIds(w: World, w': World, id: nat)
    requires IdsAgree(w) && id in w.drawn && w'.ids == w.ids && w'.p.lastId == w.p.lastId && w'.drawn == w.drawn - {id}
    requires w'.requests.Keys <= w.requests.Keys + {id}
    ensures IdsAgree(w')
  {
    assert forall j :: j in w'.requests ==> j in w.requests.Keys + {id};
  }

  lemma LinkKeepsCallbacks(w: World, w': World, e: Pending)
    requires CallbacksAgree(w) && e.id !in w.requests && e.id !in w.answers
    requires w'.callbacks == w.callbacks && w'.answers == w.answers
    requires w'.requests == w.requests[e.id := Request(Linked, Waiting, false, e.hasCallback)]
    ensures CallbacksAgree(w')
  {
    forall id: nat
      ensures CallbackCount(w'.callbacks, id) == Calls(w', id)
    {
      assert CallbackCount(w.callbacks, id) == Calls(w, id);
    }
  }

  lemma LinkKeeps(w: World, op: Op)
    requires Invariant(w) && op.Link? && Enabled(w, op) && w.p.count < MAX_PENDING
    ensures Invariant(Next(w, op))
  {
    var w', e := Next(w, op), op.entry;
    var r := Request(Linked, Waiting, false, e.hasCallback);
    assert e.id !in w.requests && e.id !in w.p.armed && e.id !in w.answers;
    LinkKeepsList(w.p.pending, w.requests, e);
    FailedLateAfter(w.requests, e.id, r);
    FiredLateAfter(w.requests, e.id, r);
    LinkKeepsIds(w, w', e.id);
    LinkKeepsCallbacks(w, w', e);
  }

  lemma RefusedKeeps(w: World, op: Op)
    requires Invariant(w) && op.Link? && Enabled(w, op) && w.p.count >= MAX_PENDING
    ensures Invariant(Next(w, op))
  {
    LinkKeepsIds(w, Next(w, op), op.entry.id);
    SameRequests(w, Next(w, op));
  }

  /** A step for one linked request, which becomes r. */
  ghost predicate Touches(w: World, w': World, id: nat, r: Request) {
    && id in w.requests && r.hasCallback == w.requests[id].hasCallback && w'.requests == w.requests[id := r]
    && w'.ids == w.ids && w'.drawn == w.drawn && w'.p.lastId == w.p.lastId
    && (forall j :: j != id ==> (j in w'.p.armed <==> j in w.p.armed))
    && (forall j :: j != id ==> (j in w'.answers <==> j in w.answers))
    && (forall j :: j != id && j in w.answers ==> w'.answers[j] == w.answers[j])
  }

  lemma TouchKeepsIds(w: World, w': World, id: nat, r: Request)
    requires IdsAgree(w) && Touches(w, w', id, r)
    ensures IdsAgree(w')
  {
    assert forall j :: j in w'.requests <==> j in w.requests;
  }

  /** The same request, on the list or not on it as before. */
  lemma SameList(ps: seq<Pending>, requests: map<nat, Request>, id: nat, r: Request)
    requires ListAgrees(ps, requests) && id in requests
    requires r.hasCallback == requests[id].hasCallback && (r.fate.Waiting? <==> requests[id].fate.Waiting?)
    ensures ListAgrees(ps, requests[id := r])
  {
  }

  /** An entry other than the one at k is found after the removal of that one. */
  lemma StillFound(ps: seq<Pending>, k: nat, id: nat)
    requires k < |ps| && ps[k].id != id && FindId(ps, id, 0) != -1
    ensures FindId(RemoveAt(ps, k), id, 0) != -1
  {
    var l := FindId(ps, id, 0);
    assert RemoveAt(ps, k)[if l < k then l else l - 1].id == id;
  }

  /** The entries that are left are those before and behind, and none has the id of the one removed. */
  lemma LeftOnList(ps: seq<Pending>, k: nat)
    requires k < |ps| && forall i, j :: 0 <= i < j < |ps| ==> ps[i].id != ps[j].id
    ensures forall i, j :: 0 <= i < j < |ps| - 1 ==> RemoveAt(ps, k)[i].id != RemoveAt(ps, k)[j].id
    ensures forall i :: 0 <= i < |ps| - 1 ==> RemoveAt(ps, k)[i] in ps && RemoveAt(ps, k)[i].id != ps[k].id
  {
  }

  lemma RemoveKeepsList(ps: seq<Pending>, k: nat, requests: map<nat, Request>, r: Request)
    requires ListAgrees(ps, requests) && k < |ps| && !r.fate.Waiting?
    ensures ListAgrees(RemoveAt(ps, k), requests[ps[k].id := r])
  {
    LeftOnList(ps, k);
    forall j | j in requests && j != ps[k].id && requests[j].fate.Waiting?
      ensures FindId(RemoveAt(ps, k), j, 0) != -1
    {
      StillFound(ps, k, j);
    }
  }

  /** Unlinking takes a waiting request off the list, and no other one. */
  lemma UnlinkKeepsList(p: Program, requests: map<nat, Request>, id: nat, r: Request)
    requires ListAgrees(p.pending, requests) && id in requests && requests[id].fate.Waiting? && !r.fate.Waiting?
    ensures ListAgrees(Unlink(p, id).pending, requests[id := r]) && |Unlink(p, id).pending| == |p.pending| - 1
  {
    RemoveKeepsList(p.pending, FindId(p.pending, id, 0), requests, r);
  }

  lemma UnlinkAbsent(p: Program, requests: map<nat, Request>, id: nat)
    requires ListAgrees(p.pending, requests) && (id in requests ==> !requests[id].fate.Waiting?)
    ensures Unlink(p, id).pending == p.pending
  {
    assert FindId(p.pending, id, 0) == -1;
  }

  /** What unlinking does to the list, whether the request is on it or not. */
  lemma UnlinkEffect(p: Program, requests: map<nat, Request>, id: nat, r: Request)
    requires ListAgrees(p.pending, requests) && id in requests
    requires r.hasCallback == requests[id].hasCallback && !r.fate.Waiting?
    ensures ListAgrees(Unlink(p, id).pending, requests[id := r])
    ensures |Unlink(p, id).pending| == |p.pending| - Bit(requests[id].fate.Waiting?)
  {
    if requests[id].fate.Waiting? {
      UnlinkKeepsList(p, requests, id, r);
    } else {
      UnlinkAbsent(p, requests, id);
      SameList(p.pending, requests, id, r);
    }
  }

  function Off(r: Request): nat {
    Bit(IsFailedLate(r)) + Bit(IsFiredLate(r))
  }

  lemma TouchKeepsCount(w: World, w': World, id: nat, r: Request)
    requires CountAgrees(w) && Touches(w, w', id, r) && w'.p.count <= w.p.count
    requires w'.p.count - |w'.p.pending| + Off(r) == w.p.count - |w.p.pending| + Off(w.requests[id])
    ensures CountAgrees(w')
  {
    FailedLateAfter(w.requests, id, r);
    FiredLateAfter(w.requests, id, r);
  }

  lemma TouchKeepsStates(w: World, w': World, id: nat, r: Request)
    requires StatesAgree(w) && Touches(w, w', id, r) && StateOk(r, id in w'.p.armed, id in w'.answers)
    ensures StatesAgree(w')
  {
  }

  lemma CountAppend(cs: seq<Callback>, c: Callback, id: nat)
    ensures CallbackCount(cs + [c], id) == CallbackCount(cs, id) + Bit(c.id == id)
  {
    assert (cs + [c])[..|cs|] == cs;
  }

  lemma TouchKeepsCallbacks(w: World, w': World, id: nat, r: Request, more: seq<Callback>)
    requires CallbacksAgree(w) && Touches(w, w', id, r) && w'.callbacks == w.callbacks + more
    requires |more| <= 1 && forall i :: 0 <= i < |more| ==> more[i].id == more[i].decision.requestId == id
    requires id in w'.answers ==> w'.answers[id].requestId == id
    requires Calls(w', id) == Calls(w, id) + |more|
    ensures CallbacksAgree(w')
  {
    forall j: nat
      ensures CallbackCount(w'.callbacks, j) == Calls(w', j)
    {
      assert CallbackCount(w.callbacks, j) == Calls(w, j);
      if more == [] {
        assert w'.callbacks == w.callbacks;
      } else {
        assert more == [more[0]];
        CountAppend(w.callbacks, more[0], j);
      }
      assert j != id ==> Calls(w', j) == Calls(w, j);
    }
  }

  lemma TouchKeeps(w: World, w': World, id: nat, r: Request, more: seq<Callback>)
    requires Invariant(w) && Touches(w, w', id, r) && ListAgrees(w'.p.pending, w'.requests)
    requires w'.p.count <= w.p.count
    requires w'.p.count - |w'.p.pending| + Off(r) == w.p.count - |w.p.pending| + Off(w.requests[id])
    requires StateOk(r, id in w'.p.armed, id in w'.answers)
    requires w'.callbacks == w.callbacks + more
    requires |more| <= 1 && forall i :: 0 <= i < |more| ==> more[i].id == more[i].decision.requestId == id
    requires id in w'.answers ==> w'.answers[id].requestId == id
    requires Calls(w', id) == Calls(w, id) + |more|
    ensures Invariant(w')
  {
    TouchKeepsIds(w, w', id, r);
    TouchKeepsCount(w, w', id, r);
    TouchKeepsStates(w, w', id, r);
    TouchKeepsCallbacks(w, w', id, r, more);
  }

  lemma ArmKeeps(w: World, op: Op)
    requires Invariant(w) && op.Arm? && Enabled(w, op)
    ensures Invariant(Next(w, op))
  {
    var r := w.requests[op.id].(call := Sending);
    SameList(w.p.pending, w.requests, op.id, r);
    TouchKeeps(w, Next(w, op), op.id, r, []);
  }

  lemma SentKeeps(w: World, op: Op)
    requires Invariant(w) && op.Finish? && op.result.Sent? && Enabled(w, op)
    ensures Invariant(Next(w, op))
  {
    var r := w.requests[op.id].(call := Returned);
    SameList(w.p.pending, w.requests, op.id, r);
    TouchKeeps(w, Next(w, op), op.id, r, []);
  }

  lemma FailedEffect(w: World, op: Op)
    requires op.Finish? && !op.result.Sent? && Enabled(w, op)
    ensures var w' := Next(w, op);
            && Touches(w, w', op.id, Finished(w.requests[op.id], false))
            && w'.p.pending == Unlink(w.p, op.id).pending && w'.p.count == w.p.count - 1
            && w'.p.armed == w.p.armed && w'.answers == w.answers && w'.callbacks == w.callbacks
  {
  }

  lemma FailedKeeps(w: World, op: Op)
    requires Invariant(w) && op.Finish? && !op.result.Sent? && Enabled(w, op)
    ensures Invariant(Next(w, op))
  {
    var r := Finished(w.requests[op.id], false);
    FailedEffect(w, op);
    UnlinkEffect(w.p, w.requests, op.id, r);
    TouchKeeps(w, Next(w, op), op.id, r, []);
  }

  lemma RespondKeeps(w: World, op: Op)
    requires Invariant(w) && op.Respond? && FindId(w.p.pending, op.decision.requestId, 0) != -1
    ensures Invariant(Next(w, op))
  {
    var id := op.decision.requestId;
    var k := FindId(w.p.pending, id, 0);
    assert w.p.pending[k].id in w.requests && w.requests[id].fate.Waiting?;
    var r := w.requests[id].(fate := Answered);
    UnlinkEffect(w.p, w.requests, id, r);
    TouchKeeps(w, Next(w, op), id, r, []);
  }

  lemma NoMatchKeeps(w: World, op: Op)
    requires Invariant(w) && op.Respond? && FindId(w.p.pending, op.decision.requestId, 0) == -1
    ensures Invariant(Next(w, op))
  {
    SameRequests(w, Next(w, op));
  }

  lemma DeliverKeeps(w: World, op: Op)
    requires Invariant(w) && op.Deliver? && Enabled(w, op)
    ensures Invariant(Next(w, op))
  {
    var id, w' := op.entry.id, Next(w, op);
    assert w.requests[id := w.requests[id]] == w.requests;
    TouchKeeps(w, w', id, w.requests[id], w'.callbacks[|w.callbacks|..]);
  }

  lemma ExpireKeeps(w: World, op: Op)
    requires Invariant(w) && op.Expire? && Enabled(w, op)
    ensures Invariant(Next(w, op))
  {
    var id, w' := op.entry.id, Next(w, op);
    var r := Fired(w.requests[id]);
    UnlinkEffect(w.p, w.requests, id, r);
    TouchKeeps(w, w', id, r, w'.callbacks[|w.callbacks|..]);
  }

  lemma NextKeeps(w: World, op: Op)
    requires Invariant(w) && Enabled(w, op)
    ensures Invariant(Next(w, op))
  {
    match op {
      case Draw(_, _, _) => DrawKeeps(w, op);
      case Link(_) =>
        if w.p.count < MAX_PENDING {
          LinkKeeps(w, op);
        } else {
          RefusedKeeps(w, op);
        }
      case Arm(_) => ArmKeeps(w, op);
      case Finish(_, result) =>
        if result.Sent? {
          SentKeeps(w, op);
        } else {
          FailedKeeps(w, op);
        }
      case Respond(d) =>
        if FindId(w.p.pending, d.requestId, 0) != -1 {
          RespondKeeps(w, op);
        } else {
          NoMatchKeeps(w, op);
        }
      case Deliver(_, _) => DeliverKeeps(w, op);
      case Expire(_) => ExpireKeeps(w, op);
      case SetEnabled(_) => SameRequests(w, Next(w, op));
    }
  }

  lemma {:induction false} ReachableInvariant(w: World, ops: seq<Op>)
    requires Reachable(w, ops)
    ensures Invariant(w)
    decreases |ops|
  {
    if ops == [] {
      assert FailedLate(START.requests) == {} && FiredLate(START.requests) == {};
    } else {
      var before := Run(ops[..|ops| - 1]).value;
      ReachableInvariant(before, ops[..|ops| - 1]);
      NextKeeps(before, ops[|ops| - 1]);
    }
  }

  // ----- main results

  /**
   In every run a request is on the list exactly while nothing has taken it off; an accepted one still waits, was
   answered or timed out. Its callback, if it has one, has run once for its answer, as soon as that is delivered, and
   once for its timer, if that has fired: also when the call that made the request failed and returned an error.
   */
  lemma RequestsSettled(w: World, ops: seq<Op>, id: nat)
    requires Reachable(w, ops) && id in w.requests
    ensures var r := w.requests[id];
            && (FindId(w.p.pending, id, 0) != -1 <==> r.fate.Waiting?)
            && (r.call.Returned? ==> r.fate.Waiting? || r.fate.Answered? || r.fate.TimedOut?)
            && (r.call.Failed? ==> !r.fate.Waiting?)
            && CallbackCount(w.callbacks, id)
               == if r.hasCallback then Bit(r.fate.Answered? && id !in w.answers) + Bit(r.fired) else 0
  {
    ReachableInvariant(w, ops);
    assert CallbackCount(w.callbacks, id) == Calls(w, id);
    var k := FindId(w.p.pending, id, 0);
    if k != -1 {
      assert w.p.pending[k].id == id;
    }
  }

  lemma {:induction false} CalledIsCounted(cs: seq<Callback>, i: nat)
    requires i < |cs|
    ensures CallbackCount(cs, cs[i].id) > 0
  {
    if i < |cs| - 1 {
      CalledIsCounted(cs[..|cs| - 1], i);
    }
  }

  /** A callback only ever runs with a decision that carries the id of its own request. */
  lemma CallbacksCarryOwnId(w: World, ops: seq<Op>, i: nat)
    requires Reachable(w, ops) && i < |w.callbacks|
    ensures w.callbacks[i].decision.requestId == w.callbacks[i].id && w.callbacks[i].id in w.requests
  {
    ReachableInvariant(w, ops);
    CalledIsCounted(w.callbacks, i);
    assert CallbackCount(w.callbacks, w.callbacks[i].id) == Calls(w, w.callbacks[i].id);
  }

  /** No id is drawn twice, whatever the order in which the requests are linked; so no two requests share one. */
  lemma IdsFresh(w: World, ops: seq<Op>)
    requires Reachable(w, ops)
    ensures NoDuplicates(w.ids)
    ensures forall id :: id in w.requests || id in w.drawn ==> id in w.ids
    ensures forall id :: !(id in w.requests && id in w.drawn)
    ensures forall i, j :: 0 <= i < j < |w.p.pending| ==> w.p.pending[i].id != w.p.pending[j].id
  {
    ReachableInvariant(w, ops);
    forall id | id in w.requests || id in w.drawn
      ensures id in w.ids
    {
      assert w.ids[id - 1] == id;
    }
  }

  /**
   The counter is the length of the list, and this at most 8192, exactly as long as no call failed to send its request
   after the request was answered or had timed out, and no timer fired after its request was answered or withdrawn.
   Each of these decrements the counter once too often.
   */
  lemma CountExactly(w: World, ops: seq<Op>)
    requires Reachable(w, ops)
    ensures w.p.count == |w.p.pending| - |FailedLate(w.requests)| - |FiredLate(w.requests)|
    ensures w.p.count == |w.p.pending| <==> FailedLate(w.requests) == {} && FiredLate(w.requests) == {}
    ensures |w.p.pending| <= 8192 + |FailedLate(w.requests)| + |FiredLate(w.requests)|
  {
    ReachableInvariant(w, ops);
  }

  /** All calls have returned, all answers are delivered, and all timers have fired or were stopped. */
  ghost predicate AllOver(w: World) {
    && w.p.armed == {} && w.answers == map[]
    && forall id :: id in w.requests ==> w.requests[id].call.Returned? || w.requests[id].call.Failed?
  }

  function FailedCalls(requests: map<nat, Request>): set<nat> {
    set id | id in requests && requests[id].call.Failed?
  }

  lemma UnionSize<T>(a: set<T>, b: set<T>, c: set<T>)
    requires a <= b + c
    ensures |a| <= |b| + |c|
  {
    assert b + c == a + (b + c - a);
    assert |b + c| == |b| + |c| - |b * c|;
  }

  lemma FirstWaits(ps: seq<Pending>, requests: map<nat, Request>)
    requires ListAgrees(ps, requests) && ps != []
    ensures ps[0].id in requests && requests[ps[0].id].fate.Waiting?
  {
  }

  lemma OverIsOff(w: World)
    requires Invariant(w) && AllOver(w)
    ensures w.p.pending == []
    ensures forall id :: id in w.requests && w.requests[id].call.Failed? ==>
              id in FailedLate(w.requests) + FiredLate(w.requests)
    ensures forall id :: id in w.requests && w.requests[id].fate.Answered? && w.requests[id].fired ==>
              id in FiredLate(w.requests)
  {
    assert forall id :: id in w.requests ==> !w.requests[id].fate.Waiting?;
    if w.p.pending != [] {
      FirstWaits(w.p.pending, w.requests);
      assert false;
    }
    forall id | id in w.requests && w.requests[id].call.Failed?
      ensures id in FailedLate(w.requests) + FiredLate(w.requests)
    {
      assert StateOk(w.requests[id], id in w.p.armed, id in w.answers);
    }
  }

  /**
   When all is over the list is empty, and the counter is 0 exactly if no send failed and no answered request had its
   timer fire as well. Every failed send has decremented the counter once too often.
   */
  lemma CountWhenOver(w: World, ops: seq<Op>)
    requires Reachable(w, ops) && AllOver(w)
    ensures w.p.pending == []
    ensures w.p.count == 0 <==>
            forall id :: id in w.requests ==>
              !w.requests[id].call.Failed? && !(w.requests[id].fate.Answered? && w.requests[id].fired)
    ensures w.p.count <= -|FailedCalls(w.requests)|
  {
    ReachableInvariant(w, ops);
    OverIsOff(w);
    var failed, late, fired := FailedCalls(w.requests), FailedLate(w.requests), FiredLate(w.requests);
    UnionSize(failed, late, fired);
    assert forall id :: id in late + fired ==>
             w.requests[id].call.Failed? || (w.requests[id].fate.Answered? && w.requests[id].fired);
    if w.p.count == 0 {
      assert late == {} && fired == {};
    } else {
      assert late + fired != {};
      var id :| id in late + fired;
    }
  }

  /**
   When all is over, the callback of an accepted request has run exactly once unless it was answered and its timer
   fired as well. The callback of a withdrawn request has run exactly once too, though its call returned an error.
   */
  lemma CallbacksWhenOver(w: World, ops: seq<Op>, id: nat)
    requires Reachable(w, ops) && AllOver(w) && id in w.requests && w.requests[id].hasCallback
    ensures var r := w.requests[id];
            && 1 <= CallbackCount(w.callbacks, id) <= 2
            && (CallbackCount(w.callbacks, id) == 2 <==> r.fate.Answered? && r.fired)
            && (r.fate.TakenBack? ==> CallbackCount(w.callbacks, id) == 1)
  {
    ReachableInvariant(w, ops);
    RequestsSettled(w, ops, id);
    OverIsOff(w);
    assert StateOk(w.requests[id], id in w.p.armed, id in w.answers);
  }

  // ----- what one request can do to the counter, from every reachable state

  lemma RunOne(ops: seq<Op>, op: Op, w: World) returns (w': World)
    requires Run(ops) == Some(w) && Enabled(w, op)
    ensures Run(ops + [op]) == Some(w') && w' == Next(w, op)
  {
    assert (ops + [op])[..|ops|] == ops;
    w' := Next(w, op);
  }

  /** The world with one request more, which is on the list. */
  ghost predicate HasStarted(w: World, v: World, e: Pending, call: CallState) {
    && e.id == w.p.lastId + 1 && e.id !in w.requests && e.id !in w.answers
    && v.p.pending == [e] + w.p.pending && v.p.count == w.p.count + 1
    && v.p.armed == (if call.Linked? then w.p.armed else w.p.armed + {e.id})
    && v.p.lastId == e.id && v.p.enabled == w.p.enabled
    && v.requests == w.requests[e.id := Request(call, Waiting, false, e.hasCallback)]
    && v.answers == w.answers && v.callbacks == w.callbacks
  }

  lemma Drawn1(w: World, ops: seq<Op>, callback: bool) returns (v: World)
    requires Reachable(w, ops) && w.p.enabled
    ensures Reachable(v, ops + [Draw(true, true, callback)])
    ensures v == w.(p := w.p.(lastId := w.p.lastId + 1), ids := w.ids + [w.p.lastId + 1],
                    drawn := w.drawn[w.p.lastId + 1 := callback])
  {
    v := RunOne(ops, Draw(true, true, callback), w);
  }

  lemma NewId(w: World, ops: seq<Op>)
    requires Reachable(w, ops)
    ensures w.p.lastId + 1 !in w.requests && w.p.lastId + 1 !in w.answers && w.p.lastId + 1 !in w.drawn
  {
    ReachableInvariant(w, ops);
  }

  lemma StartLinked(w: World, ops: seq<Op>, e: Pending) returns (v: World)
    requires Reachable(w, ops) && w.p.enabled && w.p.count < MAX_PENDING && e.id == w.p.lastId + 1
    ensures Reachable(v, ops + [Draw(true, true, e.hasCallback)] + [Link(e)]) && HasStarted(w, v, e, Linked)
  {
    NewId(w, ops);
    var u := Drawn1(w, ops, e.hasCallback);
    v := RunOne(ops + [Draw(true, true, e.hasCallback)], Link(e), u);
  }

  lemma StartArmed(w: World, ops: seq<Op>, e: Pending) returns (v: World)
    requires Reachable(w, ops) && w.p.enabled && w.p.count < MAX_PENDING && e.id == w.p.lastId + 1
    ensures Reachable(v, ops + [Draw(true, true, e.hasCallback)] + [Link(e)] + [Arm(e.id)])
    ensures HasStarted(w, v, e, Sending)
  {
    var u := StartLinked(w, ops, e);
    v := RunOne(ops + [Draw(true, true, e.hasCallback)] + [Link(e)], Arm(e.id), u);
  }

  function CallbacksOf(e: Pending, decisions: seq<Decision>): seq<Callback> {
    if !e.hasCallback then []
    else seq(|decisions|, i requires 0 <= i < |decisions| => Callback(e.id, decisions[i]))
  }

  /** The request of entry e has come and gone: the list is as before, the counter one lower, its callback has run. */
  ghost predicate Costs(w: World, v: World, e: Pending, decisions: seq<Decision>) {
    && v.p.pending == w.p.pending && v.p.count == w.p.count - 1 && v.p.lastId == e.id && v.p.enabled == w.p.enabled
    && v.callbacks == w.callbacks + CallbacksOf(e, decisions)
  }

  lemma UnlinkFirst(p: Program, e: Pending, rest: seq<Pending>)
    requires p.pending == [e] + rest
    ensures Unlink(p, e.id) == p.(pending := rest, count := p.count - 1)
  {
    assert FindId(p.pending, e.id, 0) == 0;
    assert RemoveAt(p.pending, 0) == rest;
  }

  lemma UnlinkNone(w: World, ops: seq<Op>, id: nat)
    requires Reachable(w, ops) && (id in w.requests ==> !w.requests[id].fate.Waiting?)
    ensures Unlink(w.p, id) == w.p.(count := w.p.count - 1)
  {
    ReachableInvariant(w, ops);
    UnlinkAbsent(w.p, w.requests, id);
  }

  function Keep(id: nat): Decision {
    Decision(id, 0, false)
  }

  /** An ordinary failed send: the request is withdrawn, and its timer, which still runs, decrements and calls back. */
  lemma FailedSendCosts(w: World, ops: seq<Op>, e: Pending, result: SendResult) returns (v: World)
    requires Reachable(w, ops) && w.p.enabled && w.p.count < MAX_PENDING && e.id == w.p.lastId + 1 && !result.Sent?
    ensures Reachable(v, ops + [Draw(true, true, e.hasCallback)] + [Link(e)] + [Arm(e.id)]
                         + [Finish(e.id, result)] + [Expire(e)])
    ensures Costs(w, v, e, [Keep(e.id)])
  {
    var so := ops + [Draw(true, true, e.hasCallback)] + [Link(e)] + [Arm(e.id)];
    v := StartArmed(w, ops, e);
    UnlinkFirst(v.p, e, w.p.pending);
    v := RunOne(so, Finish(e.id, result), v);
    UnlinkNone(v, so + [Finish(e.id, result)], e.id);
    v := RunOne(so + [Finish(e.id, result)], Expire(e), v);
  }

  /** A send that fails after the timer has fired. */
  lemma LateFailureCosts(w: World, ops: seq<Op>, e: Pending, result: SendResult) returns (v: World)
    requires Reachable(w, ops) && w.p.enabled && w.p.count < MAX_PENDING && e.id == w.p.lastId + 1 && !result.Sent?
    ensures Reachable(v, ops + [Draw(true, true, e.hasCallback)] + [Link(e)] + [Arm(e.id)]
                         + [Expire(e)] + [Finish(e.id, result)])
    ensures Costs(w, v, e, [Keep(e.id)])
  {
    var so := ops + [Draw(true, true, e.hasCallback)] + [Link(e)] + [Arm(e.id)];
    v := StartArmed(w, ops, e);
    UnlinkFirst(v.p, e, w.p.pending);
    v := RunOne(so, Expire(e), v);
    UnlinkNone(v, so + [Expire(e)], e.id);
    v := RunOne(so + [Expire(e)], Finish(e.id, result), v);
  }

  lemma AnswerFound(w: World, v: World, so: seq<Op>, e: Pending, call: CallState, d: Decision) returns (u: World)
    requires Reachable(v, so) && HasStarted(w, v, e, call) && d.requestId == e.id
    ensures Reachable(u, so + [Respond(d)])
    ensures u.p.pending == w.p.pending && u.p.count == w.p.count && u.p.armed == v.p.armed
    ensures u.p.lastId == e.id && u.p.enabled == w.p.enabled && u.callbacks == w.callbacks
    ensures u.requests == w.requests[e.id := Request(call, Answered, false, e.hasCallback)]
    ensures u.answers == w.answers[e.id := d]
  {
    var q := v.p.(stats := v.p.stats.(received := v.p.stats.received + 1));
    UnlinkFirst(q, e, w.p.pending);
    assert FindId(v.p.pending, e.id, 0) == 0 && v.p.pending[0] == e;
    u := RunOne(so, Respond(d), v);
  }

  /** A timer that fires while the answer is on its way: the callback runs twice, for the timer first. */
  lemma RacedAnswerCosts(w: World, ops: seq<Op>, e: Pending, d: Decision) returns (v: World)
    requires Reachable(w, ops) && w.p.enabled && w.p.count < MAX_PENDING && e.id == w.p.lastId + 1 == d.requestId
    ensures Reachable(v, ops + [Draw(true, true, e.hasCallback)] + [Link(e)] + [Arm(e.id)]
                         + [Respond(d)] + [Expire(e)] + [Deliver(e, d)])
    ensures Costs(w, v, e, [Keep(e.id), d])
  {
    var so := ops + [Draw(true, true, e.hasCallback)] + [Link(e)] + [Arm(e.id)];
    v := StartArmed(w, ops, e);
    v := AnswerFound(w, v, so, e, Sending, d);
    UnlinkNone(v, so + [Respond(d)], e.id);
    v := RunOne(so + [Respond(d)], Expire(e), v);
    v := RunOne(so + [Respond(d)] + [Expire(e)], Deliver(e, d), v);
  }

  /** An answer before the timer is armed: nothing is stopped, and the timer fires later. */
  lemma EarlyAnswerCosts(w: World, ops: seq<Op>, e: Pending, d: Decision) returns (v: World)
    requires Reachable(w, ops) && w.p.enabled && w.p.count < MAX_PENDING && e.id == w.p.lastId + 1 == d.requestId
    ensures Reachable(v, ops + [Draw(true, true, e.hasCallback)] + [Link(e)]
                         + [Respond(d)] + [Deliver(e, d)] + [Arm(e.id)] + [Expire(e)])
    ensures Costs(w, v, e, [d, Keep(e.id)])
  {
    var so := ops + [Draw(true, true, e.hasCallback)] + [Link(e)];
    v := StartLinked(w, ops, e);
    v := AnswerFound(w, v, so, e, Linked, d);
    v := RunOne(so + [Respond(d)], Deliver(e, d), v);
    v := RunOne(so + [Respond(d)] + [Deliver(e, d)], Arm(e.id), v);
    UnlinkNone(v, so + [Respond(d)] + [Deliver(e, d)] + [Arm(e.id)], e.id);
    v := RunOne(so + [Respond(d)] + [Deliver(e, d)] + [Arm(e.id)], Expire(e), v);
  }

  /** The list need not be in the order of the ids: one drawn earlier can be linked later. */
  lemma LinkedOutOfOrder(w: World, ops: seq<Op>, e1: Pending, e2: Pending) returns (v: World)
    requires Reachable(w, ops) && w.p.enabled && w.p.count < MAX_PENDING - 1
    requires e1.id == w.p.lastId + 1 && e2.id == w.p.lastId + 2
    ensures Reachable(v, ops + [Draw(true, true, e1.hasCallback)] + [Draw(true, true, e2.hasCallback)]
                         + [Link(e2)] + [Link(e1)])
    ensures v.p.pending == [e1, e2] + w.p.pending
  {
    var so := ops + [Draw(true, true, e1.hasCallback)];
    v := Drawn1(w, ops, e1.hasCallback);
    v := Drawn1(v, so, e2.hasCallback);
    so := so + [Draw(true, true, e2.hasCallback)];
    v := RunOne(so, Link(e2), v);
    v := RunOne(so + [Link(e2)], Link(e1), v);
    assert [e1] + ([e2] + w.p.pending) == [e1, e2] + w.p.pending;
  }

  /** n failed sends, the first thing that happens. */
  lemma {:induction false} Drained(n: nat, callback: bool) returns (ops: seq<Op>, w: World)
    ensures Reachable(w, ops) && w.p.enabled && w.p.pending == [] && w.p.count + n == 0
  {
    if n == 0 {
      ops, w := [SetEnabled(true)], Next(START, SetEnabled(true));
      assert ops[..0] == [];
    } else {
      ops, w := Drained(n - 1, callback);
      var e := Pending(w.p.lastId + 1, callback);
      w := FailedSendCosts(w, ops, e, SendFailed);
      ops := ops + [Draw(true, true, callback)] + [Link(e)] + [Arm(e.id)] + [Finish(e.id, SendFailed)] + [Expire(e)];
    }
  }

  /** So the limit of the list is not kept: after n failed sends it can hold n requests more, for every n. */
  lemma {:induction false} ListOverfills(n: nat, m: nat, callback: bool) returns (ops: seq<Op>, w: World)
    requires m <= MAX_PENDING + n
    ensures Reachable(w, ops) && w.p.enabled && |w.p.pending| == m && w.p.count == m - n
  {
    if m == 0 {
      ops, w := Drained(n, callback);
    } else {
      ops, w := ListOverfills(n, m - 1, callback);
      var e := Pending(w.p.lastId + 1, callback);
      w := StartLinked(w, ops, e);
      ops := ops + [Draw(true, true, callback)] + [Link(e)];
    }
  }

  // ----- the program's globals, changed in place

  class Router {
    var enabled: bool
    var lastId: nat
    var pending: seq<Pending>
    var count: int
    var armed: set<nat>
    var sent: nat
    var received: nat
    var overrides: nat
    var errors: nat
    var queueFull: nat

    ghost function View(): Program
      reads this
    {
      Program(enabled, lastId, pending, count, armed, Stats(sent, received, overrides, errors, queueFull))
    }

    constructor ()
      ensures View() == START.p
    {
      enabled, lastId, pending, count, armed := false, 0, [], 0, {};
      sent, received, overrides, errors, queueFull := 0, 0, 0, 0, 0;
    }

    method DrawRequest(hasContext: bool, memory: bool) returns (r: Reply)
      modifies this`lastId
      ensures (View(), r) == DrawStep(old(View()), hasContext, memory)
    {
      if !enabled {
        return Refused(NoDevice);
      }
      if !hasContext {
        return Refused(InvalidArgument);
      }
      lastId := lastId + 1;
      if !memory {
        return Refused(NoMemory);
      }
      return Drawn(lastId);
    }

    method LinkRequest(e: Pending) returns (r: Reply)
      modifies this
      ensures (View(), r) == LinkStep(old(View()), e)
    {
      if count >= MAX_PENDING {
        queueFull := queueFull + 1;
        return Refused(NoBuffers);
      }
      pending := [e] + pending;
      count := count + 1;
      return Queued;
    }

    method ArmTimer(id: nat)
      modifies this`armed
      ensures View() == ArmStep(old(View()), id).0
    {
      armed := armed + {id};
    }

    method UnlinkRequest(id: nat)
      modifies this`pending, this`count
      ensures View() == Unlink(old(View()), id)
    {
      var k := Search(id);
      if k != -1 {
        pending := RemoveAt(pending, k);
      }
      count := count - 1;
    }

    method Search(id: nat) returns (k: int)
      ensures k == FindId(pending, id, 0)
    {
      for i := 0 to |pending|
        invariant FindId(pending, id, i) == FindId(pending, id, 0)
      {
        if pending[i].id == id {
          return i;
        }
      }
      return -1;
    }

    method FinishRequest(id: nat, result: SendResult) returns (r: Reply)
      modifies this
      ensures (View(), r) == FinishStep(old(View()), id, result)
    {
      if !result.NoMessage? {
        sent := sent + 1;
      }
      if result.Sent? {
        return Accepted;
      }
      UnlinkRequest(id);
      return Withdrawn;
    }

    /** The locked part: the request of the decision is taken off the list. */
    method TakeAnswered(d: Decision) returns (r: Reply)
      modifies this
      ensures (View(), r) == RespondStep(old(View()), d)
    {
      received := received + 1;
      var k := Search(d.requestId);
      if k == -1 {
        return NoMatch;
      }
      var e := pending[k];
      UnlinkRequest(d.requestId);
      return Found(e);
    }

    /** The rest, without the lock: the timer is stopped and the decision handed over. */
    method DeliverAnswer(e: Pending, d: Decision) returns (r: Reply)
      modifies this`armed, this`overrides
      ensures (View(), r) == DeliverStep(old(View()), e, d)
    {
      armed := armed - {e.id};
      if d.overrides {
        overrides := overrides + 1;
      }
      return CalledBack(e, d);
    }

    /** Both in turn, for an answer that nothing interrupts. */
    method HandleResponse(d: Decision) returns (r: Reply)
      modifies this
      ensures var (p, found) := RespondStep(old(View()), d);
              (View(), r) == if found.Found? then DeliverStep(p, found.entry, d) else (p, NoMatch)
    {
      r := TakeAnswered(d);
      if r.Found? {
        r := DeliverAnswer(r.entry, d);
      }
    }

    method HandleTimeout(e: Pending) returns (r: Reply)
      modifies this
      ensures (View(), r) == ExpireStep(old(View()), e)
    {
      UnlinkRequest(e.id);
      armed := armed - {e.id};
      errors := errors + 1;
      return CalledBack(e, Decision(e.id, 0, false));
    }
  }
}
