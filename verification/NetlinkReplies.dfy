/** What each step of a decision request answers, and the statistics of every run. */
module NetlinkReplies {
  import opened Common
  import opened Netlink

  /** What the router was switched to last; it starts switched off. */
  function LastSwitch(ops: seq<Op>): bool {
    if ops == [] then false
    else
      var last := ops[|ops| - 1];
      if last.SetEnabled? then last.enabled else LastSwitch(ops[..|ops| - 1])
  }

  /** What one step does to the statistics and to the switch. */
  lemma NextCounts(w: World, op: Op)
    requires Enabled(w, op)
    ensures Next(w, op).p == Step(w.p, op).0
  {
  }

  lemma RunsBefore(ops: seq<Op>)
    requires ops != [] && Run(ops).Some?
    ensures var before := Run(ops[..|ops| - 1]);
            && before.Some? && Enabled(before.value, ops[|ops| - 1])
            && Run(ops).value == Next(before.value, ops[|ops| - 1])
  {
  }

  lemma {:induction false} EnabledIsLastSwitch(w: World, ops: seq<Op>)
    requires Reachable(w, ops)
    ensures w.p.enabled == LastSwitch(ops)
    decreases |ops|
  {
    if ops != [] {
      RunsBefore(ops);
      EnabledIsLastSwitch(Run(ops[..|ops| - 1]).value, ops[..|ops| - 1]);
      NextCounts(Run(ops[..|ops| - 1]).value, ops[|ops| - 1]);
    }
  }

  /** A draw is refused by a router that is switched off, without a context or without memory, in this order. */
  lemma DrawExactly(w: World, ops: seq<Op>, op: Op)
    requires Reachable(w, ops) && op.Draw?
    ensures var reply, w' := Step(w.p, op).1, Next(w, op);
            && reply == (if !LastSwitch(ops) then Refused(NoDevice)
                         else if !op.hasContext then Refused(InvalidArgument)
                         else if !op.memory then Refused(NoMemory) else Drawn(|w.ids| + 1))
            && w'.ids == w.ids + (if LastSwitch(ops) && op.hasContext then [|w.ids| + 1] else [])
            && w'.p.pending == w.p.pending && w'.p.count == w.p.count && w'.requests == w.requests
  {
    EnabledIsLastSwitch(w, ops);
    ReachableInvariant(w, ops);
  }

  /** A link is refused exactly when the list, less what the counter lost, is full; else the request goes in front. */
  lemma LinkExactly(w: World, ops: seq<Op>, op: Op)
    requires Reachable(w, ops) && op.Link? && Enabled(w, op)
    ensures var reply, w' := Step(w.p, op).1, Next(w, op);
            var full := |w.p.pending| - |FailedLate(w.requests)| - |FiredLate(w.requests)| >= 8192;
            && reply == (if full then Refused(NoBuffers) else Queued)
            && w'.p.pending == (if full then w.p.pending else [op.entry] + w.p.pending)
            && w'.p.count == w.p.count + if full then 0 else 1
  {
    CountExactly(w, ops);
  }

  /** A call succeeds exactly if its message was sent, and then changes nothing; else its request leaves the list. */
  lemma FinishExactly(w: World, ops: seq<Op>, op: Op)
    requires Reachable(w, ops) && op.Finish? && Enabled(w, op)
    ensures var reply, w' := Step(w.p, op).1, Next(w, op);
            && reply == (if op.result.Sent? then Accepted else Withdrawn)
            && w'.p.armed == w.p.armed && w'.callbacks == w.callbacks
            && (op.result.Sent? ==> w'.p.pending == w.p.pending && w'.p.count == w.p.count)
            && (!op.result.Sent? ==>
                  && w'.p.count == w.p.count - 1
                  && (w.requests[op.id].fate.Waiting? ==> |w'.p.pending| == |w.p.pending| - 1)
                  && forall i :: 0 <= i < |w'.p.pending| ==> w'.p.pending[i].id != op.id)
  {
    ReachableInvariant(w, ops);
    if !op.result.Sent? {
      var r := Finished(w.requests[op.id], false);
      UnlinkEffect(w.p, w.requests, op.id, r);
      assert w.requests[op.id := r][op.id] == r;
    }
  }

  /** An answer finds exactly the request that waits for it, which leaves the list; without one it changes nothing. */
  lemma RespondExactly(w: World, ops: seq<Op>, d: Decision)
    requires Reachable(w, ops)
    ensures var reply, w' := Step(w.p, Respond(d)).1, Next(w, Respond(d));
            var waits := d.requestId in w.requests && w.requests[d.requestId].fate.Waiting?;
            && reply == (if waits then Found(Pending(d.requestId, w.requests[d.requestId].hasCallback)) else NoMatch)
            && w'.answers == (if waits then w.answers[d.requestId := d] else w.answers)
            && |w'.p.pending| == |w.p.pending| - Bit(waits) && w'.p.count == w.p.count - Bit(waits)
            && w'.p.armed == w.p.armed && w'.callbacks == w.callbacks
  {
    ReachableInvariant(w, ops);
    var k := FindId(w.p.pending, d.requestId, 0);
    if k != -1 {
      assert w.p.pending[k].id in w.requests;
    }
  }

  /** A delivery stops the timer and hands over the decision; a timer that fires hands over one to keep, once. */
  lemma CallbackExactly(w: World, ops: seq<Op>, op: Op)
    requires Reachable(w, ops) && (op.Deliver? || op.Expire?) && Enabled(w, op)
    ensures var w' := Next(w, op);
            var d := if op.Deliver? then w.answers[op.entry.id] else Decision(op.entry.id, 0, false);
            && w'.p.armed == w.p.armed - {op.entry.id}
            && w'.callbacks == w.callbacks + (if op.entry.hasCallback then [Callback(op.entry.id, d)] else [])
            && w'.p.count == w.p.count - (if op.Expire? then 1 else 0)
            && (op.Deliver? ==> w'.p.pending == w.p.pending && w'.answers == w.answers - {op.entry.id})
  {
  }

  /** Messages handed to the socket, answers, overriding decisions delivered, timers fired, and requests refused. */
  function Tally(ops: seq<Op>): Stats
    requires Run(ops).Some?
  {
    if ops == [] then Stats(0, 0, 0, 0, 0)
    else
      var before, op := ops[..|ops| - 1], ops[|ops| - 1];
      var t := Tally(before);
      match op
      case Finish(_, result) => if result.NoMessage? then t else t.(sent := t.sent + 1)
      case Respond(_) => t.(received := t.received + 1)
      case Deliver(_, d) => if d.overrides then t.(overrides := t.overrides + 1) else t
      case Expire(_) => t.(errors := t.errors + 1)
      case Link(_) =>
        if Step(Run(before).value.p, op).1 == Refused(NoBuffers) then t.(queueFull := t.queueFull + 1) else t
      case _ => t
  }

  lemma {:induction false} StatsAgree(ops: seq<Op>)
    requires Run(ops).Some?
    ensures Run(ops).value.p.stats == Tally(ops)
    decreases |ops|
  {
    if ops != [] {
      RunsBefore(ops);
      StatsAgree(ops[..|ops| - 1]);
      NextCounts(Run(ops[..|ops| - 1]).value, ops[|ops| - 1]);
    }
  }
}
