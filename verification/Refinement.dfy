// The methods of RedisStore take the steps of Protocol: whatever one Flush does,
// with or without lost calls, is a path of the transition system.
module Refinement {
  import opened Options
  import opened Replicas
  import opened Protocol
  import opened RedisStore

  ghost predicate Path(s: State, steps: seq<Step>, end: State, budget: int)
    decreases |steps|
  {
    if steps == [] then end == s
    else Enabled(s, steps[0]) && Path(Next(s, steps[0], budget), steps[1..], end, budget)
  }

  lemma {:induction false} PathSnoc(s: State, steps: seq<Step>, mid: State, step: Step, budget: int)
    requires Path(s, steps, mid, budget) && Enabled(mid, step)
    ensures Path(s, steps + [step], Next(mid, step, budget), budget)
    decreases |steps|
  {
    hide Enabled, Next;
    var more := steps + [step];
    if steps == [] {
      assert more[0] == step && more[1..] == [];
    } else {
      assert more[0] == steps[0] && more[1..] == steps[1..] + [step];
      PathSnoc(Next(s, steps[0], budget), steps[1..], mid, step, budget);
    }
  }

  lemma {:induction false} PathKeepsInv(s: State, steps: seq<Step>, end: State, budget: int)
    requires Path(s, steps, end, budget) && Inv(s, budget)
    ensures Inv(end, budget)
    decreases |steps|
  {
    hide Enabled, Next, Inv;
    if steps != [] {
      StepInv(s, steps[0], budget);
      PathKeepsInv(Next(s, steps[0], budget), steps[1..], end, budget);
    }
  }

  // Only the replica r and the store may have changed, and no hit was recorded.
  ghost predicate Flushed(s: State, end: State, r: nat, left: Local, after: Store) {
    && r < |s.reps| == |end.reps| && (forall q :: 0 <= q < |s.reps| && q != r ==> end.reps[q] == s.reps[q])
    && end.offered == s.offered && end.reps[r].recorded == s.reps[r].recorded
    && end.reps[r].local == left && end.store == after
  }

  // Inside a flush, with the batch b sent.
  ghost predicate Sent(s: State, mid: State, r: nat, l: Local, b: Batch) {
    Flushed(s, mid, r, l, s.store) && l.batch == Some(b) && b.id == l.seqNo &&
    mid.reps[r].phase.Sending? && (r, b) in mid.batches
  }

  lemma RetrySends(s: State, r: nat, budget: int)
    requires r < |s.reps| && s.reps[r].phase.Idle? && LocalInv(s.reps[r].local, budget)
    requires !s.reps[r].local.overflow && s.reps[r].local.batch.Some?
    ensures Enabled(s, Start(r)) && Sent(s, Next(s, Start(r), budget), r, s.reps[r].local, s.reps[r].local.batch.value)
  {
    hide NothingNew;
  }

  // Nothing is pending, or a new batch is built and sent.
  ghost predicate BuiltAndSent(s: State, end: State, r: nat, sent: Local) {
    if sent.batch.None? then Flushed(s, end, r, sent, s.store) && sent == s.reps[r].local && end.reps[r].phase.Idle?
    else Sent(s, end, r, sent, sent.batch.value)
  }

  lemma NewBatchSends(s: State, r: nat, budget: int)
    requires r < |s.reps| && s.reps[r].phase.Idle? && LocalInv(s.reps[r].local, budget)
    requires !s.reps[r].local.overflow && s.reps[r].local.batch.None?
    ensures Enabled(s, Start(r)) && Enabled(Next(s, Start(r), budget), Build(r))
    ensures BuiltAndSent(s, Next(Next(s, Start(r), budget), Build(r), budget), r, NextBatch(s.reps[r].local))
  {
    hide LocalInv, NothingNew, MarkAll, HitsOf;
  }

  lemma CallTimesOut(s: State, mid: State, r: nat, l: Local, b: Batch, budget: int)
    requires Sent(s, mid, r, l, b)
    ensures Enabled(mid, Timeout(r))
    ensures var end := Next(mid, Timeout(r), budget); Flushed(s, end, r, l, s.store) && end.reps[r].phase.Idle?
  {
  }

  lemma CallArrives(s: State, mid: State, r: nat, l: Local, b: Batch, budget: int)
    requires Sent(s, mid, r, l, b)
    ensures Enabled(mid, Deliver(r, b))
    ensures var late, after := Next(mid, Deliver(r, b), budget), ApplyBatch(s.store, r, b, budget).0;
      && Enabled(late, Timeout(r)) && Enabled(late, Ack(r))
      && Flushed(s, Next(late, Timeout(r), budget), r, l, after) && Next(late, Timeout(r), budget).reps[r].phase.Idle?
      && Flushed(s, Next(late, Ack(r), budget), r, Acknowledge(l), after) && Next(late, Ack(r), budget).reps[r].phase.Idle?
  {
    hide ApplyBatch, Acknowledge;
  }

  // The call with its batch, from the moment it is sent.
  lemma CallIsPath(s: State, steps: seq<Step>, mid: State, r: nat, l: Local, b: Batch, budget: int, left: Local, after: Store, err: bool)
      returns (more: seq<Step>, end: State)
    requires Path(s, steps, mid, budget) && Sent(s, mid, r, l, b)
    requires if err then left == l && (after == s.store || after == ApplyBatch(s.store, r, b, budget).0)
             else left == Acknowledge(l) && after == ApplyBatch(s.store, r, b, budget).0
    ensures Path(s, more, end, budget) && Flushed(s, end, r, left, after) && end.reps[r].phase.Idle?
    ensures more != [] && (if err then more[|more| - 1] == Timeout(r) else more[|more| - 1] == Ack(r))
  {
    hide Path, Enabled, Next, Flushed, Sent, ApplyBatch, Acknowledge;
    CallTimesOut(s, mid, r, l, b, budget);
    CallArrives(s, mid, r, l, b, budget);
    var late := Next(mid, Deliver(r, b), budget);
    var last := if err then Timeout(r) else Ack(r);
    if err && after == s.store {
      PathSnoc(s, steps, mid, last, budget);
      more, end := steps + [last], Next(mid, last, budget);
    } else {
      PathSnoc(s, steps, mid, Deliver(r, b), budget);
      PathSnoc(s, steps + [Deliver(r, b)], late, last, budget);
      more, end := steps + [Deliver(r, b)] + [last], Next(late, last, budget);
    }
  }

  // A flush of a replica that has not overflowed. It ends with a timeout exactly
  // when it returns an error.
  lemma FlushIsPath(s: State, r: nat, budget: int, left: Local, after: Store, err: bool) returns (steps: seq<Step>, end: State)
    requires r < |s.reps| && s.reps[r].phase.Idle? && LocalInv(s.reps[r].local, budget) && !s.reps[r].local.overflow
    requires FlushResult(r, budget, s.reps[r].local, left, s.store, after, err)
    ensures Path(s, steps, end, budget) && Flushed(s, end, r, left, after) && end.reps[r].phase.Idle?
    ensures steps != [] && (steps[|steps| - 1] == Timeout(r) <==> err)
  {
    var l, begun := s.reps[r].local, Next(s, Start(r), budget);
    hide Enabled, Next, Flushed, Sent, LocalInv, ApplyBatch, Acknowledge, NextBatch;
    if l.batch.Some? {
      RetrySends(s, r, budget);
      PathSnoc(s, [], s, Start(r), budget);
      steps, end := CallIsPath(s, [] + [Start(r)], begun, r, l, l.batch.value, budget, left, after, err);
    } else {
      NewBatchSends(s, r, budget);
      PathSnoc(s, [], s, Start(r), budget);
      PathSnoc(s, [] + [Start(r)], begun, Build(r), budget);
      steps, end := [] + [Start(r)] + [Build(r)], Next(begun, Build(r), budget);
      var sent := NextBatch(l);
      if sent.batch.Some? {
        steps, end := CallIsPath(s, steps, end, r, sent, sent.batch.value, budget, left, after, err);
      }
    }
  }

  lemma SaturatingSteps(s: State, r: nat, budget: int)
    requires r < |s.reps| && s.reps[r].phase.Idle? && s.reps[r].local.overflow
    ensures Enabled(s, Start(r))
    ensures var begun := Next(s, Start(r), budget);
      && Enabled(begun, Timeout(r)) && Enabled(begun, DeliverSaturate(r))
      && Flushed(s, Next(begun, Timeout(r), budget), r, s.reps[r].local, s.store)
      && Next(begun, Timeout(r), budget).reps[r].phase.Idle?
    ensures var late := Next(Next(s, Start(r), budget), DeliverSaturate(r), budget);
      && Enabled(late, Timeout(r)) && Enabled(late, Reset(r))
      && Flushed(s, Next(late, Timeout(r), budget), r, s.reps[r].local, Saturate(s.store))
      && Flushed(s, Next(late, Reset(r), budget), r, ResetLocal(s.reps[r].local), Saturate(s.store))
      && Next(late, Timeout(r), budget).reps[r].phase.Idle? && Next(late, Reset(r), budget).reps[r].phase.Idle?
  {
    hide NothingNew;
  }

  // A flush of a replica that has overflowed. It may fail before or after the
  // call arrives.
  lemma SaturatingFlushIsPath(s: State, r: nat, budget: int, arrives: bool, err: bool) returns (steps: seq<Step>, end: State)
    requires r < |s.reps| && s.reps[r].phase.Idle? && s.reps[r].local.overflow && (err || arrives)
    ensures Path(s, steps, end, budget) && r < |end.reps| && end.reps[r].phase.Idle?
    ensures Flushed(s, end, r, if err then s.reps[r].local else ResetLocal(s.reps[r].local),
                    if arrives then Saturate(s.store) else s.store)
    ensures steps != [] && (steps[|steps| - 1] == Timeout(r) <==> err)
  {
    SaturatingSteps(s, r, budget);
    var begun := Next(s, Start(r), budget);
    var late := Next(begun, DeliverSaturate(r), budget);
    var last := if err then Timeout(r) else Reset(r);
    hide Enabled, Next, Saturate, ResetLocal;
    PathSnoc(s, [], s, Start(r), budget);
    if arrives {
      PathSnoc(s, [] + [Start(r)], begun, DeliverSaturate(r), budget);
      PathSnoc(s, [] + [Start(r)] + [DeliverSaturate(r)], late, last, budget);
      steps, end := [] + [Start(r)] + [DeliverSaturate(r)] + [last], Next(late, last, budget);
    } else {
      PathSnoc(s, [] + [Start(r)], begun, last, budget);
      steps, end := [] + [Start(r)] + [last], Next(begun, last, budget);
    }
  }
}
