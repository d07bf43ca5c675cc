// Whole runs of the replicated statistics: conservation, saturation, and what a
// successful flush and an answer of Top promise.
module Runs {
  import opened Options
  import opened Member
  import opened Replicas
  import opened Protocol

  ghost predicate IsRun(states: seq<State>, steps: seq<Step>, budget: int) {
    && |states| == |steps| + 1 && Init(states[0])
    && forall i :: 0 <= i < |steps| ==> Takes(states[i], steps[i], states[i + 1], budget)
  }

  ghost predicate Takes(s: State, step: Step, s': State, budget: int) {
    Enabled(s, step) && s' == Next(s, step, budget)
  }

  lemma {:induction false} RunInv(states: seq<State>, steps: seq<Step>, budget: int, i: nat)
    requires IsRun(states, steps, budget) && i < |states|
    ensures Inv(states[i], budget) && |states[i].reps| == |states[0].reps|
  {
    if i == 0 {
      InitInv(states[0], budget);
    } else {
      RunInv(states, steps, budget, i - 1);
      assert Takes(states[i - 1], steps[i - 1], states[i], budget);
      StepInv(states[i - 1], steps[i - 1], budget);
      hide Inv;
    }
  }

  // A hit can be recorded at any time, also while a batch is on its way.
  lemma RecordAnyTime(s: State, r: nat, p: Request)
    requires r < |s.reps|
    ensures Enabled(s, Record(r, p))
  {
  }

  lemma MessagesKept(s: State, step: Step, budget: int)
    requires Enabled(s, step)
    ensures var s' := Next(s, step, budget); s.batches <= s'.batches && s.saturations <= s'.saturations
  {
    hide NothingNew, RecordHit, Counts, NextBatch, ApplyBatch, Acknowledge;
  }

  // A call that was sent can arrive at any later time, any number of times.
  lemma {:induction false} CallsArriveAnyTime(states: seq<State>, steps: seq<Step>, budget: int, i: nat, j: nat)
    requires IsRun(states, steps, budget) && i <= j < |states|
    ensures states[i].batches <= states[j].batches && states[i].saturations <= states[j].saturations
    ensures forall r, b :: (r, b) in states[i].batches ==> Enabled(states[j], Deliver(r, b))
    ensures forall r :: r in states[i].saturations && r < |states[0].reps| ==> Enabled(states[j], DeliverSaturate(r))
    decreases j
  {
    RunInv(states, steps, budget, j);
    if i < j {
      CallsArriveAnyTime(states, steps, budget, i, j - 1);
      assert Takes(states[j - 1], steps[j - 1], states[j], budget);
      MessagesKept(states[j - 1], steps[j - 1], budget);
    }
    hide IsRun, Next, StoreInv, RepInv, Conserved, Exceeds, MessageOk;
  }

  // ---- conservation ----

  lemma ShareBounds(rep: Replica, last: nat, saturated: bool, offered: set<Request>, budget: int, p: Request)
    requires RepInv(rep, last, saturated, offered, budget)
    ensures 0 <= Share(rep, last, p) <= rep.recorded[p]
  {
  }

  lemma RepInvOf(s: State, budget: int, r: nat)
    requires Inv(s, budget) && r < |s.reps|
    ensures RepInv(s.reps[r], LastSeq(s.store, r), s.store.saturated, s.offered, budget)
  {
    hide RepInv, StoreInv, MessagesInv, Conserved, Exceeds;
  }

  lemma {:induction false} TotalBounds(s: State, budget: int, k: nat, r: nat, p: Request)
    requires Inv(s, budget) && k <= |s.reps|
    ensures Total(s.reps, s.store, k, p) >= 0
    ensures r < k ==> Total(s.reps, s.store, k, p) >= Share(s.reps[r], LastSeq(s.store, r), p)
    decreases k
  {
    hide Inv, Share, RepInv;
    if k > 0 {
      TotalBounds(s, budget, k - 1, r, p);
      RepInvOf(s, budget, k - 1);
      ShareBounds(s.reps[k - 1], LastSeq(s.store, k - 1), s.store.saturated, s.offered, budget, p);
    }
  }

  // In every run, below saturation, the shared count of a request is the sum
  // over the replicas of its recorded hits, less the unacknowledged ones, plus
  // the ones in an outstanding batch that is already applied. No replica ever
  // has more in the store than it recorded.
  lemma Conservation(states: seq<State>, steps: seq<Step>, budget: int, i: nat, p: Request)
    requires IsRun(states, steps, budget) && i < |states| && !states[i].store.saturated
    ensures Count(states[i].store, p) == Total(states[i].reps, states[i].store, |states[i].reps|, p)
    ensures forall r :: 0 <= r < |states[i].reps| ==>
      0 <= Share(states[i].reps[r], LastSeq(states[i].store, r), p) <= states[i].reps[r].recorded[p]
  {
    RunInv(states, steps, budget, i);
    var s := states[i];
    forall r | 0 <= r < |s.reps|
      ensures 0 <= Share(s.reps[r], LastSeq(s.store, r), p) <= s.reps[r].recorded[p]
    {
      ShareBounds(s.reps[r], LastSeq(s.store, r), false, s.offered, budget, p);
    }
  }

  lemma {:induction false} QuietTotal(s: State, k: nat, p: Request)
    requires k <= |s.reps|
    requires forall r :: 0 <= r < |s.reps| ==> s.reps[r].local.pending == map[]
    ensures Total(s.reps, s.store, k, p) == RecordedTotal(s.reps, k, p)
  {
    if k > 0 {
      QuietTotal(s, k - 1, p);
    }
  }

  function RecordedTotal(reps: seq<Replica>, k: nat, p: Request): nat
    requires k <= |reps|
  {
    if k == 0 then 0 else RecordedTotal(reps, k - 1, p) + reps[k - 1].recorded[p]
  }

  // Once nothing is pending anywhere, Redis has every recorded hit exactly once.
  lemma QuietMeansExact(states: seq<State>, steps: seq<Step>, budget: int, i: nat, p: Request)
    requires IsRun(states, steps, budget) && i < |states| && !states[i].store.saturated
    requires forall r :: 0 <= r < |states[i].reps| ==> states[i].reps[r].local.pending == map[]
    ensures Count(states[i].store, p) == RecordedTotal(states[i].reps, |states[i].reps|, p)
  {
    Conservation(states, steps, budget, i, p);
    QuietTotal(states[i], |states[i].reps|, p);
  }

  // How many Record steps of replica r with request p there are before step i,
  // not counting those after which the replica has overflowed.
  ghost function Recordings(states: seq<State>, steps: seq<Step>, r: nat, p: Request, i: nat): nat
    requires i <= |steps| < |states| && forall k :: 0 <= k < |states| ==> r < |states[k].reps|
  {
    if i == 0 then 0
    else
      var counted := steps[i - 1] == Record(r, p) && !states[i].reps[r].local.overflow;
      Recordings(states, steps, r, p, i - 1) + (if counted then 1 else 0)
  }

  lemma RecordedStep(s: State, step: Step, budget: int, r: nat, p: Request)
    requires r < |s.reps| && Enabled(s, step)
    ensures var s' := Next(s, step, budget);
      var counted := step == Record(r, p) && !s'.reps[r].local.overflow;
      s'.reps[r].recorded[p] == s.reps[r].recorded[p] + (if counted then 1 else 0)
  {
    if step.Record? && step.r == r {
      assert Counts(s.reps[r].local, step.p, budget) <==> !RecordHit(s.reps[r].local, step.p, budget).overflow;
    }
    hide NothingNew, RecordHit, Counts, NextBatch, ApplyBatch, Acknowledge;
  }

  // The recorded hits of a replica are the calls of Record in the run, except
  // the ones that an overflow refuses.
  lemma {:induction false} RecordedAreCalls(states: seq<State>, steps: seq<Step>, budget: int, r: nat, p: Request, i: nat)
    requires IsRun(states, steps, budget) && i <= |steps| && forall k :: 0 <= k < |states| ==> r < |states[k].reps|
    ensures states[i].reps[r].recorded[p] == Recordings(states, steps, r, p, i)
  {
    hide Next, Enabled;
    if i > 0 {
      RecordedAreCalls(states, steps, budget, r, p, i - 1);
      assert Takes(states[i - 1], steps[i - 1], states[i], budget);
      RecordedStep(states[i - 1], steps[i - 1], budget, r, p);
    }
  }

  // ---- saturation ----

  // The store saturates only when the requests offered so far cannot fit the
  // budget, and until then it charges exactly its members.
  lemma SaturationIsJustified(states: seq<State>, steps: seq<Step>, budget: int, i: nat)
    requires IsRun(states, steps, budget) && i < |states|
    ensures states[i].store.saturated ==> SharedBytes(states[i].offered) > budget
    ensures !states[i].store.saturated ==>
      && states[i].store.used == SharedBytes(states[i].store.counts.Keys)
      && (states[i].store.counts != map[] ==> states[i].store.used <= budget)
  {
    RunInv(states, steps, budget, i);
  }

  // Local overflow is justified too, and a replica charges exactly its keys.
  lemma OverflowIsJustified(states: seq<State>, steps: seq<Step>, budget: int, i: nat, r: nat)
    requires IsRun(states, steps, budget) && i < |states| && r < |states[i].reps|
    ensures states[i].reps[r].local.overflow ==> SharedBytes(states[i].offered) > budget
    ensures states[i].reps[r].local.used == LocalBytes(states[i].reps[r].local.pending.Keys)
  {
    RunInv(states, steps, budget, i);
    RepInvOf(states[i], budget, r);
    hide Inv, IsRun, SharedBytes, LocalBytes;
  }

  lemma StaysSaturated(s: State, step: Step, budget: int)
    requires Inv(s, budget) && Enabled(s, step) && s.store.saturated
    ensures Next(s, step, budget).store.saturated && Next(s, step, budget).store.counts == map[]
  {
  }

  // Saturation is permanent, and no member ever reappears.
  lemma {:induction false} SaturationIsPermanent(states: seq<State>, steps: seq<Step>, budget: int, i: nat, j: nat)
    requires IsRun(states, steps, budget) && i <= j < |states| && states[i].store.saturated
    ensures states[j].store.saturated && states[j].store.counts == map[]
    decreases j
  {
    hide Inv, Next, Init, Enabled;
    RunInv(states, steps, budget, j);
    if i < j {
      SaturationIsPermanent(states, steps, budget, i, j - 1);
      RunInv(states, steps, budget, j - 1);
      assert Takes(states[j - 1], steps[j - 1], states[j], budget);
      StaysSaturated(states[j - 1], steps[j - 1], budget);
    }
    SaturatedIsEmpty(states[j], budget);
  }

  lemma SaturatedIsEmpty(s: State, budget: int)
    requires Inv(s, budget)
    ensures s.store.saturated ==> s.store.counts == map[]
  {
  }

  // What flushScript replies to this delivery.
  ghost function Reply(s: State, step: Step, budget: int): nat
    requires step.Deliver?
  {
    ApplyBatch(s.store, step.r, step.b, budget).1
  }

  lemma SaturatingStep(s: State, step: Step, budget: int)
    requires Enabled(s, step)
    ensures step.Deliver? ==> (Reply(s, step, budget) == 1 <==> s.store.saturated)
    ensures Next(s, step, budget).store.saturated && !s.store.saturated <==>
      (step.DeliverSaturate? && !s.store.saturated) || (step.Deliver? && Reply(s, step, budget) == 2)
  {
    match step {
      case Deliver(r, b) => ReplyMeans(s.store, r, b, budget);
      case _ =>
    }
    hide ApplyBatch, RecordHit, Counts, NextBatch, Acknowledge, NothingNew;
  }

  // At most one script call in a run reports that it saturated the store.
  lemma SaturationReportedOnce(states: seq<State>, steps: seq<Step>, budget: int, i: nat, j: nat)
    requires IsRun(states, steps, budget) && i < j < |steps| && steps[i].Deliver? && steps[j].Deliver?
    requires Reply(states[i], steps[i], budget) == 2
    ensures Reply(states[j], steps[j], budget) == 1
  {
    hide Next, Enabled, Reply, Init;
    assert Takes(states[i], steps[i], states[i + 1], budget) && Takes(states[j], steps[j], states[j + 1], budget);
    SaturatingStep(states[i], steps[i], budget);
    SaturatingStep(states[j], steps[j], budget);
    SaturationIsPermanent(states, steps, budget, i + 1, j);
  }

  // A saturated store was saturated by a reply 2, or by a replica that overflowed.
  lemma {:induction false} SaturationIsReported(states: seq<State>, steps: seq<Step>, budget: int, i: nat) returns (k: nat)
    requires IsRun(states, steps, budget) && i < |states| && states[i].store.saturated
    ensures k < i && !states[k].store.saturated
    ensures steps[k].DeliverSaturate? || (steps[k].Deliver? && Reply(states[k], steps[k], budget) == 2)
  {
    hide Next, Enabled, Reply;
    if i > 0 {
      assert Takes(states[i - 1], steps[i - 1], states[i], budget);
      SaturatingStep(states[i - 1], steps[i - 1], budget);
      if states[i - 1].store.saturated {
        k := SaturationIsReported(states, steps, budget, i - 1);
      } else {
        k := i - 1;
      }
    }
  }

  lemma ResetStep(s: State, r: nat, budget: int)
    requires Enabled(s, Reset(r))
    ensures var l := Next(s, Reset(r), budget).reps[r].local;
      !l.overflow && l.pending == map[] && l.used == 0 && l.batch.None? && l.seqNo == s.reps[r].local.seqNo
  {
  }

  lemma OtherReplica(s: State, step: Step, r: nat, budget: int)
    requires r < |s.reps| && Enabled(s, step) && step.r != r
    ensures Next(s, step, budget).reps[r] == s.reps[r]
  {
  }

  lemma {:induction false} Undisturbed(states: seq<State>, steps: seq<Step>, budget: int, r: nat, i: nat, j: nat)
    requires IsRun(states, steps, budget) && i <= j < |states| && forall k :: 0 <= k < |states| ==> r < |states[k].reps|
    requires forall k :: i <= k < j ==> steps[k].r != r
    ensures states[j].reps[r] == states[i].reps[r]
    decreases j
  {
    hide Next, Enabled;
    if i < j {
      Undisturbed(states, steps, budget, r, i, j - 1);
      assert Takes(states[j - 1], steps[j - 1], states[j], budget);
      OtherReplica(states[j - 1], steps[j - 1], r, budget);
    }
  }

  // A replica that was reset counts again: the next hit is pending, unless it
  // does not fit the budget by itself.
  lemma ResetReplicaCounts(states: seq<State>, steps: seq<Step>, budget: int, r: nat, p: Request, i: nat, j: nat)
    requires IsRun(states, steps, budget) && i < j < |steps| && forall k :: 0 <= k < |states| ==> r < |states[k].reps|
    requires steps[i] == Reset(r) && steps[j] == Record(r, p) && forall k :: i < k < j ==> steps[k].r != r
    ensures !states[i + 1].reps[r].local.overflow && states[i + 1].reps[r].local.pending == map[]
    ensures Unacked(states[j + 1].reps[r].local, p) == (if LocalCost(p) <= budget then 1 else 0)
    ensures states[j + 1].reps[r].recorded[p] == states[i].reps[r].recorded[p] + (if LocalCost(p) <= budget then 1 else 0)
  {
    assert Takes(states[i], steps[i], states[i + 1], budget) && Takes(states[j], steps[j], states[j + 1], budget);
    ResetStep(states[i], r, budget);
    Undisturbed(states, steps, budget, r, i + 1, j);
    RecordedStep(states[i], steps[i], budget, r, p);
    RecordedStep(states[j], steps[j], budget, r, p);
    FirstHitOf(states[j].reps[r].local, p, budget);
    RecordsIn(states[j], r, p, budget);
    hide Next, Enabled, RecordHit, LocalCost, Init;
  }

  lemma RecordsIn(s: State, r: nat, p: Request, budget: int)
    requires r < |s.reps|
    ensures Next(s, Record(r, p), budget).reps[r].local == RecordHit(s.reps[r].local, p, budget)
  {
    hide RecordHit, Counts;
  }

  lemma FirstHitOf(l: Local, p: Request, budget: int)
    requires !l.overflow && l.pending == map[] && l.used == 0
    ensures var l' := RecordHit(l, p, budget);
      Unacked(l', p) == (if LocalCost(p) <= budget then 1 else 0) && (l'.overflow <==> LocalCost(p) > budget)
  {
  }

  // The budget bounds the keys of every replica and the members of the store.
  lemma BudgetBoundsKeys(states: seq<State>, steps: seq<Step>, budget: int, i: nat, r: nat)
    requires IsRun(states, steps, budget) && i < |states| && r < |states[i].reps|
    ensures var l := states[i].reps[r].local; l.pending != map[] ==>
      128 * |l.pending.Keys| + SetSums.Sum(l.pending.Keys, (p: Request) => |p.str1| + |p.str2|) == l.used <= budget
    ensures var st := states[i].store; st.counts != map[] ==>
      128 * |st.counts.Keys| + SetSums.Sum(st.counts.Keys, (p: Request) => |Member.Member(p)|) == st.used <= budget
  {
    RunInv(states, steps, budget, i);
    RepInvOf(states[i], budget, r);
    LocalBytesAre(states[i].reps[r].local.pending.Keys);
    SharedBytesAre(states[i].store.counts.Keys);
    hide IsRun, SharedBytes, LocalBytes, MessagesInv, Conserved, Exceeds;
  }

  // ---- what a successful flush promises ----

  // Every recorded hit is in the store or in the retained batch, so a flush that
  // starts now sends all of them.
  predicate Clean(l: Local) {
    l.batch.None? || NothingNew(l)
  }

  // rep is inside the flush that began at base.
  ghost predicate Flushing(base: Replica, rep: Replica) {
    rep.mark == base.recorded &&
    match rep.phase
    case Idle => false
    case Checked => base.local.batch.None?
    case Sending(covered) => covered <==> Clean(base.local)
    case Saturating => true
  }

  lemma FlushStarts(s: State, r: nat, budget: int)
    requires Enabled(s, Start(r))
    ensures Flushing(s.reps[r], Next(s, Start(r), budget).reps[r])
  {
    hide NothingNew;
  }

  lemma FlushGoesOn(base: Replica, s: State, step: Step, r: nat, budget: int)
    requires r < |s.reps| && Enabled(s, step) && Flushing(base, s.reps[r])
    requires !Next(s, step, budget).reps[r].phase.Idle?
    ensures Flushing(base, Next(s, step, budget).reps[r])
  {
    hide NothingNew, RecordHit, Counts, NextBatch, ApplyBatch, Acknowledge;
  }

  lemma FlushEnds(base: Replica, s: State, step: Step, r: nat, budget: int)
    requires Inv(s, budget) && r < |s.reps| && Enabled(s, step) && Flushing(base, s.reps[r])
    requires step.r == r && (step.Build? || step.Ack? || step.Reset?)
    requires Next(s, step, budget).reps[r].phase.Idle?
    ensures var s' := Next(s, step, budget); var rep := s'.reps[r];
      && rep.local.batch.None?
      && (s'.store.saturated || (Clean(base.local) <==> forall p :: base.recorded[p] <= Share(rep, LastSeq(s'.store, r), p)))
  {
    var rep, last, sat := s.reps[r], LastSeq(s.store, r), s.store.saturated;
    RepInvOf(s, budget, r);
    match step {
      case Build(_) => EmptyBuildCovers(rep, last);
      case Ack(_) => AckStep(rep, last, sat, s.offered, budget);
      case Reset(_) =>
    }
    hide RepInv, Clean, NextBatch, Acknowledge, Unacked, InFlight, StoreInv, Conserved;
  }

  lemma EmptyBuildCovers(rep: Replica, last: nat)
    requires rep.phase.Checked? && rep.local.batch.None? && Built(rep).phase.Idle?
    requires forall p :: rep.mark[p] <= rep.recorded[p]
    ensures Built(rep).local == rep.local && forall p :: rep.mark[p] <= Share(Built(rep), last, p)
  {
  }

  // One call of Flush of replica r: it starts with step i and succeeds with step j.
  ghost predicate SuccessfulFlush(states: seq<State>, steps: seq<Step>, budget: int, r: nat, i: nat, j: nat) {
    && IsRun(states, steps, budget) && i < j < |steps| && r < |states[0].reps|
    && (forall k :: 0 <= k < |states| ==> |states[k].reps| == |states[0].reps|)
    && steps[i] == Start(r)
    && (forall k :: i < k <= j ==> !states[k].reps[r].phase.Idle?)
    && steps[j].r == r && (steps[j].Build? || steps[j].Ack? || steps[j].Reset?)
    && states[j + 1].reps[r].phase.Idle?
  }

  lemma {:induction false} FlushInside(states: seq<State>, steps: seq<Step>, budget: int, r: nat, i: nat, j: nat, k: nat)
    requires SuccessfulFlush(states, steps, budget, r, i, j) && i < k <= j
    ensures Flushing(states[i].reps[r], states[k].reps[r])
    decreases k
  {
    hide Init, Inv, Flushing, Next, Enabled;
    assert Takes(states[k - 1], steps[k - 1], states[k], budget);
    if k == i + 1 {
      FlushStarts(states[i], r, budget);
    } else {
      FlushInside(states, steps, budget, r, i, j, k - 1);
      FlushGoesOn(states[i].reps[r], states[k - 1], steps[k - 1], r, budget);
    }
  }

  // A successful flush leaves every hit that was recorded before it in the
  // store, or the store saturated, if and only if no batch was outstanding at
  // its start or nothing was recorded since that batch was built.
  lemma FlushCovers(states: seq<State>, steps: seq<Step>, budget: int, r: nat, i: nat, j: nat)
    requires SuccessfulFlush(states, steps, budget, r, i, j)
    ensures var base, s := states[i].reps[r], states[j + 1];
      && s.reps[r].local.batch.None?
      && (s.store.saturated || (Clean(base.local) <==> forall p :: base.recorded[p] <= Share(s.reps[r], LastSeq(s.store, r), p)))
      && (s.store.saturated || (Clean(base.local) ==> forall p :: base.recorded[p] <= Count(s.store, p)))
  {
    hide Init, Flushing, Next, Enabled, Clean, Share, Inv;
    RunInv(states, steps, budget, j);
    FlushInside(states, steps, budget, r, i, j, j);
    assert Takes(states[j], steps[j], states[j + 1], budget);
    FlushEnds(states[i].reps[r], states[j], steps[j], r, budget);
    var end := states[j + 1];
    if !end.store.saturated {
      var rep, last := end.reps[r], LastSeq(end.store, r);
      forall p ensures Share(rep, last, p) <= Count(end.store, p) {
        ShareInStore(states, steps, budget, j + 1, r, p);
      }
    }
  }

  lemma ShareInStore(states: seq<State>, steps: seq<Step>, budget: int, i: nat, r: nat, p: Request)
    requires IsRun(states, steps, budget) && i < |states| && !states[i].store.saturated && r < |states[i].reps|
    ensures Share(states[i].reps[r], LastSeq(states[i].store, r), p) <= Count(states[i].store, p)
  {
    RunInv(states, steps, budget, i);
    Conservation(states, steps, budget, i, p);
    hide Init, Share, Inv;
    TotalBounds(states[i], budget, |states[i].reps|, r, p);
  }

  // ---- counts only grow below saturation ----

  lemma ApplyGrows(st: Store, r: nat, b: Batch, budget: int, p: Request)
    requires !ApplyBatch(st, r, b, budget).0.saturated
    ensures !st.saturated && Count(st, p) <= Count(ApplyBatch(st, r, b, budget).0, p)
  {
    MergeCounts(st.counts, b.hits);
    hide Merge, UsedWith;
  }

  lemma CountGrows(s: State, step: Step, budget: int, p: Request)
    requires Enabled(s, step) && !Next(s, step, budget).store.saturated
    ensures !s.store.saturated && Count(s.store, p) <= Count(Next(s, step, budget).store, p)
  {
    match step {
      case Deliver(r, b) => ApplyGrows(s.store, r, b, budget, p);
      case _ =>
    }
    hide Count, ApplyBatch, Recorded, Started, Built, Acked, Cleared, TimedOut;
  }

  // A count never falls in a run, until saturation removes all of them.
  lemma {:induction false} CountsGrow(states: seq<State>, steps: seq<Step>, budget: int, i: nat, k: nat, p: Request)
    requires IsRun(states, steps, budget) && i <= k < |states| && !states[k].store.saturated
    ensures !states[i].store.saturated && Count(states[i].store, p) <= Count(states[k].store, p)
    decreases k
  {
    hide Next, Init, Enabled, Count;
    if i < k {
      assert Takes(states[k - 1], steps[k - 1], states[k], budget);
      CountGrows(states[k - 1], steps[k - 1], budget, p);
      CountsGrow(states, steps, budget, i, k - 1, p);
    }
  }

  // Every hit that was recorded before a clean successful flush stays in the
  // store for the rest of the run, until saturation.
  lemma CoveredHitsStay(states: seq<State>, steps: seq<Step>, budget: int, r: nat, i: nat, j: nat, k: nat, p: Request)
    requires SuccessfulFlush(states, steps, budget, r, i, j) && Clean(states[i].reps[r].local)
    requires j < k < |states| && !states[k].store.saturated
    ensures states[i].reps[r].recorded[p] <= Count(states[k].store, p)
  {
    CountsGrow(states, steps, budget, j + 1, k, p);
    FlushCovers(states, steps, budget, r, i, j);
    hide Init, Next, Enabled, Clean, Share, Count;
  }

  lemma RecordedGrows(s: State, step: Step, r: nat, budget: int, p: Request)
    requires r < |s.reps| && Enabled(s, step)
    ensures s.reps[r].recorded[p] <= Next(s, step, budget).reps[r].recorded[p]
  {
    hide NothingNew, RecordHit, Counts, NextBatch, ApplyBatch, Acknowledge;
  }

  lemma {:induction false} RecordedMonotone(states: seq<State>, steps: seq<Step>, budget: int, r: nat, i: nat, j: nat, p: Request)
    requires IsRun(states, steps, budget) && i <= j < |states| && r < |states[0].reps|
    requires forall k :: 0 <= k < |states| ==> |states[k].reps| == |states[0].reps|
    ensures states[i].reps[r].recorded[p] <= states[j].reps[r].recorded[p]
    decreases j
  {
    hide Init, Next, Enabled;
    if i < j {
      RecordedMonotone(states, steps, budget, r, i, j - 1, p);
      assert Takes(states[j - 1], steps[j - 1], states[j], budget);
      RecordedGrows(states[j - 1], steps[j - 1], r, budget, p);
    }
  }

  lemma IdleKeepsNoBatch(s: State, step: Step, r: nat, budget: int)
    requires r < |s.reps| && Enabled(s, step) && s.reps[r].phase.Idle? && s.reps[r].local.batch.None?
    ensures Next(s, step, budget).reps[r].phase.Idle? ==> Next(s, step, budget).reps[r].local.batch.None?
  {
    hide NothingNew, Counts, NextBatch, ApplyBatch, Acknowledge;
  }

  lemma {:induction false} IdleBetween(states: seq<State>, steps: seq<Step>, budget: int, r: nat, i: nat, j: nat)
    requires IsRun(states, steps, budget) && i <= j < |states| && r < |states[0].reps|
    requires forall k :: 0 <= k < |states| ==> |states[k].reps| == |states[0].reps|
    requires states[i].reps[r].local.batch.None? && forall k :: i <= k <= j ==> states[k].reps[r].phase.Idle?
    ensures states[j].reps[r].local.batch.None?
    decreases j
  {
    hide Init, Next, Enabled;
    if i < j {
      IdleBetween(states, steps, budget, r, i, j - 1);
      assert Takes(states[j - 1], steps[j - 1], states[j], budget);
      IdleKeepsNoBatch(states[j - 1], steps[j - 1], r, budget);
    }
  }

  // Two consecutive successful flushes always leave every hit that was recorded
  // before the first one in the store, or the store saturated.
  lemma TwoFlushesSuffice(states: seq<State>, steps: seq<Step>, budget: int, r: nat, i: nat, j: nat, i': nat, j': nat, p: Request)
    requires SuccessfulFlush(states, steps, budget, r, i, j) && SuccessfulFlush(states, steps, budget, r, i', j')
    requires j < i' && forall k :: j < k <= i' ==> states[k].reps[r].phase.Idle?
    ensures states[j' + 1].store.saturated || states[i].reps[r].recorded[p] <= Count(states[j' + 1].store, p)
  {
    FlushCovers(states, steps, budget, r, i, j);
    FlushCovers(states, steps, budget, r, i', j');
    RecordedMonotone(states, steps, budget, r, i, i', p);
    IdleBetween(states, steps, budget, r, j + 1, i');
    hide Init, Next, Enabled, NothingNew;
  }

  // ---- Top: two reads that are not one atomic step ----

  // A winner is always right at the time of the second read, even if the store
  // changed between the two.
  lemma WinnerIsExact(states: seq<State>, steps: seq<Step>, budget: int, i: nat, j: nat, a: Answer, q: Request)
    requires IsRun(states, steps, budget) && i <= j < |states|
    requires Answers(states[i].store, states[j].store, a) && a.Winner?
    ensures !states[j].store.saturated
    ensures a.hits >= 1 && a.hits == Total(states[j].reps, states[j].store, |states[j].reps|, a.p)
    ensures Total(states[j].reps, states[j].store, |states[j].reps|, q) <= a.hits
  {
    RunInv(states, steps, budget, j);
    SaturatedIsEmpty(states[j], budget);
    Conservation(states, steps, budget, j, a.p);
    Conservation(states, steps, budget, j, q);
    hide IsRun, Total, RepInv, MessagesInv, Conserved;
  }

  // A client sees its own hits: after a clean successful flush, whatever the
  // other replicas do then and between the two reads, a winner has at least as
  // many hits as this replica had recorded of any request before the flush.
  lemma WinnerIncludesOwnHits(states: seq<State>, steps: seq<Step>, budget: int, r: nat, i: nat, j: nat,
                              k1: nat, k2: nat, a: Answer, p: Request)
    requires SuccessfulFlush(states, steps, budget, r, i, j) && Clean(states[i].reps[r].local)
    requires j < k1 <= k2 < |states| && Answers(states[k1].store, states[k2].store, a) && a.Winner?
    ensures states[i].reps[r].recorded[p] <= a.hits
  {
    WinnerIsExact(states, steps, budget, k1, k2, a, p);
    CoveredHitsStay(states, steps, budget, r, i, j, k2, p);
    Conservation(states, steps, budget, k2, p);
    hide Init, Next, Enabled, Clean, Share, Count, Total, Answers;
  }

  // The two reads give what one atomic read at the second moment could give, if
  // and only if the store did not saturate between them.
  lemma TwoReadsAreOneIff(states: seq<State>, steps: seq<Step>, budget: int, i: nat, j: nat, a: Answer)
    requires IsRun(states, steps, budget) && i <= j < |states|
    requires Answers(states[i].store, states[j].store, a) && !a.StoreError?
    ensures Answers(states[j].store, states[j].store, a) <==> (states[i].store.saturated <==> states[j].store.saturated)
  {
    RunInv(states, steps, budget, j);
    SaturatedIsEmpty(states[j], budget);
    if states[i].store.saturated {
      SaturationIsPermanent(states, steps, budget, i, j);
    }
    hide IsRun, Inv;
  }

  // An empty answer with no error means that no hit was in the store at either
  // read, unless the store saturated between the two.
  lemma NothingMeansNone(states: seq<State>, steps: seq<Step>, budget: int, i: nat, j: nat, p: Request)
    requires IsRun(states, steps, budget) && i <= j < |states|
    requires Answers(states[i].store, states[j].store, Nothing)
    ensures !states[j].store.saturated ==> Count(states[i].store, p) == 0
    ensures !states[j].store.saturated ==> Total(states[j].reps, states[j].store, |states[j].reps|, p) == 0
    ensures i == j ==> !states[j].store.saturated
  {
    if !states[j].store.saturated {
      CountsGrow(states, steps, budget, i, j, p);
      Conservation(states, steps, budget, j, p);
    }
    hide IsRun, Total;
  }

  // ---- runs that show why the conditions above are needed ----

  const ONE_REPLICA := State([NEW_REPLICA], FRESH, {}, {}, {}, {}, {})

  // One replica in a given position, with the batches it has sent.
  function Solo(local: Local, phase: Phase, recorded: multiset<Request>, mark: multiset<Request>, store: Store,
                batches: set<(nat, Batch)>, replies: set<(nat, nat)>, p: Request): State {
    State([Replica(local, phase, recorded, mark)], store, batches, {}, replies, {}, {p})
  }

  lemma Same(reps: seq<Replica>, rep: Replica)
    requires |reps| == 1 && reps[0] == rep
    ensures reps == [rep]
  {
  }

  function Hit(p: Request, n: nat, sent: nat, id: nat, batch: Option<Batch>): Local {
    Local(map[p := Pending(n, sent)], LocalCost(p), false, id, batch)
  }

  lemma FirstHit(p: Request, budget: int)
    requires LocalCost(p) <= budget
    ensures Takes(ONE_REPLICA, Record(0, p), Solo(Hit(p, 1, 0, 0, None), Idle, multiset{p}, multiset{}, FRESH, {}, {}, p), budget)
  {
    var s := Next(ONE_REPLICA, Record(0, p), budget);
    hide LocalCost;
    assert s.reps[0].local == Hit(p, 1, 0, 0, None);
    assert s.reps[0].recorded == multiset{p};
    Same(s.reps, Replica(Hit(p, 1, 0, 0, None), Idle, multiset{p}, multiset{}));
    assert s.offered == {p};
  }

  function FirstBatch(p: Request): Batch {
    Batch(1, map[p := 1])
  }

  function Sent(p: Request): set<(nat, Batch)> {
    {(0, FirstBatch(p))}
  }

  lemma FirstNumbered(p: Request)
    ensures NextBatch(Hit(p, 1, 0, 0, None)) == Hit(p, 1, 1, 1, Some(FirstBatch(p)))
  {
    var one := Hit(p, 1, 0, 0, None);
    assert p in one.pending;
    assert MarkAll(one.pending) == Hit(p, 1, 1, 1, Some(FirstBatch(p))).pending;
    assert HitsOf(one.pending) == map[p := 1];
  }

  // The batch with the first hit is built and sent, and its reply does not come.
  lemma BatchTimesOut(p: Request, budget: int)
    ensures var one, sent, none := Hit(p, 1, 0, 0, None), Hit(p, 1, 1, 1, Some(FirstBatch(p))), multiset{};
      && Takes(Solo(one, Idle, multiset{p}, none, FRESH, {}, {}, p), Start(0),
               Solo(one, Checked, multiset{p}, multiset{p}, FRESH, {}, {}, p), budget)
      && Takes(Solo(one, Checked, multiset{p}, multiset{p}, FRESH, {}, {}, p), Build(0),
               Solo(sent, Sending(true), multiset{p}, multiset{p}, FRESH, Sent(p), {}, p), budget)
      && Takes(Solo(sent, Sending(true), multiset{p}, multiset{p}, FRESH, Sent(p), {}, p), Timeout(0),
               Solo(sent, Idle, multiset{p}, multiset{p}, FRESH, Sent(p), {}, p), budget)
  {
    hide LocalCost;
    var one, sent := Hit(p, 1, 0, 0, None), Hit(p, 1, 1, 1, Some(FirstBatch(p)));
    var s1 := Solo(one, Idle, multiset{p}, multiset{}, FRESH, {}, {}, p);
    Same(Next(s1, Start(0), budget).reps, Replica(one, Checked, multiset{p}, multiset{p}));
    var s2 := Solo(one, Checked, multiset{p}, multiset{p}, FRESH, {}, {}, p);
    FirstNumbered(p);
    hide NextBatch, FirstBatch;
    Same(Next(s2, Build(0), budget).reps, Replica(sent, Sending(true), multiset{p}, multiset{p}));
    assert Next(s2, Build(0), budget).batches == Sent(p);
    var s3 := Solo(sent, Sending(true), multiset{p}, multiset{p}, FRESH, Sent(p), {}, p);
    Same(Next(s3, Timeout(0), budget).reps, Replica(sent, Idle, multiset{p}, multiset{p}));
  }

  // One more hit, and a flush that only retries the retained batch.
  lemma RetryStarts(p: Request, budget: int)
    ensures var sent, more := Hit(p, 1, 1, 1, Some(FirstBatch(p))), Hit(p, 2, 1, 1, Some(FirstBatch(p)));
      && Takes(Solo(sent, Idle, multiset{p}, multiset{p}, FRESH, Sent(p), {}, p), Record(0, p),
               Solo(more, Idle, multiset{p, p}, multiset{p}, FRESH, Sent(p), {}, p), budget)
      && Takes(Solo(more, Idle, multiset{p, p}, multiset{p}, FRESH, Sent(p), {}, p), Start(0),
               Solo(more, Sending(false), multiset{p, p}, multiset{p, p}, FRESH, Sent(p), {}, p), budget)
      && !Clean(more)
  {
    hide LocalCost;
    var sent, more := Hit(p, 1, 1, 1, Some(FirstBatch(p))), Hit(p, 2, 1, 1, Some(FirstBatch(p)));
    var s4 := Solo(sent, Idle, multiset{p}, multiset{p}, FRESH, Sent(p), {}, p);
    var n4 := Next(s4, Record(0, p), budget);
    assert n4.reps[0].local == more && n4.reps[0].recorded == multiset{p, p};
    Same(n4.reps, Replica(more, Idle, multiset{p, p}, multiset{p}));
    assert n4.offered == {p};
    assert !NothingNew(more) by {
      assert more.pending[p].n != more.pending[p].sent;
    }
    var s5 := Solo(more, Idle, multiset{p, p}, multiset{p}, FRESH, Sent(p), {}, p);
    var n5 := Next(s5, Start(0), budget);
    Same(n5.reps, Replica(more, Sending(false), multiset{p, p}, multiset{p, p}));
    assert n5.batches == Sent(p);
  }

  lemma SharedSingle(p: Request)
    ensures SharedBytes({p}) == SharedCost(p)
  {
    assert {p} - {p} == {};
    SharedSplit({p}, {p});
    var keys := {p};
    SetSums.SumRemove(keys, (q: Request) => SharedCost(q), p);
  }

  function Holding(p: Request, n: nat): Store {
    Store(map[p := n], SharedCost(p), false, map[0 := 1])
  }

  // The retry is applied and acknowledged; the later hit is still pending.
  lemma RetryEnds(p: Request, budget: int)
    requires SharedCost(p) <= budget
    ensures var more, left := Hit(p, 2, 1, 1, Some(FirstBatch(p))), Hit(p, 1, 0, 1, None);
      && Takes(Solo(more, Sending(false), multiset{p, p}, multiset{p, p}, FRESH, Sent(p), {}, p), Deliver(0, FirstBatch(p)),
               Solo(more, Sending(false), multiset{p, p}, multiset{p, p}, Holding(p, 1), Sent(p), {(0, 1)}, p), budget)
      && Takes(Solo(more, Sending(false), multiset{p, p}, multiset{p, p}, Holding(p, 1), Sent(p), {(0, 1)}, p), Ack(0),
               Solo(left, Idle, multiset{p, p}, multiset{p, p}, Holding(p, 1), Sent(p), {(0, 1)}, p), budget)
  {
    SharedSingle(p);
    hide LocalCost, SharedCost, SharedBytes;
    var more, left := Hit(p, 2, 1, 1, Some(FirstBatch(p))), Hit(p, 1, 0, 1, None);
    var s6 := Solo(more, Sending(false), multiset{p, p}, multiset{p, p}, FRESH, Sent(p), {}, p);
    var b := FirstBatch(p);
    assert b.hits.Keys - FRESH.counts.Keys == {p};
    assert Merge(FRESH.counts, b.hits) == map[p := 1];
    assert ApplyBatch(FRESH, 0, b, budget).0 == Holding(p, 1);
    assert Next(s6, Deliver(0, b), budget).replies == {(0, 1)};
    var s7 := Solo(more, Sending(false), multiset{p, p}, multiset{p, p}, Holding(p, 1), Sent(p), {(0, 1)}, p);
    assert Settled(more.pending) == {};
    NoLocalBytes();
    assert Acknowledge(more).pending == left.pending;
    Same(Next(s7, Ack(0), budget).reps, Replica(left, Idle, multiset{p, p}, multiset{p, p}));
  }

  // A run in which a flush succeeds and a hit that was recorded before it is not
  // in the store: one flush is not enough when a batch is outstanding.
  lemma OneFlushIsNotEnough(p: Request, budget: int) returns (states: seq<State>, steps: seq<Step>)
    requires LocalCost(p) <= budget && SharedCost(p) <= budget
    ensures SuccessfulFlush(states, steps, budget, 0, 5, 7) && |states| == 9 && !states[8].store.saturated
    ensures states[5].reps[0].recorded[p] == 2 && Count(states[8].store, p) == 1
  {
    hide Next, Enabled, LocalCost, SharedCost;
    var one, sent, more, left := Hit(p, 1, 0, 0, None), Hit(p, 1, 1, 1, Some(FirstBatch(p))),
                                 Hit(p, 2, 1, 1, Some(FirstBatch(p))), Hit(p, 1, 0, 1, None);
    FirstHit(p, budget);
    BatchTimesOut(p, budget);
    RetryStarts(p, budget);
    RetryEnds(p, budget);
    var s1 := Solo(one, Idle, multiset{p}, multiset{}, FRESH, {}, {}, p);
    var s2 := Solo(one, Checked, multiset{p}, multiset{p}, FRESH, {}, {}, p);
    var s3 := Solo(sent, Sending(true), multiset{p}, multiset{p}, FRESH, Sent(p), {}, p);
    var s4 := Solo(sent, Idle, multiset{p}, multiset{p}, FRESH, Sent(p), {}, p);
    var s5 := Solo(more, Idle, multiset{p, p}, multiset{p}, FRESH, Sent(p), {}, p);
    var s6 := Solo(more, Sending(false), multiset{p, p}, multiset{p, p}, FRESH, Sent(p), {}, p);
    var s7 := Solo(more, Sending(false), multiset{p, p}, multiset{p, p}, Holding(p, 1), Sent(p), {(0, 1)}, p);
    var s8 := Solo(left, Idle, multiset{p, p}, multiset{p, p}, Holding(p, 1), Sent(p), {(0, 1)}, p);
    states := [ONE_REPLICA, s1, s2, s3, s4, s5, s6, s7, s8];
    steps := [Record(0, p), Start(0), Build(0), Timeout(0), Record(0, p), Start(0), Deliver(0, FirstBatch(p)), Ack(0)];
  }

  lemma LateDelivery(p: Request, budget: int) returns (s5: State)
    requires SharedCost(p) <= budget
    ensures Takes(Solo(Hit(p, 1, 1, 1, Some(FirstBatch(p))), Idle, multiset{p}, multiset{p}, FRESH, Sent(p), {}, p),
                  Deliver(0, FirstBatch(p)), s5, budget)
    ensures s5 == Solo(Hit(p, 1, 1, 1, Some(FirstBatch(p))), Idle, multiset{p}, multiset{p}, Holding(p, 1), Sent(p), {(0, 1)}, p)
  {
    SharedSingle(p);
    var s4, b := Solo(Hit(p, 1, 1, 1, Some(FirstBatch(p))), Idle, multiset{p}, multiset{p}, FRESH, Sent(p), {}, p), FirstBatch(p);
    hide LocalCost, SharedCost, SharedBytes;
    assert b.hits.Keys - FRESH.counts.Keys == {p};
    assert Merge(FRESH.counts, b.hits) == map[p := 1];
    assert ApplyBatch(FRESH, 0, b, budget).0 == Holding(p, 1);
    s5 := Next(s4, Deliver(0, b), budget);
  }

  // The delayed batch arrives, a second request overflows the replica, and its
  // flush saturates the store.
  lemma LateThenSaturated(p: Request, q: Request, budget: int) returns (s5: State, s6: State, s7: State, s8: State)
    requires p != q && SharedCost(p) <= budget < LocalCost(p) + LocalCost(q)
    ensures Takes(Solo(Hit(p, 1, 1, 1, Some(FirstBatch(p))), Idle, multiset{p}, multiset{p}, FRESH, Sent(p), {}, p),
                  Deliver(0, FirstBatch(p)), s5, budget)
    ensures Takes(s5, Record(0, q), s6, budget) && Takes(s6, Start(0), s7, budget) && Takes(s7, DeliverSaturate(0), s8, budget)
    ensures s5.store == Holding(p, 1) && s8.store.saturated && s8.store.counts == map[]
  {
    s5 := LateDelivery(p, budget);
    hide LocalCost, SharedCost, SharedBytes, ApplyBatch;
    s6 := Next(s5, Record(0, q), budget);
    assert s6.reps[0].local.overflow;
    s7 := Next(s6, Start(0), budget);
    s8 := Next(s7, DeliverSaturate(0), budget);
  }

  // A run in which a hit is in the store at the first read of Top, and the
  // answer is empty with no error.
  lemma EmptyAnswerAfterHits(p: Request, q: Request, budget: int) returns (states: seq<State>, steps: seq<Step>)
    requires p != q && LocalCost(p) <= budget && SharedCost(p) <= budget < LocalCost(p) + LocalCost(q)
    ensures IsRun(states, steps, budget) && |states| == 9
    ensures Count(states[5].store, p) == 1 && Answers(states[5].store, states[8].store, Nothing)
  {
    hide Next, Enabled, LocalCost, SharedCost;
    FirstHit(p, budget);
    BatchTimesOut(p, budget);
    var one, sent := Hit(p, 1, 0, 0, None), Hit(p, 1, 1, 1, Some(FirstBatch(p)));
    var s1 := Solo(one, Idle, multiset{p}, multiset{}, FRESH, {}, {}, p);
    var s2 := Solo(one, Checked, multiset{p}, multiset{p}, FRESH, {}, {}, p);
    var s3 := Solo(sent, Sending(true), multiset{p}, multiset{p}, FRESH, Sent(p), {}, p);
    var s4 := Solo(sent, Idle, multiset{p}, multiset{p}, FRESH, Sent(p), {}, p);
    var s5, s6, s7, s8 := LateThenSaturated(p, q, budget);
    states := [ONE_REPLICA, s1, s2, s3, s4, s5, s6, s7, s8];
    steps := [Record(0, p), Start(0), Build(0), Timeout(0), Deliver(0, FirstBatch(p)), Record(0, q), Start(0), DeliverSaturate(0)];
  }
}
