// All replicas, the shared store and the network between them. Every step is
// one critical section of a replica, one atomic script, or one timeout.
// Messages are never removed, so a batch can arrive late and many times.
module Protocol {
  import opened Options
  import opened Replicas

  // Where the flush of a replica is. A flush is covered when the batch that it
  // waits for holds every hit recorded before the flush began.
  datatype Phase = Idle | Checked | Saturating | Sending(covered: bool)

  // recorded is every hit that Record counted; mark is its value when the last
  // flush began.
  datatype Replica = Replica(local: Local, phase: Phase, recorded: multiset<Request>, mark: multiset<Request>)

  datatype State = State(
    reps: seq<Replica>, store: Store,
    batches: set<(nat, Batch)>, saturations: set<nat>, // script calls sent
    replies: set<(nat, nat)>, saturated: set<nat>, // replies sent
    offered: set<Request>) // every request that Record got

  const NEW_REPLICA := Replica(EMPTY, Idle, multiset{}, multiset{})

  ghost predicate Init(s: State) {
    && (forall r :: 0 <= r < |s.reps| ==> s.reps[r] == NEW_REPLICA)
    && s.store == FRESH && s.batches == {} && s.saturations == {} && s.replies == {} && s.saturated == {} && s.offered == {}
  }

  datatype Step =
    | Record(r: nat, p: Request)
    | Start(r: nat)
    | Build(r: nat)
    | Deliver(r: nat, b: Batch)
    | DeliverSaturate(r: nat)
    | Ack(r: nat)
    | Reset(r: nat)
    | Timeout(r: nat)

  ghost predicate Enabled(s: State, step: Step) {
    step.r < |s.reps| &&
    var rep := s.reps[step.r];
    match step
    case Record(_, _) => true
    case Start(_) => rep.phase.Idle?
    case Build(_) => rep.phase.Checked?
    case Deliver(r, b) => (r, b) in s.batches
    case DeliverSaturate(r) => r in s.saturations
    case Ack(r) => rep.phase.Sending? && (r, rep.local.seqNo) in s.replies
    case Reset(r) => rep.phase.Saturating? && r in s.saturated
    case Timeout(_) => rep.phase.Sending? || rep.phase.Saturating?
  }

  // ---- the steps of one replica ----

  function Recorded(rep: Replica, p: Request, budget: int): Replica {
    rep.(local := RecordHit(rep.local, p, budget),
         recorded := if Counts(rep.local, p, budget) then rep.recorded + multiset{p} else rep.recorded)
  }

  // Nothing was recorded since the outstanding batch was built.
  predicate NothingNew(l: Local) {
    forall p :: p in l.pending ==> l.pending[p].n == l.pending[p].sent
  }

  function Started(rep: Replica): Replica {
    rep.(mark := rep.recorded,
         phase := if rep.local.overflow then Saturating
                  else if rep.local.batch.Some? then Sending(NothingNew(rep.local))
                  else Checked)
  }

  function Built(rep: Replica): Replica {
    var local := NextBatch(rep.local);
    if local.batch.None? then rep.(phase := Idle)
    else rep.(local := local, phase := Sending(true))
  }

  ghost function Acked(rep: Replica): Replica {
    rep.(local := Acknowledge(rep.local), phase := Idle)
  }

  function Cleared(rep: Replica): Replica {
    rep.(local := ResetLocal(rep.local), phase := Idle)
  }

  function TimedOut(rep: Replica): Replica {
    rep.(phase := Idle)
  }

  ghost function Next(s: State, step: Step, budget: int): State
    requires Enabled(s, step)
  {
    var r := step.r;
    var rep := s.reps[r];
    match step
    case Record(_, p) => s.(reps := s.reps[r := Recorded(rep, p, budget)], offered := s.offered + {p})
    case Start(_) =>
      var rep' := Started(rep);
      s.(reps := s.reps[r := rep'],
         batches := if rep'.phase.Sending? then s.batches + {(r, rep.local.batch.value)} else s.batches,
         saturations := if rep'.phase.Saturating? then s.saturations + {r} else s.saturations)
    case Build(_) =>
      var rep' := Built(rep);
      s.(reps := s.reps[r := rep'],
         batches := if rep'.phase.Sending? then s.batches + {(r, rep'.local.batch.value)} else s.batches)
    case Deliver(_, b) => s.(store := ApplyBatch(s.store, r, b, budget).0, replies := s.replies + {(r, b.id)})
    case DeliverSaturate(_) => s.(store := Saturate(s.store), saturated := s.saturated + {r})
    case Ack(_) => s.(reps := s.reps[r := Acked(rep)])
    case Reset(_) => s.(reps := s.reps[r := Cleared(rep)])
    case Timeout(_) => s.(reps := s.reps[r := TimedOut(rep)])
  }

  // ---- what a replica has in the store ----

  predicate Applied(rep: Replica, last: nat) {
    rep.local.batch.Some? && last >= rep.local.batch.value.id
  }

  // Recorded hits that are acknowledged, or in a batch that Redis has applied.
  function Share(rep: Replica, last: nat, p: Request): int {
    rep.recorded[p] - Unacked(rep.local, p) + (if Applied(rep, last) then InFlight(rep.local, p) else 0)
  }

  // What the replica will have in the store once its batch is applied.
  function ShareOnceApplied(rep: Replica, p: Request): int {
    rep.recorded[p] - Unacked(rep.local, p) + InFlight(rep.local, p)
  }

  ghost predicate Covers(rep: Replica) {
    forall p :: rep.mark[p] <= ShareOnceApplied(rep, p)
  }

  ghost predicate PhaseInv(rep: Replica) {
    && (rep.phase.Sending? ==> rep.local.batch.Some? && (rep.phase.covered <==> Covers(rep)))
    && (rep.phase.Checked? ==> rep.local.batch.None?)
    && (forall p :: rep.mark[p] <= rep.recorded[p])
  }

  ghost predicate RepInv(rep: Replica, last: nat, saturated: bool, offered: set<Request>, budget: int) {
    && LocalInv(rep.local, budget) && PhaseInv(rep)
    && (forall p :: Unacked(rep.local, p) <= rep.recorded[p])
    && (forall p :: rep.recorded[p] > 0 ==> p in offered)
    && last <= rep.local.seqNo
    && (rep.local.overflow ==> Exceeds(offered, budget))
    && (!saturated ==>
      && (rep.local.batch.None? ==> last == rep.local.seqNo)
      && (rep.local.batch.Some? ==> last + 1 >= rep.local.seqNo))
  }

  // A step keeps the invariant of its replica and, below saturation, its share.
  ghost predicate Keeps(rep: Replica, rep': Replica, last: nat, saturated: bool, offered: set<Request>, budget: int) {
    && RepInv(rep', last, saturated, offered, budget)
    && (!saturated ==> forall p :: Share(rep', last, p) == Share(rep, last, p))
    && rep'.local.seqNo >= rep.local.seqNo
  }

  lemma OfferedGrows(rep: Replica, last: nat, saturated: bool, offered: set<Request>, more: set<Request>, budget: int)
    requires RepInv(rep, last, saturated, offered, budget) && offered <= more
    ensures RepInv(rep, last, saturated, more, budget)
  {
    if rep.local.overflow {
      ExceedsGrows(offered, more, budget);
    }
  }

  lemma RecordShare(rep: Replica, p: Request, budget: int)
    ensures var rep' := Recorded(rep, p, budget);
      && (forall q :: rep'.recorded[q] - Unacked(rep'.local, q) == rep.recorded[q] - Unacked(rep.local, q))
      && (forall q :: InFlight(rep'.local, q) == InFlight(rep.local, q))
      && (forall q :: rep'.recorded[q] >= rep.recorded[q])
  {
    RecordCounts(rep.local, p, budget);
    hide RecordHit, Counts;
  }

  lemma RecordPhase(rep: Replica, p: Request, last: nat, budget: int)
    requires PhaseInv(rep)
    ensures PhaseInv(Recorded(rep, p, budget))
    ensures forall q :: Share(Recorded(rep, p, budget), last, q) == Share(rep, last, q)
  {
    var rep' := Recorded(rep, p, budget);
    RecordShare(rep, p, budget);
    RecordCounts(rep.local, p, budget);
    hide RecordHit, Counts, Unacked, InFlight;
    assert forall q :: ShareOnceApplied(rep', q) == ShareOnceApplied(rep, q);
    assert Covers(rep') <==> Covers(rep);
  }

  lemma RecordStep(rep: Replica, p: Request, last: nat, saturated: bool, offered: set<Request>, budget: int)
    requires RepInv(rep, last, saturated, offered, budget) && p in offered
    ensures Keeps(rep, Recorded(rep, p, budget), last, saturated, offered, budget)
  {
    var rep' := Recorded(rep, p, budget);
    RecordShare(rep, p, budget);
    RecordPhase(rep, p, last, budget);
    RecordKeepsLocal(rep.local, p, budget);
    RecordCounts(rep.local, p, budget);
    PendingOffered(rep, offered);
    if rep'.local.overflow && !rep.local.overflow {
      LocalBelowShared(rep.local.pending.Keys + {p});
      ExceedsGrows(rep.local.pending.Keys + {p}, offered, budget);
    }
    hide LocalInv, RecordHit, Counts, Unacked, InFlight, Exceeds, Share, PhaseInv;
  }

  lemma PendingOffered(rep: Replica, offered: set<Request>)
    requires forall p :: p in rep.local.pending ==> rep.local.pending[p].n >= 1
    requires forall p :: Unacked(rep.local, p) <= rep.recorded[p]
    requires forall p :: rep.recorded[p] > 0 ==> p in offered
    ensures rep.local.pending.Keys <= offered
  {
    forall p | p in rep.local.pending ensures p in offered {
      assert Unacked(rep.local, p) <= rep.recorded[p];
    }
  }

  // At the start, a retained batch covers what was recorded exactly when
  // nothing was recorded after it was built.
  lemma StartCovers(rep: Replica)
    requires forall p :: p in rep.local.pending ==> rep.local.pending[p].sent <= rep.local.pending[p].n
    ensures NothingNew(rep.local) <==> Covers(Started(rep))
  {
    var rep' := Started(rep);
    if Covers(rep') {
      forall p | p in rep.local.pending ensures rep.local.pending[p].n == rep.local.pending[p].sent {
        assert rep'.mark[p] <= ShareOnceApplied(rep', p);
      }
    }
  }

  lemma StartStep(rep: Replica, last: nat, saturated: bool, offered: set<Request>, budget: int)
    requires RepInv(rep, last, saturated, offered, budget)
    ensures Keeps(rep, Started(rep), last, saturated, offered, budget)
  {
    StartCovers(rep);
    hide LocalInv, NothingNew, Covers, Exceeds;
    assert forall p :: Share(Started(rep), last, p) == Share(rep, last, p);
  }

  lemma BuildEmptyStep(rep: Replica, last: nat, saturated: bool, offered: set<Request>, budget: int)
    requires RepInv(rep, last, saturated, offered, budget) && rep.phase.Checked? && rep.local.pending == map[]
    ensures Keeps(rep, Built(rep), last, saturated, offered, budget)
  {
    assert forall p :: Unacked(rep.local, p) == 0;
    hide LocalInv, Exceeds;
    assert forall p :: Share(Built(rep), last, p) == Share(rep, last, p);
  }

  lemma BuildPhase(rep: Replica, last: nat, budget: int)
    requires PhaseInv(rep) && LocalInv(rep.local, budget) && rep.phase.Checked? && rep.local.pending != map[]
    ensures PhaseInv(Built(rep)) && Built(rep).local == NextBatch(rep.local) && Built(rep).recorded == rep.recorded
    ensures last <= rep.local.seqNo ==> forall p :: Share(Built(rep), last, p) == Share(rep, last, p)
  {
    BuildKeepsLocal(rep.local, budget);
    var rep' := Built(rep);
    assert rep'.local == NextBatch(rep.local) && rep'.local.batch.value.id == rep.local.seqNo + 1;
    hide LocalInv, NextBatch, Unacked, InFlight;
    assert forall p :: ShareOnceApplied(rep', p) == rep.recorded[p];
  }

  lemma BuildStep(rep: Replica, last: nat, saturated: bool, offered: set<Request>, budget: int)
    requires RepInv(rep, last, saturated, offered, budget) && rep.phase.Checked?
    ensures Keeps(rep, Built(rep), last, saturated, offered, budget)
  {
    if rep.local.pending == map[] {
      BuildEmptyStep(rep, last, saturated, offered, budget);
    } else {
      BuildKeepsLocal(rep.local, budget);
      BuildPhase(rep, last, budget);
      hide LocalInv, NextBatch, Exceeds, Unacked, InFlight, Share, PhaseInv, Built;
    }
  }

  lemma AckShare(rep: Replica, last: nat, budget: int)
    requires LocalInv(rep.local, budget)
    ensures forall p :: Share(Acked(rep), last, p) == ShareOnceApplied(rep, p)
    ensures rep.local.batch.Some? && last >= rep.local.seqNo ==> forall p :: Share(rep, last, p) == ShareOnceApplied(rep, p)
  {
    AckKeepsLocal(rep.local, budget);
    assert rep.local.batch.Some? ==> rep.local.batch.value.id == rep.local.seqNo;
    hide LocalInv, Acknowledge, Unacked, InFlight;
  }

  lemma AckStep(rep: Replica, last: nat, saturated: bool, offered: set<Request>, budget: int)
    requires RepInv(rep, last, saturated, offered, budget) && rep.phase.Sending?
    requires saturated || last >= rep.local.seqNo
    ensures Keeps(rep, Acked(rep), last, saturated, offered, budget)
    ensures forall p :: Share(Acked(rep), last, p) == ShareOnceApplied(rep, p)
  {
    AckKeepsLocal(rep.local, budget);
    AckShare(rep, last, budget);
    hide LocalInv, Acknowledge, Exceeds, Unacked, InFlight, Share;
  }

  lemma ClearStep(rep: Replica, last: nat, offered: set<Request>, budget: int)
    requires RepInv(rep, last, true, offered, budget)
    ensures Keeps(rep, Cleared(rep), last, true, offered, budget)
  {
    ResetKeepsLocal(rep.local, budget);
  }

  lemma TimeoutStep(rep: Replica, last: nat, saturated: bool, offered: set<Request>, budget: int)
    requires RepInv(rep, last, saturated, offered, budget)
    ensures Keeps(rep, TimedOut(rep), last, saturated, offered, budget)
  {
    hide LocalInv, Exceeds;
    assert forall p :: Share(TimedOut(rep), last, p) == Share(rep, last, p);
  }

  // Delivery of the outstanding batch moves exactly its hits into the share.
  lemma DeliverStep(rep: Replica, last: nat, offered: set<Request>, budget: int)
    requires RepInv(rep, last, false, offered, budget) && rep.local.batch.Some? && last < rep.local.batch.value.id
    ensures var b := rep.local.batch.value;
      && RepInv(rep, b.id, false, offered, budget)
      && forall p :: Share(rep, b.id, p) == Share(rep, last, p) + (if p in b.hits then b.hits[p] else 0)
  {
    var b := rep.local.batch.value;
    forall p
      ensures Share(rep, b.id, p) == Share(rep, last, p) + (if p in b.hits then b.hits[p] else 0)
    {
      assert Carries(rep.local, b, p);
    }
    hide LocalInv, Exceeds, Unacked, InFlight;
  }

  lemma BatchOffered(rep: Replica, last: nat, saturated: bool, offered: set<Request>, budget: int)
    requires RepInv(rep, last, saturated, offered, budget) && rep.local.batch.Some?
    ensures rep.local.batch.value.hits.Keys <= offered
    ensures forall p :: p in rep.local.batch.value.hits ==> rep.local.batch.value.hits[p] >= 1
  {
    PendingOffered(rep, offered);
    forall p | p in rep.local.batch.value.hits
      ensures p in offered && rep.local.batch.value.hits[p] >= 1
    {
      assert Carries(rep.local, rep.local.batch.value, p);
    }
  }

  // ---- the whole system ----

  // The first k replicas together.
  function Total(reps: seq<Replica>, st: Store, k: nat, p: Request): int
    requires k <= |reps|
  {
    if k == 0 then 0 else Total(reps, st, k - 1, p) + Share(reps[k - 1], LastSeq(st, k - 1), p)
  }

  // No hit is counted twice and none is dropped.
  ghost predicate Conserved(s: State) {
    forall p :: Count(s.store, p) == Total(s.reps, s.store, |s.reps|, p)
  }

  // A message that Redis has not applied is the outstanding batch of its replica.
  ghost predicate MessageOk(rep: Replica, last: nat, saturated: bool, b: Batch) {
    b.id <= rep.local.seqNo && (!saturated && last < b.id ==> rep.local.batch == Some(b))
  }

  ghost predicate MessagesInv(s: State) {
    && (forall r, b :: (r, b) in s.batches ==>
          r < |s.reps| && MessageOk(s.reps[r], LastSeq(s.store, r), s.store.saturated, b))
    && (forall r, id :: (r, id) in s.replies ==> s.store.saturated || LastSeq(s.store, r) >= id)
    && (s.saturated != {} ==> s.store.saturated)
  }

  ghost predicate Inv(s: State, budget: int) {
    && StoreInv(s.store, s.offered, budget)
    && (s.store.saturated || s.saturations != {} ==> Exceeds(s.offered, budget))
    && (forall r :: 0 <= r < |s.reps| ==>
          RepInv(s.reps[r], LastSeq(s.store, r), s.store.saturated, s.offered, budget))
    && MessagesInv(s)
    && (!s.store.saturated ==> Conserved(s))
  }

  lemma {:induction false} TotalOfNew(reps: seq<Replica>, k: nat, p: Request)
    requires k <= |reps| && forall r :: 0 <= r < |reps| ==> reps[r] == NEW_REPLICA
    ensures Total(reps, FRESH, k, p) == 0
  {
    if k > 0 {
      TotalOfNew(reps, k - 1, p);
    }
  }

  lemma InitInv(s: State, budget: int)
    requires Init(s)
    ensures Inv(s, budget)
  {
    assert SharedBytes({}) == 0 && LocalBytes({}) == 0;
    assert LocalInv(EMPTY, budget);
    forall p ensures Count(s.store, p) == Total(s.reps, s.store, |s.reps|, p) {
      TotalOfNew(s.reps, |s.reps|, p);
    }
  }

  lemma {:induction false} TotalKept(reps: seq<Replica>, st: Store, r: nat, rep': Replica, k: nat, p: Request)
    requires r < |reps| && k <= |reps| && Share(rep', LastSeq(st, r), p) == Share(reps[r], LastSeq(st, r), p)
    ensures Total(reps[r := rep'], st, k, p) == Total(reps, st, k, p)
  {
    if k > 0 {
      TotalKept(reps, st, r, rep', k - 1, p);
    }
  }

  lemma {:induction false} TotalMoves(reps: seq<Replica>, st: Store, st': Store, r: nat, k: nat, p: Request, hits: nat)
    requires r < |reps| && k <= |reps| && forall q: nat :: q != r ==> LastSeq(st', q) == LastSeq(st, q)
    requires Share(reps[r], LastSeq(st', r), p) == Share(reps[r], LastSeq(st, r), p) + hits
    ensures Total(reps, st', k, p) == Total(reps, st, k, p) + (if r < k then hits else 0)
  {
    if k > 0 {
      TotalMoves(reps, st, st', r, k - 1, p, hits);
    }
  }

  // A step of one replica that keeps its own invariant keeps the system's.
  lemma ReplicaChange(s: State, s': State, r: nat, budget: int)
    requires Inv(s, budget) && r < |s.reps| && s'.store == s.store && s'.replies == s.replies && s'.saturated == s.saturated
    requires s.offered <= s'.offered && |s'.reps| == |s.reps| && s'.reps == s.reps[r := s'.reps[r]]
    requires Keeps(s.reps[r], s'.reps[r], LastSeq(s.store, r), s.store.saturated, s'.offered, budget)
    requires forall q, b :: (q, b) in s'.batches ==>
      q < |s'.reps| && MessageOk(s'.reps[q], LastSeq(s.store, q), s.store.saturated, b)
    requires s'.saturations != {} ==> Exceeds(s'.offered, budget)
    ensures Inv(s', budget)
  {
    if Exceeds(s.offered, budget) {
      ExceedsGrows(s.offered, s'.offered, budget);
    }
    forall q | 0 <= q < |s'.reps|
      ensures RepInv(s'.reps[q], LastSeq(s'.store, q), s'.store.saturated, s'.offered, budget)
    {
      if q != r {
        OfferedGrows(s.reps[q], LastSeq(s.store, q), s.store.saturated, s.offered, s'.offered, budget);
      }
    }
    hide RepInv, Exceeds, SharedBytes, MessageOk;
    if !s.store.saturated {
      forall p ensures Count(s'.store, p) == Total(s'.reps, s'.store, |s'.reps|, p) {
        TotalKept(s.reps, s.store, r, s'.reps[r], |s.reps|, p);
      }
    }
  }

  lemma MessagesAfterLocal(s: State, r: nat, rep': Replica)
    requires MessagesInv(s) && r < |s.reps| && rep'.local.seqNo >= s.reps[r].local.seqNo
    requires s.store.saturated || rep'.local.batch == s.reps[r].local.batch || LastSeq(s.store, r) >= s.reps[r].local.seqNo
    ensures forall q, b :: (q, b) in s.batches ==>
      q < |s.reps| && MessageOk(s.reps[r := rep'][q], LastSeq(s.store, q), s.store.saturated, b)
  {
  }

  // A step inside one replica, for that replica.
  lemma LocalStepKeeps(s: State, step: Step, budget: int)
    requires Inv(s, budget) && Enabled(s, step) && !step.Deliver? && !step.DeliverSaturate?
    ensures var r, s' := step.r, Next(s, step, budget);
      && Keeps(s.reps[r], s'.reps[r], LastSeq(s.store, r), s.store.saturated, s'.offered, budget)
      && (s.store.saturated || s'.reps[r].local.batch == s.reps[r].local.batch ||
            LastSeq(s.store, r) >= s.reps[r].local.seqNo)
  {
    var r, s' := step.r, Next(s, step, budget);
    var rep, last := s.reps[r], LastSeq(s.store, r);
    match step {
      case Record(_, p) =>
        OfferedGrows(rep, last, s.store.saturated, s.offered, s'.offered, budget);
        RecordStep(rep, p, last, s.store.saturated, s'.offered, budget);
        RecordCounts(rep.local, p, budget);
      case Start(_) => StartStep(rep, last, s.store.saturated, s.offered, budget);
      case Build(_) => BuildStep(rep, last, s.store.saturated, s.offered, budget);
      case Ack(_) => AckStep(rep, last, s.store.saturated, s.offered, budget);
      case Reset(_) => ClearStep(rep, last, s.offered, budget);
      case Timeout(_) => TimeoutStep(rep, last, s.store.saturated, s.offered, budget);
    }
    hide Keeps, StoreInv, Conserved, LocalInv, RecordHit, Counts, NextBatch, Acknowledge, NothingNew, Exceeds;
  }

  // A call to saturate is sent only for a replica that overflowed.
  lemma SaturationsJustified(s: State, step: Step, budget: int)
    requires Inv(s, budget) && Enabled(s, step)
    ensures Next(s, step, budget).saturations != {} ==> Exceeds(Next(s, step, budget).offered, budget)
  {
    if step.Record? && s.saturations != {} {
      ExceedsGrows(s.offered, s.offered + {step.p}, budget);
    }
    hide StoreInv, Conserved, LocalInv, RecordHit, Counts, NextBatch, Acknowledge, NothingNew, Exceeds, ApplyBatch, MessagesInv;
  }

  // What a local step leaves alone, and the calls it may send.
  lemma LocalFrame(s: State, step: Step, budget: int)
    requires Enabled(s, step) && !step.Deliver? && !step.DeliverSaturate?
    ensures var r, s' := step.r, Next(s, step, budget);
      && s'.store == s.store && s'.replies == s.replies && s'.saturated == s.saturated && s.offered <= s'.offered
      && |s'.reps| == |s.reps| && s'.reps == s.reps[r := s'.reps[r]]
      && forall q, b :: (q, b) in s'.batches ==> (q, b) in s.batches || (q == r && s'.reps[r].local.batch == Some(b))
  {
    hide RecordHit, Counts, Acknowledge, NothingNew, ResetLocal;
  }

  lemma LocalStepInv(s: State, step: Step, budget: int)
    requires Inv(s, budget) && Enabled(s, step) && !step.Deliver? && !step.DeliverSaturate?
    ensures Inv(Next(s, step, budget), budget)
  {
    var r, s' := step.r, Next(s, step, budget);
    LocalStepKeeps(s, step, budget);
    SaturationsJustified(s, step, budget);
    LocalFrame(s, step, budget);
    hide Next, Enabled, Conserved, LastSeq, StoreInv, Exceeds, Share;
    MessagesAfterLocal(s, r, s'.reps[r]);
    ReplicaChange(s, s', r, budget);
  }

  // Saturation only removes obligations.
  lemma SaturatedInv(s: State, s': State, budget: int)
    requires Inv(s, budget) && s'.store.saturated && s'.store.seqs == s.store.seqs && StoreInv(s'.store, s.offered, budget)
    requires s'.reps == s.reps && s'.batches == s.batches && s'.saturations == s.saturations && s'.offered == s.offered
    requires Exceeds(s.offered, budget)
    ensures Inv(s', budget)
  {
    hide Exceeds, SharedBytes, LocalInv, PhaseInv, Share;
  }

  // A message that Redis has seen changes nothing.
  lemma RepeatedDelivery(s: State, r: nat, b: Batch, budget: int)
    requires Inv(s, budget) && Enabled(s, Deliver(r, b)) && (s.store.saturated || LastSeq(s.store, r) >= b.id)
    ensures var s' := Next(s, Deliver(r, b), budget); s'.store == s.store && Inv(s', budget)
  {
    hide RepInv, StoreInv, Exceeds, MessageOk;
  }

  // The first delivery of the outstanding batch.
  lemma FirstDelivery(s: State, r: nat, b: Batch, budget: int)
    requires Inv(s, budget) && Enabled(s, Deliver(r, b)) && !s.store.saturated && LastSeq(s.store, r) < b.id
    ensures Inv(Next(s, Deliver(r, b), budget), budget)
  {
    var s', rep, last := Next(s, Deliver(r, b), budget), s.reps[r], LastSeq(s.store, r);
    assert MessageOk(rep, last, false, b);
    BatchOffered(rep, last, false, s.offered, budget);
    ApplyKeepsStore(s.store, r, b, s.offered, budget);
    if s'.store.saturated {
      SaturatedInv(s, s', budget);
    } else {
      DeliverStep(rep, last, s.offered, budget);
      DeliveredInv(s, s', r, b, budget);
    }
  }

  lemma DeliveredInv(s: State, s': State, r: nat, b: Batch, budget: int)
    requires Inv(s, budget) && r < |s.reps| && !s.store.saturated && !s'.store.saturated && LastSeq(s.store, r) < b.id
    requires s' == s.(store := s'.store, replies := s.replies + {(r, b.id)}) && s'.store.seqs == s.store.seqs[r := b.id]
    requires StoreInv(s'.store, s.offered, budget) && s.reps[r].local.batch == Some(b)
    requires forall p :: Count(s'.store, p) == Count(s.store, p) + (if p in b.hits then b.hits[p] else 0)
    requires RepInv(s.reps[r], b.id, false, s.offered, budget)
    requires forall p :: Share(s.reps[r], b.id, p) == Share(s.reps[r], LastSeq(s.store, r), p) + (if p in b.hits then b.hits[p] else 0)
    ensures Inv(s', budget)
  {
    hide RepInv, StoreInv, Exceeds, Share, Count;
    forall p ensures Count(s'.store, p) == Total(s'.reps, s'.store, |s'.reps|, p) {
      TotalMoves(s.reps, s.store, s'.store, r, |s.reps|, p, if p in b.hits then b.hits[p] else 0);
    }
  }

  lemma SaturateInv(s: State, r: nat, budget: int)
    requires Inv(s, budget) && Enabled(s, DeliverSaturate(r))
    ensures Inv(Next(s, DeliverSaturate(r), budget), budget)
  {
    SaturatedInv(s, Next(s, DeliverSaturate(r), budget), budget);
  }

  lemma StepInv(s: State, step: Step, budget: int)
    requires Inv(s, budget) && Enabled(s, step)
    ensures Inv(Next(s, step, budget), budget)
  {
    hide Inv, Next;
    match step {
      case Deliver(r, b) =>
        if s.store.saturated || LastSeq(s.store, r) >= b.id {
          RepeatedDelivery(s, r, b, budget);
        } else {
          FirstDelivery(s, r, b, budget);
        }
      case DeliverSaturate(r) => SaturateInv(s, r, budget);
      case _ => LocalStepInv(s, step, budget);
    }
  }
}
