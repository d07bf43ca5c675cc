// The critical sections of one replica of the Redis store, and the scripts that
// Redis runs atomically, as functions on values.
module Replicas {
  import opened Rule
  import opened Options
  import opened SetSums
  import opened Member

  type Request = p: Params | Storable(p) witness Params(1, 1, 1, [], [])

  ghost function LocalBytes(keys: set<Request>): nat {
    Sum(keys, (p: Request) => LocalCost(p))
  }

  ghost function SharedBytes(keys: set<Request>): nat {
    Sum(keys, (p: Request) => SharedCost(p))
  }

  // What a key costs: 128 bytes, and the length of its strings or of its member.
  lemma LocalBytesAre(keys: set<Request>)
    ensures LocalBytes(keys) == 128 * |keys| + Sum(keys, (p: Request) => |p.str1| + |p.str2|)
  {
    SumOffset(keys, (p: Request) => LocalCost(p), (p: Request) => |p.str1| + |p.str2|, 128);
  }

  lemma SharedBytesAre(keys: set<Request>)
    ensures SharedBytes(keys) == 128 * |keys| + Sum(keys, (p: Request) => |Member.Member(p)|)
  {
    SumOffset(keys, (p: Request) => SharedCost(p), (p: Request) => |Member.Member(p)|, 128);
  }

  lemma NoLocalBytes()
    ensures LocalBytes({}) == 0
  {
  }

  lemma LocalInsert(keys: set<Request>, p: Request)
    requires p !in keys
    ensures LocalBytes(keys + {p}) == LocalBytes(keys) + LocalCost(p)
  {
    SumInsert(keys, (q: Request) => LocalCost(q), p);
  }

  lemma SharedSplit(keys: set<Request>, part: set<Request>)
    requires part <= keys
    ensures SharedBytes(keys) == SharedBytes(keys - part) + SharedBytes(part)
  {
    SumSplit(keys, part, (p: Request) => SharedCost(p));
  }

  // A key costs less in a replica than in Redis.
  lemma {:induction false} LocalBelowShared(keys: set<Request>)
    ensures LocalBytes(keys) <= SharedBytes(keys)
  {
    if keys != {} {
      var p :| p in keys;
      SumRemove(keys, (q: Request) => LocalCost(q), p);
      SumRemove(keys, (q: Request) => SharedCost(q), p);
      LocalCostBelowShared(p);
      LocalBelowShared(keys - {p});
    }
  }

  // ---- one replica ----

  // n counts the unacknowledged hits, and sent those of them that a batch holds.
  datatype Pending = Pending(n: nat, sent: nat)

  datatype Batch = Batch(id: nat, hits: map<Request, nat>)

  datatype Local = Local(pending: map<Request, Pending>, used: int, overflow: bool, seqNo: nat, batch: Option<Batch>)

  const EMPTY := Local(map[], 0, false, 0, None)

  function Unacked(l: Local, p: Request): nat {
    if p in l.pending then l.pending[p].n else 0
  }

  function InFlight(l: Local, p: Request): nat {
    if p in l.pending then l.pending[p].sent else 0
  }

  predicate Counts(l: Local, p: Request, budget: int) {
    !l.overflow && (p in l.pending || l.used + LocalCost(p) <= budget)
  }

  // redisStore.Record
  function RecordHit(l: Local, p: Request, budget: int): Local {
    if l.overflow then l
    else if p in l.pending then
      l.(pending := l.pending[p := l.pending[p].(n := l.pending[p].n + 1)])
    else if l.used + LocalCost(p) > budget then l.(overflow := true)
    else l.(pending := l.pending[p := Pending(1, 0)], used := l.used + LocalCost(p))
  }

  // All pending hits, as sent.
  function MarkAll(m: map<Request, Pending>): map<Request, Pending> {
    map p | p in m :: Pending(m[p].n, m[p].n)
  }

  function HitsOf(m: map<Request, Pending>): map<Request, nat> {
    map p | p in m :: m[p].n
  }

  // redisStore.nextBatch
  function NextBatch(l: Local): Local {
    if l.pending == map[] then l
    else l.(pending := MarkAll(l.pending), seqNo := l.seqNo + 1, batch := Some(Batch(l.seqNo + 1, HitsOf(l.pending))))
  }

  ghost function Settled(m: map<Request, Pending>): set<Request> {
    set p | p in m && m[p].n <= m[p].sent
  }

  // The hits that were not sent.
  function Unsent(m: map<Request, Pending>): map<Request, Pending> {
    map p | p in m && m[p].n > m[p].sent :: Pending(m[p].n - m[p].sent, 0)
  }

  // The end of redisStore.Flush, after a reply.
  ghost function Acknowledge(l: Local): Local {
    l.(pending := Unsent(l.pending), used := l.used - LocalBytes(Settled(l.pending)), batch := None)
  }

  // The saturating branch of redisStore.Flush.
  function ResetLocal(l: Local): Local {
    Local(map[], 0, false, l.seqNo, None)
  }

  // The batch holds exactly what the pending keys call sent.
  ghost predicate BatchMatches(l: Local) {
    match l.batch
    case None => forall p :: InFlight(l, p) == 0
    case Some(b) => b.id == l.seqNo && b.id >= 1 && (forall p :: Carries(l, b, p))
  }

  predicate Carries(l: Local, b: Batch, p: Request) {
    if p in b.hits then p in l.pending && b.hits[p] == l.pending[p].sent >= 1 else InFlight(l, p) == 0
  }

  ghost predicate LocalInv(l: Local, budget: int) {
    && (forall p :: p in l.pending ==> l.pending[p].n >= 1 && l.pending[p].sent <= l.pending[p].n)
    && l.used == LocalBytes(l.pending.Keys) && (l.pending != map[] ==> l.used <= budget)
    && BatchMatches(l)
  }

  lemma RecordCounts(l: Local, p: Request, budget: int)
    ensures var l' := RecordHit(l, p, budget);
      && (forall q :: Unacked(l', q) == Unacked(l, q) + (if q == p && Counts(l, p, budget) then 1 else 0))
      && (forall q :: InFlight(l', q) == InFlight(l, q))
      && l'.batch == l.batch && l'.seqNo == l.seqNo
  {
  }

  lemma RecordKeepsBatch(l: Local, p: Request, budget: int)
    requires BatchMatches(l)
    ensures BatchMatches(RecordHit(l, p, budget))
  {
    RecordCounts(l, p, budget);
    if l.batch.Some? {
      forall q ensures Carries(RecordHit(l, p, budget), l.batch.value, q) {
        assert Carries(l, l.batch.value, q);
      }
    }
  }

  // The charge is that of the pending keys, and overflow is exactly what would
  // exceed the budget.
  lemma RecordCharge(l: Local, p: Request, budget: int)
    requires l.used == LocalBytes(l.pending.Keys) && (l.pending != map[] ==> l.used <= budget)
    ensures var l' := RecordHit(l, p, budget);
      && l'.used == LocalBytes(l'.pending.Keys) && (l'.pending != map[] ==> l'.used <= budget)
      && (l'.overflow <==> l.overflow || LocalBytes(l.pending.Keys + {p}) > budget)
  {
    if p !in l.pending {
      LocalInsert(l.pending.Keys, p);
      assert l.pending[p := Pending(1, 0)].Keys == l.pending.Keys + {p};
    } else {
      assert RecordHit(l, p, budget).pending.Keys == l.pending.Keys == l.pending.Keys + {p};
    }
    hide LocalBytes, LocalCost;
  }

  lemma RecordKeepsLocal(l: Local, p: Request, budget: int)
    requires LocalInv(l, budget)
    ensures var l' := RecordHit(l, p, budget);
      LocalInv(l', budget) && (l'.overflow <==> l.overflow || LocalBytes(l.pending.Keys + {p}) > budget)
  {
    RecordKeepsBatch(l, p, budget);
    RecordCharge(l, p, budget);
    hide BatchMatches, LocalBytes, LocalCost;
  }

  // A hit is counted, once, exactly when the replica has not overflowed and its
  // keys fit the budget together with the new one.
  lemma HitCountedIff(l: Local, p: Request, budget: int)
    requires LocalInv(l, budget)
    ensures var counted := !l.overflow && LocalBytes(l.pending.Keys + {p}) <= budget;
      forall q :: Unacked(RecordHit(l, p, budget), q) == Unacked(l, q) + (if q == p && counted then 1 else 0)
  {
    RecordCounts(l, p, budget);
    RecordKeepsLocal(l, p, budget);
    assert Counts(l, p, budget) <==> !RecordHit(l, p, budget).overflow;
    hide LocalBytes, LocalCost, LocalInv, RecordHit, Counts, Unacked;
  }

  lemma BuildKeepsLocal(l: Local, budget: int)
    requires LocalInv(l, budget) && l.batch.None?
    ensures var l' := NextBatch(l);
      && LocalInv(l', budget) && l'.overflow == l.overflow
      && (forall q :: Unacked(l', q) == Unacked(l, q))
      && (l.pending == map[] ==> l' == l)
      && (l.pending != map[] ==> l'.batch.Some? && l'.seqNo == l.seqNo + 1 && forall q :: InFlight(l', q) == Unacked(l, q))
  {
    assert MarkAll(l.pending).Keys == l.pending.Keys;
    hide LocalBytes, LocalCost;
  }

  // The charge of the settled keys is released.
  lemma AckCharge(l: Local)
    requires l.used == LocalBytes(l.pending.Keys)
    ensures var l' := Acknowledge(l); l'.used == LocalBytes(l'.pending.Keys) <= l.used
  {
    SumSplit(l.pending.Keys, Settled(l.pending), (p: Request) => LocalCost(p));
    assert Acknowledge(l).pending.Keys == l.pending.Keys - Settled(l.pending);
    hide LocalCost;
  }

  lemma AckKeepsLocal(l: Local, budget: int)
    requires LocalInv(l, budget)
    ensures var l' := Acknowledge(l);
      && LocalInv(l', budget) && l'.seqNo == l.seqNo && l'.overflow == l.overflow && l'.batch.None?
      && (forall q :: Unacked(l', q) == Unacked(l, q) - InFlight(l, q))
      && (forall q :: InFlight(l', q) == 0)
  {
    AckCharge(l);
    hide LocalBytes, LocalCost, Settled;
  }

  lemma ResetKeepsLocal(l: Local, budget: int)
    ensures LocalInv(ResetLocal(l), budget)
  {
  }

  // After a reset the replica is like new, but its batch numbers go on.
  lemma ResetIsNew(l: Local)
    ensures ResetLocal(l) == EMPTY.(seqNo := l.seqNo)
  {
  }

  lemma ResetCountsAgain(l: Local, p: Request, budget: int)
    ensures var l' := RecordHit(ResetLocal(l), p, budget);
      && Unacked(l', p) == (if LocalCost(p) <= budget then 1 else 0)
      && (l'.overflow <==> LocalCost(p) > budget)
  {
  }

  // ---- the shared store ----

  datatype Store = Store(counts: map<Request, nat>, used: int, saturated: bool, seqs: map<nat, nat>)

  const FRESH := Store(map[], 0, false, map[])

  function Count(st: Store, p: Request): nat {
    if p in st.counts then st.counts[p] else 0
  }

  function LastSeq(st: Store, r: nat): nat {
    if r in st.seqs then st.seqs[r] else 0
  }

  function Saturate(st: Store): Store {
    Store(map[], 0, true, st.seqs)
  }

  function Merge(counts: map<Request, nat>, hits: map<Request, nat>): map<Request, nat> {
    map p | p in counts.Keys + hits.Keys ::
      (if p in counts then counts[p] else 0) + (if p in hits then hits[p] else 0)
  }

  ghost function UsedWith(st: Store, b: Batch): int {
    st.used + SharedBytes(b.hits.Keys - st.counts.Keys)
  }

  // flushScript: the new store and the reply.
  ghost function ApplyBatch(st: Store, r: nat, b: Batch, budget: int): (Store, nat) {
    if st.saturated then (st, 1)
    else if LastSeq(st, r) >= b.id then (st, 0)
    else if UsedWith(st, b) > budget then (Saturate(st), 2)
    else (Store(Merge(st.counts, b.hits), UsedWith(st, b), false, st.seqs[r := b.id]), 0)
  }

  // The budget is charged exactly, and members are requests that were offered.
  ghost predicate StoreInv(st: Store, offered: set<Request>, budget: int) {
    && (st.saturated ==> st.counts == map[] && st.used == 0)
    && (!st.saturated ==> st.used == SharedBytes(st.counts.Keys) && (st.counts != map[] ==> st.used <= budget))
    && st.counts.Keys <= offered && (forall p :: p in st.counts ==> st.counts[p] >= 1)
  }

  ghost predicate Exceeds(offered: set<Request>, budget: int) {
    SharedBytes(offered) > budget
  }

  lemma ExceedsGrows(keys: set<Request>, offered: set<Request>, budget: int)
    requires keys <= offered && SharedBytes(keys) > budget
    ensures Exceeds(offered, budget)
  {
    SharedSplit(offered, keys);
  }

  // An invariant of the store over any new batch, with the two possible results:
  // every hit of the batch, or none and a saturated store.
  lemma ApplyKeepsStore(st: Store, r: nat, b: Batch, offered: set<Request>, budget: int)
    requires StoreInv(st, offered, budget) && b.hits.Keys <= offered
    requires forall p :: p in b.hits ==> b.hits[p] >= 1
    ensures var st' := ApplyBatch(st, r, b, budget).0;
      && StoreInv(st', offered, budget)
      && (st'.saturated ==> st.saturated || Exceeds(offered, budget))
      && (st.saturated || LastSeq(st, r) >= b.id ==> st' == st)
      && (!st'.saturated && LastSeq(st, r) < b.id ==> st'.seqs == st.seqs[r := b.id])
      && (!st'.saturated && LastSeq(st, r) < b.id ==>
            forall p :: Count(st', p) == Count(st, p) + (if p in b.hits then b.hits[p] else 0))
      && (st'.saturated ==> st'.seqs == st.seqs)
      && (!st.saturated && LastSeq(st, r) < b.id ==>
            (st'.saturated <==> SharedBytes(st.counts.Keys + b.hits.Keys) > budget))
  {
    if !st.saturated && LastSeq(st, r) < b.id {
      ChargedExactly(st, b);
      if UsedWith(st, b) > budget {
        ExceedsGrows(st.counts.Keys + b.hits.Keys, offered, budget);
        NothingShared();
      } else {
        ApplyFits(st, r, b, offered, budget);
      }
    }
    hide SharedBytes, Exceeds, Merge, UsedWith, Count;
  }

  lemma ApplyFits(st: Store, r: nat, b: Batch, offered: set<Request>, budget: int)
    requires StoreInv(st, offered, budget) && b.hits.Keys <= offered && !st.saturated && UsedWith(st, b) <= budget
    requires forall p :: p in b.hits ==> b.hits[p] >= 1
    ensures var st' := Store(Merge(st.counts, b.hits), UsedWith(st, b), false, st.seqs[r := b.id]);
      && StoreInv(st', offered, budget)
      && forall p :: Count(st', p) == Count(st, p) + (if p in b.hits then b.hits[p] else 0)
  {
    ChargedExactly(st, b);
    MergeCounts(st.counts, b.hits);
    hide SharedBytes, Merge, UsedWith;
  }

  // The reply tells a saturated store from one that this very call saturates.
  lemma ReplyMeans(st: Store, r: nat, b: Batch, budget: int)
    ensures var (st', reply) := ApplyBatch(st, r, b, budget);
      && reply in {0, 1, 2}
      && (reply == 1 <==> st.saturated)
      && (reply == 2 <==> st'.saturated && !st.saturated)
  {
  }

  lemma NothingShared()
    ensures SharedBytes({}) == 0
  {
  }

  lemma ChargedExactly(st: Store, b: Batch)
    requires st.used == SharedBytes(st.counts.Keys)
    ensures UsedWith(st, b) == SharedBytes(st.counts.Keys + b.hits.Keys)
  {
    var keys := st.counts.Keys + b.hits.Keys;
    SharedSplit(keys, st.counts.Keys);
    assert keys - st.counts.Keys == b.hits.Keys - st.counts.Keys;
  }

  lemma MergeCounts(counts: map<Request, nat>, hits: map<Request, nat>)
    ensures var m := Merge(counts, hits);
      && m.Keys == counts.Keys + hits.Keys
      && forall p :: (if p in m then m[p] else 0) == (if p in counts then counts[p] else 0) + (if p in hits then hits[p] else 0)
  {
  }

  // ---- Top ----

  datatype Answer = StoreError | Unavailable | Nothing | Winner(p: Request, hits: nat)

  // EXISTS reads the first store, ZREVRANGE the second. Ties may go either way,
  // and an error says nothing.
  ghost predicate Answers(first: Store, second: Store, a: Answer) {
    match a
    case StoreError => true
    case Unavailable => first.saturated
    case Nothing => !first.saturated && second.counts == map[]
    case Winner(p, hits) =>
      !first.saturated && p in second.counts && hits == second.counts[p] &&
      forall q :: q in second.counts ==> second.counts[q] <= hits
  }
}
