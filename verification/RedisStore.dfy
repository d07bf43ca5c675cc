// The Redis store of one replica, and the Redis keys it shares, as objects. Each
// method is one critical section or one script; Replicas has their meaning.
module RedisStore {
  import opened Options
  import opened SetSums
  import opened Member
  import opened Replicas

  ghost function Outside(hits: map<Request, nat>, keys: set<Request>): map<Request, nat> {
    map p | p in hits && p !in keys :: hits[p]
  }

  lemma MergeEnds(counts: map<Request, nat>, hits: map<Request, nat>)
    ensures Merge(counts, Outside(hits, hits.Keys)) == counts && Outside(hits, {}) == hits
  {
    assert Outside(hits, hits.Keys) == map[];
    assert Merge(counts, map[]).Keys == counts.Keys;
  }

  lemma MergeStep(counts: map<Request, nat>, hits: map<Request, nat>, keys: set<Request>, p: Request)
    requires p in keys && keys <= hits.Keys
    ensures var m := Merge(counts, Outside(hits, keys));
      m[p := (if p in m then m[p] else 0) + hits[p]] == Merge(counts, Outside(hits, keys - {p}))
  {
    var before, after := Outside(hits, keys), Outside(hits, keys - {p});
    assert after == before[p := hits[p]];
    assert after.Keys == before.Keys + {p};
    MergeOne(counts, before, p, hits[p]);
  }

  lemma MergeOne(counts: map<Request, nat>, hits: map<Request, nat>, p: Request, n: nat)
    requires p !in hits
    ensures var m := Merge(counts, hits); m[p := (if p in m then m[p] else 0) + n] == Merge(counts, hits[p := n])
  {
    hide Merge;
    var m, more := Merge(counts, hits), Merge(counts, hits[p := n]);
    forall q: Request
      ensures q in more <==> q in m || q == p
      ensures q in more ==> more[q] == (if q in m then m[q] else 0) + (if q == p then n else 0)
    {
      MergeAt(counts, hits, q);
      MergeAt(counts, hits[p := n], q);
    }
    SameMap(m[p := (if p in m then m[p] else 0) + n], more);
  }

  lemma SameMap(m: map<Request, nat>, m': map<Request, nat>)
    requires forall q :: q in m <==> q in m'
    requires forall q :: q in m ==> m[q] == m'[q]
    ensures m == m'
  {
    assert m.Keys == m'.Keys;
  }

  lemma MergeAt(counts: map<Request, nat>, hits: map<Request, nat>, q: Request)
    ensures var m := Merge(counts, hits);
      && (q in m <==> q in counts || q in hits)
      && (q in m ==> m[q] == (if q in counts then counts[q] else 0) + (if q in hits then hits[q] else 0))
  {
  }

  lemma NothingCharged(hits: set<Request>, counts: set<Request>)
    ensures SharedBytes(hits - hits - counts) == 0
  {
    assert hits - hits - counts == {};
  }

  lemma ChargeStep(hits: set<Request>, keys: set<Request>, counts: set<Request>, p: Request)
    requires p in keys && keys <= hits
    ensures SharedBytes(hits - (keys - {p}) - counts) == SharedBytes(hits - keys - counts) + (if p in counts then 0 else SharedCost(p))
  {
    var before, after := hits - keys - counts, hits - (keys - {p}) - counts;
    if p in counts {
      assert after == before;
    } else {
      assert after == before + {p};
      SumInsert(before, (q: Request) => SharedCost(q), p);
    }
  }

  // The keys of the shared store. A method is one atomic script or command. A
  // reliable store gets every call once, and every reply arrives.
  class Redis {
    const reliable: bool
    var counts: map<Request, nat>
    var used: int
    var saturated: bool
    var seqs: map<nat, nat>

    constructor (reliable: bool)
      ensures View() == FRESH && this.reliable == reliable
    {
      this.reliable := reliable;
      counts, used, saturated, seqs := map[], 0, false, map[];
    }

    function View(): Store
      reads this
    {
      Store(counts, used, saturated, seqs)
    }

    // The budget loop of flushScript: the bytes of the members that are new.
    method Charge(b: Batch) returns (total: int)
      ensures total == UsedWith(View(), b)
    {
      total := used;
      var keys := b.hits.Keys;
      NothingCharged(b.hits.Keys, counts.Keys);
      while keys != {}
        invariant keys <= b.hits.Keys
        invariant total == used + SharedBytes(b.hits.Keys - keys - counts.Keys)
        decreases |keys|
      {
        var p :| p in keys;
        ChargeStep(b.hits.Keys, keys, counts.Keys, p);
        if p !in counts {
          total := total + SharedCost(p);
        }
        keys := keys - {p};
      }
      assert b.hits.Keys - keys - counts.Keys == b.hits.Keys - counts.Keys;
    }

    // The ZINCRBY loop of flushScript.
    method Increment(b: Batch)
      modifies this`counts
      ensures counts == Merge(old(counts), b.hits)
    {
      hide Merge, Outside;
      ghost var start := counts;
      var keys := b.hits.Keys;
      MergeEnds(start, b.hits);
      while keys != {}
        invariant keys <= b.hits.Keys
        invariant counts == Merge(start, Outside(b.hits, keys))
        decreases |keys|
      {
        var p :| p in keys;
        MergeStep(start, b.hits, keys, p);
        var n := if p in counts then counts[p] else 0;
        counts := counts[p := n + b.hits[p]];
        keys := keys - {p};
      }
    }

    method FlushScript(r: nat, b: Batch, budget: int) returns (reply: nat)
      modifies this
      ensures (View(), reply) == ApplyBatch(old(View()), r, b, budget)
      ensures reply == 1 <==> old(saturated)
      ensures reply == 2 <==> saturated && !old(saturated)
      ensures reply in {0, 1, 2}
    {
      if saturated {
        return 1;
      }
      if (if r in seqs then seqs[r] else 0) >= b.id {
        return 0;
      }
      var total := Charge(b);
      if total > budget {
        saturated, counts, used := true, map[], 0;
        return 2;
      }
      Increment(b);
      used, seqs := total, seqs[r := b.id];
      reply := 0;
    }

    method SaturateScript()
      modifies this
      ensures View() == Saturate(old(View()))
    {
      saturated, counts, used := true, map[], 0;
    }

    // ZREVRANGE 0 0: a member with the highest score.
    method Highest() returns (top: Option<(Request, nat)>)
      ensures top.None? <==> counts == map[]
      ensures top.Some? ==> top.value.0 in counts && counts[top.value.0] == top.value.1
      ensures top.Some? ==> forall q :: q in counts ==> counts[q] <= top.value.1
    {
      top := None;
      var keys := counts.Keys;
      while keys != {}
        invariant keys <= counts.Keys
        invariant top.None? <==> keys == counts.Keys
        invariant top.Some? ==> top.value.0 in counts && counts[top.value.0] == top.value.1
        invariant top.Some? ==> forall q :: q in counts && q !in keys ==> counts[q] <= top.value.1
        decreases |keys|
      {
        var p :| p in keys;
        if top.None? || counts[p] > top.value.1 {
          top := Some((p, counts[p]));
        }
        keys := keys - {p};
      }
    }
  }

  // A repeated delivery of the same batch has no effect.
  lemma ApplyTwice(st: Store, r: nat, b: Batch, budget: int)
    ensures var st' := ApplyBatch(st, r, b, budget).0;
      ApplyBatch(st', r, b, budget).0 == st' && ApplyBatch(st', r, b, budget).1 != 2
  {
  }

  // What a flush that is not saturating does: nothing if nothing is pending,
  // else one batch, retained on an error and settled on success.
  ghost predicate FlushResult(id: nat, budget: int, l: Local, l': Local, st: Store, st': Store, err: bool) {
    var sent := if l.batch.None? then NextBatch(l) else l;
    if sent.batch.None? then !err && l' == l && st' == st
    else if err then l' == sent && (st' == st || st' == ApplyBatch(st, id, sent.batch.value, budget).0)
    else l' == Acknowledge(sent) && st' == ApplyBatch(st, id, sent.batch.value, budget).0
  }

  // One more hit of a key that is in the map.
  function CountedHit(l: Local, p: Request): Local
    requires p in l.pending
  {
    l.(pending := l.pending[p := Pending(l.pending[p].n + 1, l.pending[p].sent)])
  }

  // A new key first enters the map with no hits, and then counts like the others.
  lemma RecordCases(l: Local, p: Request, budget: int)
    ensures l.overflow ==> RecordHit(l, p, budget) == l
    ensures !l.overflow && p in l.pending ==> RecordHit(l, p, budget) == CountedHit(l, p)
    ensures !l.overflow && p !in l.pending && l.used + LocalCost(p) > budget ==>
      RecordHit(l, p, budget) == l.(overflow := true)
    ensures !l.overflow && p !in l.pending && l.used + LocalCost(p) <= budget ==>
      RecordHit(l, p, budget) == CountedHit(l.(pending := l.pending[p := Pending(0, 0)], used := l.used + LocalCost(p)), p)
  {
  }

  lemma BatchCases(l: Local)
    requires l.batch.None?
    ensures HitsOf(l.pending) == map[] ==> NextBatch(l) == l && MarkAll(l.pending) == l.pending
    ensures HitsOf(l.pending) != map[] ==>
      NextBatch(l) == l.(pending := MarkAll(l.pending), seqNo := l.seqNo + 1, batch := Some(Batch(l.seqNo + 1, HitsOf(l.pending))))
  {
    assert HitsOf(l.pending).Keys == l.pending.Keys;
  }

  // The pending map while the keys are still to be settled.
  ghost function Remaining(start: map<Request, Pending>, keys: set<Request>): map<Request, Pending> {
    map p | p in start && (p in keys || start[p].n > start[p].sent) ::
      if p in keys then start[p] else Pending(start[p].n - start[p].sent, 0)
  }

  lemma RemainingEnds(start: map<Request, Pending>)
    ensures Remaining(start, start.Keys) == start && Remaining(start, {}) == Unsent(start)
    ensures LocalBytes(Settled(start) - start.Keys) == 0
  {
    assert Settled(start) - start.Keys == {};
  }

  lemma RemainingStep(start: map<Request, Pending>, keys: set<Request>, p: Request)
    requires p in keys && keys <= start.Keys && start[p].sent <= start[p].n
    ensures var m := Remaining(start, keys);
      && p in m && m[p] == start[p] && (p in Settled(start) <==> start[p].n == start[p].sent)
      && Remaining(start, keys - {p}) ==
           (if start[p].n == start[p].sent then m - {p} else m[p := Pending(start[p].n - start[p].sent, 0)])
  {
  }

  lemma SettleStep(settled: set<Request>, keys: set<Request>, p: Request)
    requires p in keys
    ensures LocalBytes(settled - (keys - {p})) == LocalBytes(settled - keys) + (if p in settled then LocalCost(p) else 0)
  {
    if p in settled {
      assert settled - (keys - {p}) == (settled - keys) + {p};
      LocalInsert(settled - keys, p);
    } else {
      assert settled - (keys - {p}) == settled - keys;
    }
  }

  lemma SentWithin(l: Local, budget: int)
    requires LocalInv(l, budget)
    ensures forall p :: p in l.pending ==> l.pending[p].sent <= l.pending[p].n
  {
  }

  lemma NothingPending(l: Local)
    requires l.batch.None?
    ensures NextBatch(l).batch.None? ==> NextBatch(l) == l
  {
  }

  class ReplicaStore {
    const id: nat
    const maxBytes: int
    var seqNo: nat
    var batch: Option<Batch>
    var pending: map<Request, Pending>
    var usedBytes: int
    var overflow: bool

    constructor (id: nat, maxBytes: int)
      ensures View() == EMPTY && Valid() && this.id == id && this.maxBytes == maxBytes
    {
      this.id, this.maxBytes := id, maxBytes;
      seqNo, batch, pending, usedBytes, overflow := 0, None, map[], 0, false;
    }

    function View(): Local
      reads this
    {
      Local(pending, usedBytes, overflow, seqNo, batch)
    }

    ghost predicate Valid()
      reads this
    {
      LocalInv(View(), maxBytes)
    }

    // A new key enters the pending map, if the budget allows.
    method Admit(p: Request) returns (admitted: bool)
      requires p !in pending
      modifies this`pending, this`usedBytes, this`overflow
      ensures admitted <==> old(usedBytes) + LocalCost(p) <= maxBytes
      ensures View() == if admitted
        then old(View()).(pending := old(pending)[p := Pending(0, 0)], used := old(usedBytes) + LocalCost(p))
        else old(View()).(overflow := true)
    {
      hide LocalCost;
      var cost := LocalCost(p);
      if usedBytes + cost > maxBytes {
        overflow := true;
        return false;
      }
      usedBytes := usedBytes + cost;
      pending := pending[p := Pending(0, 0)];
      admitted := true;
    }

    method Record(p: Request) returns (saturatedNow: bool)
      requires Valid()
      modifies this`pending, this`usedBytes, this`overflow
      ensures Valid() && View() == RecordHit(old(View()), p, maxBytes)
      ensures saturatedNow <==> overflow && !old(overflow)
    {
      RecordKeepsLocal(View(), p, maxBytes);
      RecordCases(View(), p, maxBytes);
      hide LocalInv, LocalCost, RecordHit;
      if overflow {
        return false;
      }
      if p !in pending {
        var admitted := Admit(p);
        if !admitted {
          return true;
        }
      }
      var h := pending[p];
      assert CountedHit(View(), p) == View().(pending := pending[p := Pending(h.n + 1, h.sent)]);
      hide CountedHit;
      pending := pending[p := Pending(h.n + 1, h.sent)];
      saturatedNow := false;
    }

    // The loop of nextBatch.
    method MarkSent() returns (hits: map<Request, nat>)
      modifies this`pending
      ensures pending == MarkAll(old(pending)) && hits == HitsOf(old(pending))
    {
      ghost var start := pending;
      hits := map[];
      var keys := pending.Keys;
      while keys != {}
        invariant keys <= start.Keys == pending.Keys
        invariant forall p :: p in start ==> pending[p] == if p in keys then start[p] else Pending(start[p].n, start[p].n)
        invariant hits.Keys == start.Keys - keys && forall p :: p in hits ==> hits[p] == start[p].n
        decreases |keys|
      {
        var p :| p in keys;
        pending := pending[p := pending[p].(sent := pending[p].n)];
        hits := hits[p := pending[p].n];
        keys := keys - {p};
      }
    }

    // Numbers the batch that holds the marked hits, if there are any.
    method Number(hits: map<Request, nat>)
      modifies this`seqNo, this`batch
      ensures View() == if hits == map[] then old(View())
        else old(View()).(seqNo := old(seqNo) + 1, batch := Some(Batch(old(seqNo) + 1, hits)))
    {
      if hits == map[] {
        return;
      }
      seqNo := seqNo + 1;
      batch := Some(Batch(seqNo, hits));
    }

    // Marks all pending hits as sent and makes them the next batch.
    method BuildBatch()
      requires Valid() && batch.None?
      modifies this`pending, this`seqNo, this`batch
      ensures Valid() && View() == NextBatch(old(View()))
    {
      BuildKeepsLocal(View(), maxBytes);
      BatchCases(View());
      hide LocalInv, MarkAll, HitsOf, NextBatch;
      var hits := MarkSent();
      Number(hits);
    }

    // One turn of the loop at the end of Flush.
    method SettleKey(p: Request)
      requires p in pending && pending[p].sent <= pending[p].n
      modifies this`pending, this`usedBytes
      ensures var h := old(pending)[p];
        && pending == (if h.n == h.sent then old(pending) - {p} else old(pending)[p := Pending(h.n - h.sent, 0)])
        && usedBytes == old(usedBytes) - (if h.n == h.sent then LocalCost(p) else 0)
    {
      hide LocalCost;
      var left := pending[p].n - pending[p].sent;
      if left == 0 {
        pending := pending - {p};
        usedBytes := usedBytes - LocalCost(p);
      } else {
        pending := pending[p := Pending(left, 0)];
      }
    }

    method Settle()
      requires forall p :: p in pending ==> pending[p].sent <= pending[p].n
      modifies this`pending, this`usedBytes
      ensures pending == Unsent(old(pending)) && usedBytes == old(usedBytes) - LocalBytes(Settled(old(pending)))
    {
      ghost var start, settled := pending, Settled(pending);
      var keys := pending.Keys;
      RemainingEnds(start);
      hide Remaining, Unsent, Settled, LocalBytes, LocalCost;
      while keys != {}
        invariant keys <= start.Keys && pending == Remaining(start, keys)
        invariant usedBytes == old(usedBytes) - LocalBytes(settled - keys)
        decreases |keys|
      {
        var p :| p in keys;
        RemainingStep(start, keys, p);
        SettleStep(settled, keys, p);
        SettleKey(p);
        keys := keys - {p};
      }
      assert settled - keys == settled;
    }

    // After a reply: the sent hits are no longer pending.
    method TakeReply()
      requires Valid()
      modifies this`pending, this`usedBytes, this`batch
      ensures Valid() && View() == Acknowledge(old(View()))
    {
      AckKeepsLocal(View(), maxBytes);
      SentWithin(View(), maxBytes);
      hide LocalInv;
      Settle();
      batch := None;
    }

    // The saturating branch of Flush.
    method ResetAll()
      requires Valid()
      modifies this`pending, this`usedBytes, this`overflow, this`batch
      ensures Valid() && View() == ResetLocal(old(View()))
    {
      NoLocalBytes();
      pending, usedBytes, overflow, batch := map[], 0, false, None;
    }

    // A script call over a network that can lose the call or its reply, and can
    // deliver the call more than once.
    method CallFlush(redis: Redis, b: Batch) returns (reply: Option<nat>)
      modifies redis
      ensures var st := ApplyBatch(old(redis.View()), id, b, maxBytes).0;
        redis.View() == old(redis.View()) || redis.View() == st
      ensures reply.Some? ==> redis.View() == ApplyBatch(old(redis.View()), id, b, maxBytes).0
      ensures reply == Some(2) ==> !old(redis.saturated) && redis.saturated
      ensures redis.reliable ==> reply == Some(ApplyBatch(old(redis.View()), id, b, maxBytes).1)
    {
      var deliveries: int := 1;
      if !redis.reliable {
        deliveries := *;
      }
      var k := 0;
      reply := None;
      ghost var before := redis.View();
      ApplyTwice(before, id, b, maxBytes);
      hide ApplyBatch;
      while k < deliveries
        invariant 0 <= k && (redis.reliable ==> k <= deliveries == 1)
        invariant k == 0 ==> redis.View() == before && reply == None
        invariant k > 0 ==> redis.View() == ApplyBatch(before, id, b, maxBytes).0
        invariant reply == Some(2) ==> !before.saturated && redis.saturated
        invariant redis.reliable && k > 0 ==> reply == Some(ApplyBatch(before, id, b, maxBytes).1)
      {
        var code := redis.FlushScript(id, b, maxBytes);
        var lost := false;
        if !redis.reliable {
          lost := *;
        }
        if !lost {
          reply := Some(code);
        }
        k := k + 1;
      }
    }

    // Flush, with no other activity between its critical sections.
    method Flush(redis: Redis) returns (saturatedNow: bool, err: bool)
      requires Valid()
      modifies this, redis
      ensures Valid()
      ensures old(overflow) && err ==>
        View() == old(View()) && (redis.View() == old(redis.View()) || redis.View() == Saturate(old(redis.View())))
      ensures old(overflow) && !err ==> View() == ResetLocal(old(View())) && redis.View() == Saturate(old(redis.View()))
      ensures old(overflow) && !err ==>
        !overflow && pending == map[] && usedBytes == 0 && batch.None? && seqNo == old(seqNo) && redis.saturated
      ensures !old(overflow) ==>
        FlushResult(id, maxBytes, old(View()), View(), old(redis.View()), redis.View(), err)
      ensures saturatedNow ==> !old(overflow) && !old(redis.saturated) && redis.saturated
      ensures redis.reliable ==> !err
      ensures redis.reliable && !old(overflow) ==> (saturatedNow <==> !old(redis.saturated) && redis.saturated)
    {
      saturatedNow := false;
      if overflow {
        var delivered, lost := true, false;
        if !redis.reliable {
          delivered, lost := *, *;
        }
        if delivered {
          redis.SaturateScript();
        }
        err := lost || !delivered;
        if !err {
          ResetAll();
        }
        return;
      }
      hide LocalInv, Acknowledge, NextBatch;
      if batch.None? {
        BuildBatch();
        if batch.None? {
          NothingPending(old(View()));
          return false, false;
        }
      }
      ReplyMeans(redis.View(), id, batch.value, maxBytes);
      hide ApplyBatch;
      var reply := CallFlush(redis, batch.value);
      err := reply.None?;
      if !err {
        TakeReply();
        saturatedNow := reply.value == 2;
      }
    }
  }

  // Top: EXISTS and then ZREVRANGE. Here nothing happens between the two; Runs
  // has the case in which it does.
  method ReadTop(redis: Redis) returns (a: Answer)
    ensures Answers(redis.View(), redis.View(), a)
    ensures a.Winner? ==> !redis.saturated && Count(redis.View(), a.p) == a.hits
    ensures a.Winner? ==> forall q :: Count(redis.View(), q) <= a.hits
    ensures a.Unavailable? ==> redis.saturated
    ensures a.Nothing? ==> !redis.saturated && redis.counts == map[]
    ensures redis.reliable ==> !a.StoreError?
  {
    var failed := false;
    if !redis.reliable {
      failed := *;
    }
    if failed {
      return StoreError;
    }
    if redis.saturated {
      return Unavailable;
    }
    var top := redis.Highest();
    if top.None? {
      return Nothing;
    }
    a := Winner(top.value.0, top.value.1);
  }

  // A successful flush without an outstanding batch leaves nothing pending and
  // moves every pending hit into the store, unless the store is saturated.
  lemma CleanFlushSendsAll(id: nat, budget: int, l: Local, l': Local, st: Store, st': Store, p: Request)
    requires LocalInv(l, budget) && l.batch.None? && LastSeq(st, id) <= l.seqNo
    requires FlushResult(id, budget, l, l', st, st', false)
    ensures l'.pending == map[]
    ensures st'.saturated || Count(st', p) == Count(st, p) + Unacked(l, p)
  {
    if l.pending != map[] {
      assert HitsOf(l.pending).Keys == l.pending.Keys;
      assert Unsent(MarkAll(l.pending)) == map[];
    }
  }

  // server.top: flush, then read. Over a reliable network it always answers. When the flush starts with no outstanding
  // batch, the answer includes every hit of this replica.
  method FlushThenTop(s: ReplicaStore, redis: Redis) returns (a: Answer)
    requires s.Valid() && LastSeq(redis.View(), s.id) <= s.seqNo
    modifies s, redis
    ensures s.Valid()
    ensures redis.reliable ==> !a.StoreError?
    ensures a.Unavailable? ==> redis.saturated
    ensures a.Nothing? ==> !redis.saturated && redis.counts == map[]
    ensures a.Winner? ==> !redis.saturated && Count(redis.View(), a.p) == a.hits
    ensures a.Winner? && !old(s.overflow) && old(s.batch).None? ==>
      forall p :: Count(old(redis.View()), p) + Unacked(old(s.View()), p) <= a.hits
  {
    hide LocalInv, ApplyBatch, Acknowledge, NextBatch, FlushResult, Unacked, Count;
    ghost var l, st := s.View(), redis.View();
    var _, err := s.Flush(redis);
    if err {
      return StoreError;
    }
    if l.batch.None? && !l.overflow {
      forall p ensures redis.saturated || Count(redis.View(), p) == Count(st, p) + Unacked(l, p) {
        CleanFlushSendsAll(s.id, s.maxBytes, l, s.View(), st, redis.View(), p);
      }
    }
    a := ReadTop(redis);
    if a.Winner? && l.batch.None? && !l.overflow {
      assert !redis.saturated;
      forall p ensures Count(st, p) + Unacked(l, p) <= a.hits {
        assert Count(redis.View(), p) == Count(st, p) + Unacked(l, p);
      }
    }
  }
}
