// The in-memory statistics store.
module Stats {
  import opened Bytes
  import opened Rule
  import opened SetSums

  const PREFIX_COST := 152
  const COUNT_COST := 48
  const TWO32 := 0x1_0000_0000

  datatype Prefix = Prefix(int1: int, int2: int, str1: seq<byte>, str2: seq<byte>)

  function PrefixOf(p: Params): Prefix {
    Prefix(p.int1, p.int2, p.str1, p.str2)
  }

  type History = seq<Params>

  // How often a request occurs.
  function Hits(h: History, p: Params): nat {
    multiset(h)[p]
  }

  function Requests(h: History): set<Params> {
    set p | p in h
  }

  function Prefixes(h: History): set<Prefix> {
    set p | p in h :: PrefixOf(p)
  }

  function PrefixBytes(px: Prefix, alloc: nat -> nat): nat {
    PREFIX_COST + alloc(|px.str1|) + alloc(|px.str2|)
  }

  // What the distinct requests of a history cost, whatever their order.
  ghost function Cost(h: History, alloc: nat -> nat): nat {
    COUNT_COST * |Requests(h)| + Sum(Prefixes(h), px => PrefixBytes(px, alloc))
  }

  lemma PrefixesStep(h: History, p: Params)
    ensures Prefixes(h + [p]) == Prefixes(h) + {PrefixOf(p)}
    ensures forall q :: q in h ==> PrefixOf(q) in Prefixes(h)
  {
  }

  lemma CostStep(h: History, p: Params, alloc: nat -> nat)
    ensures Cost(h + [p], alloc) == Cost(h, alloc) + (if p in h then 0 else 48) +
      (if PrefixOf(p) in Prefixes(h) then 0 else 152 + alloc(|p.str1|) + alloc(|p.str2|))
  {
    assert Requests(h + [p]) == Requests(h) + {p};
    PrefixesStep(h, p);
    SumInsert(Prefixes(h), px => PrefixBytes(px, alloc), PrefixOf(p));
  }

  // The distinct requests of h do not fit the budget.
  ghost predicate Over(h: History, maxBytes: int, alloc: nat -> nat) {
    h != [] && Cost(h, alloc) > maxBytes
  }

  lemma OverMeans(h: History, maxBytes: int, alloc: nat -> nat)
    ensures Over(h, maxBytes, alloc) <==> h != [] && Cost(h, alloc) > maxBytes
  {
  }

  lemma OverStays(h: History, p: Params, maxBytes: int, alloc: nat -> nat)
    requires Over(h, maxBytes, alloc)
    ensures Over(h + [p], maxBytes, alloc)
  {
    CostStep(h, p, alloc);
  }

  lemma {:induction false} PrefixesCost(s: set<Prefix>, alloc: nat -> nat)
    ensures PREFIX_COST * |s| <= Sum(s, px => PrefixBytes(px, alloc))
  {
    if s != {} {
      var x :| x in s;
      SumRemove(s, px => PrefixBytes(px, alloc), x);
      PrefixesCost(s - {x}, alloc);
    }
  }

  // The shifted ID and the limit have no bit in common, so their or is a sum.
  function Pack(id: int, limit: int): int {
    id * TWO32 + limit
  }

  lemma PackInjective(id: int, limit: int, id': int, limit': int)
    requires 0 <= limit < TWO32 && 0 <= limit' < TWO32 && Pack(id, limit) == Pack(id', limit')
    ensures id == id' && limit == limit'
  {
  }

  ghost predicate AtMost(h: History, n: int) {
    forall q :: Hits(h, q) <= n
  }

  // p leads h: nobody has more hits, and p was the first to have that many,
  // with the hit at position at - 1.
  ghost predicate Leads(h: History, p: Params, hits: nat, at: nat) {
    && 0 < at <= |h| && h[at - 1] == p
    && Hits(h[..at], p) == hits == Hits(h, p)
    && AtMost(h, hits) && AtMost(h[..at - 1], hits - 1)
  }

  ghost predicate IsLeader(h: History, p: Params, hits: nat) {
    exists at :: Leads(h, p, hits, at)
  }

  // The leader and its count are determined by the history.
  lemma LeaderUnique(h: History, p: Params, n: nat, at: nat, p': Params, n': nat, at': nat)
    requires Leads(h, p, n, at) && Leads(h, p', n', at')
    ensures p == p' && n == n' && at == at'
  {
    assert n == n';
    if at < at' {
      assert h[..at' - 1][..at] == h[..at];
      HitsMonotone(h[..at' - 1], at, p);
    } else if at' < at {
      assert h[..at - 1][..at'] == h[..at'];
      HitsMonotone(h[..at - 1], at', p');
    }
  }

  lemma HitsMonotone(h: History, k: nat, p: Params)
    requires k <= |h|
    ensures Hits(h[..k], p) <= Hits(h, p)
  {
    assert h == h[..k] + h[k..];
  }

  lemma HitsStep(h: History, p: Params)
    ensures forall q :: Hits(h + [p], q) == Hits(h, q) + (if q == p then 1 else 0)
    ensures forall q :: q in h <==> Hits(h, q) > 0
  {
  }

  lemma LeaderStays(h: History, p: Params, top: Params, hits: nat, at: nat)
    requires Leads(h, top, hits, at) && Hits(h + [p], p) <= hits
    ensures Leads(h + [p], top, hits, at) && p != top
  {
    HitsStep(h, p);
    assert (h + [p])[..at] == h[..at] && (h + [p])[..at - 1] == h[..at - 1];
  }

  lemma LeaderChanges(h: History, p: Params, hits: nat)
    requires AtMost(h, hits) && Hits(h + [p], p) > hits
    ensures Leads(h + [p], p, hits + 1, |h| + 1)
  {
    HitsStep(h, p);
    assert (h + [p])[..|h| + 1] == h + [p] && (h + [p])[..|h|] == h;
  }

  // The prefix IDs are 0..n-1, each used once.
  ghost predicate DenseIds(prefixes: map<Prefix, nat>) {
    && (forall px :: px in prefixes ==> prefixes[px] < |prefixes|)
    && (forall px, qx :: px in prefixes && qx in prefixes && prefixes[px] == prefixes[qx] ==> px == qx)
  }

  function Key(prefixes: map<Prefix, nat>, p: Params): int {
    Pack(if PrefixOf(p) in prefixes then prefixes[PrefixOf(p)] else 0, p.limit)
  }

  predicate LimitFits(p: Params) {
    1 <= p.limit < TWO32
  }

  // Every prefix of the history has an ID, and nothing else has.
  ghost predicate Known(h: History, prefixes: map<Prefix, nat>) {
    && (forall p :: p in h ==> LimitFits(p))
    && prefixes.Keys == Prefixes(h) && DenseIds(prefixes)
  }

  // The counts hold the multiplicity of every request, and nothing else.
  ghost predicate Tallies(h: History, prefixes: map<Prefix, nat>, counts: map<int, nat>) {
    && (forall p :: p in h ==> Key(prefixes, p) in counts && counts[Key(prefixes, p)] == Hits(h, p))
    && (forall k :: k in counts ==> exists p :: p in h && Key(prefixes, p) == k)
  }

  lemma SeenPrefix(h: History, p: Params)
    requires p in h
    ensures PrefixOf(p) in Prefixes(h)
  {
  }

  // The packed key tells requests apart, and is never the initial top key 0.
  lemma KeyInjective(h: History, prefixes: map<Prefix, nat>, p: Params, q: Params)
    requires Known(h, prefixes) && PrefixOf(p) in prefixes && q in h && LimitFits(p)
    ensures Key(prefixes, p) == Key(prefixes, q) ==> p == q
    ensures Key(prefixes, q) != 0
  {
    SeenPrefix(h, q);
    if Key(prefixes, p) == Key(prefixes, q) {
      PackInjective(prefixes[PrefixOf(p)], p.limit, prefixes[PrefixOf(q)], q.limit);
    }
  }

  // A request is counted exactly when it is in the history.
  lemma CountedIffSeen(h: History, prefixes: map<Prefix, nat>, counts: map<int, nat>, p: Params)
    requires Known(h, prefixes) && Tallies(h, prefixes, counts) && PrefixOf(p) in prefixes && LimitFits(p)
    ensures Key(prefixes, p) in counts <==> p in h
    ensures p in h ==> counts[Key(prefixes, p)] == Hits(h, p)
  {
    if Key(prefixes, p) in counts {
      var q :| q in h && Key(prefixes, q) == Key(prefixes, p);
      KeyInjective(h, prefixes, p, q);
    }
  }

  // No counted key has the next ID.
  lemma NextIdUnused(h: History, prefixes: map<Prefix, nat>, counts: map<int, nat>, p: Params)
    requires Known(h, prefixes) && Tallies(h, prefixes, counts) && LimitFits(p)
    ensures Pack(|prefixes|, p.limit) !in counts
  {
    if Pack(|prefixes|, p.limit) in counts {
      var q :| q in h && Key(prefixes, q) == Pack(|prefixes|, p.limit);
      SeenPrefix(h, q);
      assert Pack(|prefixes|, p.limit) == Pack(prefixes[PrefixOf(q)], q.limit);
      PackInjective(prefixes[PrefixOf(q)], q.limit, |prefixes|, p.limit);
    }
  }

  // A new prefix takes the next ID.
  lemma DenseExtend(prefixes: map<Prefix, nat>, px: Prefix)
    requires DenseIds(prefixes) && px !in prefixes
    ensures DenseIds(prefixes[px := |prefixes|])
  {
    var extended := prefixes[px := |prefixes|];
    assert extended.Keys == prefixes.Keys + {px};
    assert |extended| == |prefixes| + 1;
  }

  lemma KnownStep(h: History, prefixes: map<Prefix, nat>, p: Params)
    requires Known(h, prefixes) && LimitFits(p)
    ensures Known(h + [p], if PrefixOf(p) in prefixes then prefixes else prefixes[PrefixOf(p) := |prefixes|])
  {
    PrefixesStep(h, p);
    hide Prefixes, DenseIds;
    if PrefixOf(p) !in prefixes {
      DenseExtend(prefixes, PrefixOf(p));
    }
  }

  // A new prefix changes no key of the history.
  lemma KeyKept(h: History, prefixes: map<Prefix, nat>, px: Prefix, id: nat, p: Params)
    requires Known(h, prefixes) && px !in prefixes && p in h
    ensures Key(prefixes[px := id], p) == Key(prefixes, p)
  {
    SeenPrefix(h, p);
  }

  lemma KeysKept(h: History, prefixes: map<Prefix, nat>, counts: map<int, nat>, px: Prefix, id: nat)
    requires Known(h, prefixes) && Tallies(h, prefixes, counts) && px !in prefixes
    ensures Tallies(h, prefixes[px := id], counts)
  {
    hide Hits, Key, Known;
    var prefixes' := prefixes[px := id];
    forall p | p in h
      ensures Key(prefixes', p) == Key(prefixes, p)
    {
      KeyKept(h, prefixes, px, id, p);
    }
    forall k | k in counts
      ensures exists p :: p in h && Key(prefixes', p) == k
    {
      var p :| p in h && Key(prefixes, p) == k;
      assert Key(prefixes', p) == k;
    }
  }

  // One more hit of a request whose prefix has an ID.
  lemma TallyStep(h: History, prefixes: map<Prefix, nat>, counts: map<int, nat>, p: Params)
    requires Known(h + [p], prefixes) && Tallies(h, prefixes, counts)
    ensures Tallies(h + [p], prefixes, counts[Key(prefixes, p) := Hits(h, p) + 1])
  {
    var key, h' := Key(prefixes, p), h + [p];
    SeenPrefix(h', p);
    forall q | q in h'
      ensures Key(prefixes, q) == key ==> q == p
    {
      KeyInjective(h', prefixes, p, q);
    }
    HitsStep(h, p);
    hide Hits, Key, Known;
    TallyOne(h, prefixes, counts, p, key);
  }

  lemma TallyOne(h: History, prefixes: map<Prefix, nat>, counts: map<int, nat>, p: Params, key: int)
    requires Tallies(h, prefixes, counts) && key == Key(prefixes, p)
    requires forall q :: q in h + [p] ==> Key(prefixes, q) == key ==> q == p
    ensures Tallies(h + [p], prefixes, counts[key := Hits(h, p) + 1])
  {
    HitsStep(h, p);
    hide Hits, Key;
    var counts', h' := counts[key := Hits(h, p) + 1], h + [p];
    assert p in h';
    forall k | k in counts'
      ensures exists q :: q in h' && Key(prefixes, q) == k
    {
      if k != key {
        var q :| q in h && Key(prefixes, q) == k;
        assert q in h';
      }
    }
  }

  ghost predicate LeadIs(h: History, prefixes: map<Prefix, nat>, top: Params, topKey: int, hits: nat, at: nat) {
    if h == [] then hits == 0 && topKey == 0 && top == NO_PARAMS else Leads(h, top, hits, at) && topKey == Key(prefixes, top)
  }

  datatype Answer = Unavailable | Top(p: Params, hits: nat)

  const NO_PARAMS := Params(0, 0, 0, [], [])

  lemma EmptyCost(alloc: nat -> nat)
    ensures Cost([], alloc) == 0
  {
    assert Requests([]) == {} && Prefixes([]) == {};
  }

  // What Admit needs to know of the maps before it changes them.
  lemma AdmitKnown(h: History, prefixes: map<Prefix, nat>, counts: map<int, nat>, p: Params)
    requires Known(h, prefixes) && Tallies(h, prefixes, counts) && LimitFits(p) && PrefixOf(p) in prefixes
    ensures Known(h + [p], prefixes) && Key(prefixes, p) == Pack(prefixes[PrefixOf(p)], p.limit)
    ensures Key(prefixes, p) in counts <==> p in h
    ensures p in h ==> counts[Key(prefixes, p)] == Hits(h, p)
  {
    KnownStep(h, prefixes, p);
    CountedIffSeen(h, prefixes, counts, p);
  }

  lemma AdmitNew(h: History, prefixes: map<Prefix, nat>, counts: map<int, nat>, p: Params)
    requires Known(h, prefixes) && Tallies(h, prefixes, counts) && LimitFits(p) && PrefixOf(p) !in prefixes
    ensures var prefixes' := prefixes[PrefixOf(p) := |prefixes|];
      && p !in h && Known(h + [p], prefixes') && Tallies(h, prefixes', counts)
      && Key(prefixes', p) == Pack(|prefixes|, p.limit) && Key(prefixes', p) !in counts
      && forall q :: q in h ==> Key(prefixes', q) == Key(prefixes, q)
  {
    hide Known, Tallies, Prefixes, DenseIds, LimitFits, Hits;
    KnownKeys(h, prefixes);
    KnownStep(h, prefixes, p);
    NextIdUnused(h, prefixes, counts, p);
    KeysKept(h, prefixes, counts, PrefixOf(p), |prefixes|);
    forall q | q in h ensures Key(prefixes[PrefixOf(p) := |prefixes|], q) == Key(prefixes, q) {
      KeyKept(h, prefixes, PrefixOf(p), |prefixes|, q);
    }
  }

  lemma AdmitCost(h: History, prefixes: map<Prefix, nat>, p: Params, alloc: nat -> nat)
    requires Known(h, prefixes)
    ensures Cost(h + [p], alloc) == Cost(h, alloc) + (if p in h then 0 else COUNT_COST) +
      (if PrefixOf(p) in prefixes then 0 else PREFIX_COST + alloc(|p.str1|) + alloc(|p.str2|))
    ensures p !in h ==> Hits(h, p) == 0
    ensures p in h ==> PrefixOf(p) in prefixes && h != []
  {
    KnownKeys(h, prefixes);
    CostStep(h, p, alloc);
    HitsStep(h, p);
  }

  lemma KnownKeys(h: History, prefixes: map<Prefix, nat>)
    requires Known(h, prefixes)
    ensures prefixes.Keys == Prefixes(h) && forall q :: q in h ==> PrefixOf(q) in prefixes
  {
    PrefixesStep(h, NO_PARAMS);
  }

  // The budget keeps the number of prefixes below 2^32, so IDs never wrap.
  lemma IdFits(h: History, prefixes: map<Prefix, nat>, alloc: nat -> nat, maxBytes: int)
    requires Known(h, prefixes) && maxBytes / PREFIX_COST <= TWO32 - 1 && (h != [] ==> Cost(h, alloc) <= maxBytes)
    ensures |prefixes| < TWO32 && |prefixes| % TWO32 == |prefixes|
  {
    if h == [] {
      assert Prefixes(h) == {};
    } else {
      PrefixesCost(Prefixes(h), alloc);
    }
    assert |prefixes| == |prefixes.Keys|;
  }

  lemma LeaderSeen(h: History, top: Params, hits: nat, at: nat)
    requires Leads(h, top, hits, at)
    ensures top in h
  {
  }

  lemma TopKeyDecides(h: History, p: Params, prefixes: map<Prefix, nat>, top: Params, topKey: int, hits: nat, at: nat)
    requires Known(h + [p], prefixes)
    requires LeadIs(h, prefixes, top, topKey, hits, at)
    ensures Key(prefixes, p) == topKey ==> h != [] && p == top
  {
    var h' := h + [p];
    assert p in h';
    KnownKeys(h', prefixes);
    KeyInjective(h', prefixes, p, p);
    if h != [] {
      LeaderSeen(h, top, hits, at);
      assert top in h';
      KeyInjective(h', prefixes, p, top);
    }
  }

  lemma LeadKept(h: History, before: map<Prefix, nat>, after: map<Prefix, nat>, top: Params, topKey: int, hits: nat, at: nat)
    requires LeadIs(h, before, top, topKey, hits, at)
    requires forall q :: q in h ==> Key(after, q) == Key(before, q)
    ensures LeadIs(h, after, top, topKey, hits, at)
  {
    if h != [] {
      LeaderSeen(h, top, hits, at);
    }
  }

  // Only p can take the lead, and it does when it has more hits than the leader.
  lemma LeadStep(h: History, p: Params, prefixes: map<Prefix, nat>, top: Params, topKey: int, hits: nat, at: nat)
    requires LeadIs(h, prefixes, top, topKey, hits, at) && Known(h + [p], prefixes)
    ensures Key(prefixes, p) == topKey ==> p == top
    ensures Hits(h + [p], p) > hits ==>
      LeadIs(h + [p], prefixes, p, Key(prefixes, p), Hits(h + [p], p), |h| + 1)
    ensures Hits(h + [p], p) <= hits ==> LeadIs(h + [p], prefixes, top, topKey, hits, at)
  {
    TopKeyDecides(h, p, prefixes, top, topKey, hits, at);
    HitsStep(h, p);
    assert h == [] ==> AtMost(h, 0);
    hide Known, Key;
    if Hits(h + [p], p) > hits {
      LeaderChanges(h, p, hits);
    } else {
      LeaderStays(h, p, top, hits, at);
    }
  }

  // The cost, and so the saturation, depends only on which requests occur.
  lemma CostIgnoresOrder(h: History, g: History, alloc: nat -> nat)
    requires multiset(h) == multiset(g)
    ensures Cost(h, alloc) == Cost(g, alloc)
  {
    assert forall p :: p in h <==> p in multiset(h);
    assert forall p :: p in g <==> p in multiset(g);
    assert Requests(h) == Requests(g) && Prefixes(h) == Prefixes(g);
  }

  // Exact counts of one process, within a byte budget.
  class Counter {
    var prefixes: map<Prefix, nat>
    var counts: map<int, nat> // by packed key
    var top: Params
    var topKey: int // no request has key 0
    var topHits: nat
    var usedBytes: int
    const maxBytes: int
    var saturated: bool
    const alloc: nat -> nat // the heap size of a string

    ghost var history: History // every recorded request, also the refused ones
    ghost var leadAt: nat

    // The fields of a counter that is not saturated, for the history h.
    ghost predicate Exact(h: History)
      reads this`prefixes, this`counts, this`usedBytes, this`top, this`topKey, this`topHits, this`leadAt
    {
      && Known(h, prefixes) && Tallies(h, prefixes, counts) && usedBytes == Cost(h, alloc)
      && LeadIs(h, prefixes, top, topKey, topHits, leadAt)
    }

    ghost predicate Valid()
      reads this
    {
      && maxBytes / PREFIX_COST <= TWO32 - 1
      && (saturated <==> Over(history, maxBytes, alloc))
      && (!saturated ==> Exact(history))
    }

    constructor (maxBytes: int, alloc: nat -> nat)
      requires maxBytes / PREFIX_COST <= TWO32 - 1
      ensures Valid() && history == [] && this.maxBytes == maxBytes && this.alloc == alloc
    {
      this.maxBytes, this.alloc := maxBytes, alloc;
      prefixes, counts, top, topKey, topHits, usedBytes, saturated := map[], map[], NO_PARAMS, 0, 0, 0, false;
      history, leadAt := [], 0;
      new;
      EmptyCost(alloc);
    }

    // The budget and prefix part of Record: the key of p, and its hits so far.
    method Admit(p: Params, ghost h: History) returns (admitted: bool, key: int, n: nat)
      requires Known(h, prefixes) && Tallies(h, prefixes, counts) && usedBytes == Cost(h, alloc) && LimitFits(p)
      requires (h != [] ==> usedBytes <= maxBytes) && maxBytes / PREFIX_COST <= TWO32 - 1 && !saturated
      modifies this`prefixes, this`counts, this`usedBytes, this`saturated
      ensures admitted <==> Cost(h + [p], alloc) <= maxBytes
      ensures saturated <==> !admitted
      ensures admitted ==> Known(h + [p], prefixes) && Tallies(h, prefixes, counts) && usedBytes == Cost(h + [p], alloc)
      ensures admitted ==> key == Key(prefixes, p) && n == Hits(h, p)
      ensures admitted ==> forall q :: q in h ==> Key(prefixes, q) == old(Key(prefixes, q))
    {
      var px := PrefixOf(p);
      var known := px in prefixes;
      IdFits(h, prefixes, alloc, maxBytes);
      AdmitCost(h, prefixes, p, alloc);
      hide *;
      if known {
        AdmitKnown(h, prefixes, counts, p);
      } else {
        AdmitNew(h, prefixes, counts, p);
      }
      var id := if known then prefixes[px] else |prefixes| % TWO32;
      key := Pack(id, p.limit);
      var counted := key in counts;
      n := if counted then counts[key] else 0;
      admitted := true;
      if !counted {
        var cost := COUNT_COST;
        if !known {
          cost := cost + PREFIX_COST + alloc(|p.str1|) + alloc(|p.str2|);
        }
        if usedBytes + cost > maxBytes {
          saturated, prefixes, counts, admitted := true, map[], map[], false;
          return;
        }
        usedBytes := usedBytes + cost;
        if !known {
          prefixes := prefixes[px := id];
        }
      }
    }

    // LeadStep in place: n is the new count of p, and no other count changed.
    method Lead(p: Params, key: int, n: nat, ghost h: History)
      requires n == Hits(h + [p], p) && Known(h + [p], prefixes) && key == Key(prefixes, p)
      requires LeadIs(h, prefixes, top, topKey, topHits, leadAt)
      modifies this`top, this`topKey, this`topHits, this`leadAt
      ensures LeadIs(h + [p], prefixes, top, topKey, topHits, leadAt)
    {
      hide *;
      LeadStep(h, p, prefixes, top, topKey, topHits, leadAt);
      if n > topHits {
        if key != topKey {
          top, topKey := p, key;
        }
        topHits, leadAt := n, |h| + 1;
      }
    }

    // Record of a counter that is not saturated.
    method Count(p: Params, ghost h: History) returns (saturatedNow: bool)
      requires !saturated && Exact(h) && LimitFits(p)
      requires !Over(h, maxBytes, alloc) && maxBytes / PREFIX_COST <= TWO32 - 1
      modifies this`prefixes, this`counts, this`usedBytes, this`saturated, this`top, this`topKey, this`topHits, this`leadAt
      ensures saturatedNow == saturated == Over(h + [p], maxBytes, alloc)
      ensures !saturated ==> Exact(h + [p])
    {
      HitsStep(h, p);
      ghost var before := prefixes;
      hide Known, Tallies, Cost, Hits, Leads, Key, LimitFits, LeadIs;
      var admitted, key, n := Admit(p, h);
      if !admitted {
        return true;
      }
      LeadKept(h, before, prefixes, top, topKey, topHits, leadAt);
      TallyStep(h, prefixes, counts, p);
      n := n + 1;
      counts := counts[key := n];
      Lead(p, key, n, h);
      saturatedNow := false;
    }

    method Record(p: Params) returns (saturatedNow: bool)
      requires Valid() && LimitFits(p)
      modifies this
      ensures Valid() && history == old(history) + [p]
      ensures saturatedNow <==> saturated && !old(saturated)
    {
      hide Exact, Over, LimitFits;
      ghost var h := history;
      saturatedNow := false;
      if saturated {
        OverStays(h, p, maxBytes, alloc);
      } else {
        saturatedNow := Count(p, h);
      }
      history := h + [p];
    }

    // The answer is a request with the most hits, the first that had so many.
    method GetTop() returns (a: Answer)
      requires Valid()
      ensures a.Unavailable? <==> Over(history, maxBytes, alloc)
      ensures a.Top? && history == [] ==> a == Top(NO_PARAMS, 0)
      ensures a.Top? && history != [] ==> IsLeader(history, a.p, a.hits)
    {
      if saturated {
        return Unavailable;
      }
      a := Top(top, topHits);
      assert history != [] ==> Leads(history, a.p, a.hits, leadAt);
    }
  }

  // The store after any history, in one call.
  method Replay(h: History, maxBytes: int, alloc: nat -> nat) returns (a: Answer)
    requires maxBytes / PREFIX_COST <= TWO32 - 1 && forall p :: p in h ==> LimitFits(p)
    ensures a.Unavailable? <==> h != [] && Cost(h, alloc) > maxBytes
    ensures a.Top? && h == [] ==> a == Top(NO_PARAMS, 0)
    ensures a.Top? && h != [] ==> IsLeader(h, a.p, a.hits)
  {
    OverMeans(h, maxBytes, alloc);
    hide *;
    var c := new Counter(maxBytes, alloc);
    var k := 0;
    while k < |h|
      invariant 0 <= k <= |h|
      invariant c.Valid() && fresh(c) && c.history == h[..k]
    {
      assert LimitFits(h[k]);
      var before := h[..k];
      var _ := c.Record(h[k]);
      assert h[..k + 1] == before + [h[k]];
      k := k + 1;
    }
    assert h[..k] == h;
    a := c.GetTop();
  }
}
