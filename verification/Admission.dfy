// The admission counter for response bytes in flight. Every handler adds its
// size, looks at the sum it got, and either streams or takes the size back; the
// three atomic actions of different handlers may interleave in any order.
module Admission {
  import opened SetSums

  // seen is the value that the atomic add returned to the handler.
  datatype Handler = Added(size: nat, seen: int) | Admitted(size: nat) | Refused(size: nat)

  type Entry = (nat, Handler)

  function Entries(m: map<nat, Handler>): set<Entry> {
    set id | id in m :: (id, m[id])
  }

  datatype Gate = Gate(inflight: int, handlers: map<nat, Handler>)

  ghost function Present(g: Gate): nat {
    Sum(Entries(g.handlers), (e: Entry) => e.1.size)
  }

  // Handlers that stream, or will stream once they look at their sum.
  predicate WillStream(h: Handler, max: int) {
    h.Admitted? || (h.Added? && h.seen <= max)
  }

  ghost function Streaming(g: Gate, max: int): nat {
    Sum(Entries(g.handlers), (e: Entry) => if WillStream(e.1, max) then e.1.size else 0)
  }

  ghost function AdmittedBytes(g: Gate): nat {
    Sum(Entries(g.handlers), (e: Entry) => if e.1.Admitted? then e.1.size else 0)
  }

  ghost predicate Inv(g: Gate, max: int) {
    g.inflight == Present(g) && (Streaming(g, max) <= max || Streaming(g, max) == 0)
  }

  lemma {:induction false} SumBelow(s: set<Entry>, f: Entry -> nat, g: Entry -> nat)
    requires forall e :: e in s ==> f(e) <= g(e)
    ensures Sum(s, f) <= Sum(s, g)
  {
    if s != {} {
      var e :| e in s;
      SumRemove(s, f, e);
      SumRemove(s, g, e);
      SumBelow(s - {e}, f, g);
    }
  }

  // The bytes of the admitted responses never exceed the maximum.
  lemma AdmittedWithinMax(g: Gate, max: int)
    requires Inv(g, max) && max >= 0
    ensures AdmittedBytes(g) <= max && AdmittedBytes(g) <= g.inflight
  {
    SumBelow(Entries(g.handlers), (e: Entry) => if e.1.Admitted? then e.1.size else 0,
             (e: Entry) => if WillStream(e.1, max) then e.1.size else 0);
    SumBelow(Entries(g.handlers), (e: Entry) => if e.1.Admitted? then e.1.size else 0, (e: Entry) => e.1.size);
  }

  lemma StreamingBelowPresent(g: Gate, max: int)
    ensures Streaming(g, max) <= Present(g)
  {
    SumBelow(Entries(g.handlers), (e: Entry) => if WillStream(e.1, max) then e.1.size else 0, (e: Entry) => e.1.size);
  }

  // ---- the atomic actions ----

  datatype Action = Add(id: nat, size: nat) | Decide(id: nat) | Release(id: nat)

  predicate Enabled(g: Gate, a: Action) {
    match a
    case Add(id, _) => id !in g.handlers
    case Decide(id) => id in g.handlers && g.handlers[id].Added?
    case Release(id) => id in g.handlers && !g.handlers[id].Added?
  }

  function Next(g: Gate, a: Action, max: int): Gate
    requires Enabled(g, a)
  {
    match a
    case Add(id, size) => Gate(g.inflight + size, g.handlers[id := Added(size, g.inflight + size)])
    case Decide(id) =>
      var h := g.handlers[id];
      g.(handlers := g.handlers[id := if h.seen > max then Refused(h.size) else Admitted(h.size)])
    case Release(id) => Gate(g.inflight - g.handlers[id].size, g.handlers - {id})
  }

  lemma EntriesWith(m: map<nat, Handler>, id: nat, h: Handler)
    requires id !in m
    ensures Entries(m[id := h]) == Entries(m) + {(id, h)} && (id, h) !in Entries(m)
  {
    var more := m[id := h];
    forall e | e in Entries(m) + {(id, h)}
      ensures e in Entries(more)
    {
      assert e.0 in more && more[e.0] == e.1;
    }
  }

  lemma HandlersSplit(m: map<nat, Handler>, id: nat)
    requires id in m
    ensures m == (m - {id})[id := m[id]]
  {
  }

  // Sums over the handlers with one more entry.
  lemma SumWith(m: map<nat, Handler>, id: nat, h: Handler, f: Entry -> nat)
    requires id !in m
    ensures Sum(Entries(m[id := h]), f) == Sum(Entries(m), f) + f((id, h))
  {
    EntriesWith(m, id, h);
    SumInsert(Entries(m), f, (id, h));
  }

  // Both sums of a gate in which one handler is h.
  lemma GateWith(m: map<nat, Handler>, id: nat, h: Handler, inflight: int, max: int)
    requires id !in m
    ensures var g, rest := Gate(inflight, m[id := h]), Gate(inflight, m);
      && Present(g) == Present(rest) + h.size
      && Streaming(g, max) == Streaming(rest, max) + (if WillStream(h, max) then h.size else 0)
  {
    SumWith(m, id, h, (e: Entry) => e.1.size);
    SumWith(m, id, h, (e: Entry) => if WillStream(e.1, max) then e.1.size else 0);
  }

  lemma StepInv(g: Gate, a: Action, max: int)
    requires Inv(g, max) && Enabled(g, a)
    ensures Inv(Next(g, a, max), max)
  {
    StreamingBelowPresent(g, max);
    match a {
      case Add(id, size) =>
        GateWith(g.handlers, id, Added(size, g.inflight + size), g.inflight, max);
      case Decide(id) =>
        var m, h := g.handlers - {id}, g.handlers[id];
        HandlersSplit(g.handlers, id);
        GateWith(m, id, h, g.inflight, max);
        var h' := Next(g, a, max).handlers[id];
        GateWith(m, id, h', g.inflight, max);
        assert Next(g, a, max).handlers == m[id := h'];
      case Release(id) =>
        HandlersSplit(g.handlers, id);
        GateWith(g.handlers - {id}, id, g.handlers[id], g.inflight, max);
    }
  }

  ghost predicate IsRun(gates: seq<Gate>, actions: seq<Action>, max: int) {
    && |gates| == |actions| + 1 && gates[0] == Gate(0, map[])
    && forall i :: 0 <= i < |actions| ==> Enabled(gates[i], actions[i]) && gates[i + 1] == Next(gates[i], actions[i], max)
  }

  // Under any interleaving the admitted bytes stay within the maximum, the
  // counter is the sum of the handlers inside, and it is 0 when all are gone.
  lemma {:induction false} RunInv(gates: seq<Gate>, actions: seq<Action>, max: int, i: nat)
    requires IsRun(gates, actions, max) && i < |gates| && max >= 0
    ensures Inv(gates[i], max)
    ensures AdmittedBytes(gates[i]) <= max && gates[i].inflight == Present(gates[i])
    ensures gates[i].handlers == map[] ==> gates[i].inflight == 0
  {
    if i == 0 {
      assert Entries(gates[0].handlers) == {};
    } else {
      RunInv(gates, actions, max, i - 1);
      StepInv(gates[i - 1], actions[i - 1], max);
    }
    AdmittedWithinMax(gates[i], max);
    assert gates[i].handlers == map[] ==> Entries(gates[i].handlers) == {};
  }

  // A handler that has added its size and not yet looked at the sum keeps it,
  // whatever the others do.
  lemma {:induction false} SeenStays(gates: seq<Gate>, actions: seq<Action>, max: int, i: nat, j: nat, id: nat, size: nat)
    requires IsRun(gates, actions, max) && i < j <= |actions| && actions[i] == Add(id, size)
    requires forall k :: i < k < j ==> actions[k] != Decide(id)
    ensures id in gates[j].handlers && gates[j].handlers[id] == Added(size, gates[i].inflight + size)
    decreases j
  {
    if i + 1 < j {
      SeenStays(gates, actions, max, i, j - 1, id, size);
      assert actions[j - 1] != Decide(id);
    }
  }

  // A response is admitted if and only if it fit the maximum together with all
  // that were present when it added its size, however late it decides.
  lemma AdmittedIffItFits(gates: seq<Gate>, actions: seq<Action>, max: int, i: nat, j: nat, id: nat, size: nat)
    requires IsRun(gates, actions, max) && max >= 0 && i < j < |actions|
    requires actions[i] == Add(id, size) && actions[j] == Decide(id)
    requires forall k :: i < k < j ==> actions[k] != Decide(id)
    ensures id in gates[j + 1].handlers
    ensures gates[j + 1].handlers[id] == Admitted(size) <==> Present(gates[i]) + size <= max
    ensures gates[j + 1].handlers[id] == Refused(size) <==> Present(gates[i]) + size > max
  {
    RunInv(gates, actions, max, i);
    SeenStays(gates, actions, max, i, j, id, size);
    hide Inv, AdmittedBytes, Present;
  }

  // A response that fits the configured maximum is admitted when it is alone,
  // because the configuration makes MaxInflightBytes at least that large.
  lemma AloneIsAdmitted(g: Gate, id: nat, size: nat, max: int, maxResponse: int)
    requires Inv(g, max) && g.handlers == map[] && size <= maxResponse <= max
    ensures var added := Next(g, Add(id, size), max);
      Enabled(added, Decide(id)) && Next(added, Decide(id), max).handlers[id] == Admitted(size)
  {
    assert Entries(g.handlers) == {};
  }

  // The shared counter itself. Its methods are the atomic actions; handlers is
  // what the goroutines remember between them.
  class Server {
    var inflight: int
    const max: int
    ghost var handlers: map<nat, Handler>

    ghost function View(): Gate
      reads this
    {
      Gate(inflight, handlers)
    }

    ghost predicate Valid()
      reads this
    {
      Inv(View(), max)
    }

    constructor (max: int)
      ensures Valid() && View() == Gate(0, map[]) && this.max == max
    {
      inflight, this.max, handlers := 0, max, map[];
      new;
      assert Entries(handlers) == {};
    }

    // inflight.Add(size)
    method AddSize(ghost id: nat, size: nat) returns (seen: int)
      requires Valid() && id !in handlers
      modifies this
      ensures Valid() && View() == Next(old(View()), Add(id, size), max)
      ensures handlers[id] == Added(size, seen) && seen == inflight == old(inflight) + size
    {
      StepInv(View(), Add(id, size), max);
      inflight := inflight + size;
      seen := inflight;
      handlers := handlers[id := Added(size, seen)];
    }

    // The comparison of the handler, with the value that its own add returned.
    method Admits(ghost id: nat, size: nat, seen: int) returns (ok: bool)
      requires Valid() && id in handlers && handlers[id] == Added(size, seen)
      modifies this`handlers
      ensures Valid() && View() == Next(old(View()), Decide(id), max)
      ensures ok <==> handlers[id] == Admitted(size)
      ensures ok <==> seen <= max
    {
      StepInv(View(), Decide(id), max);
      ok := !(seen > max);
      handlers := handlers[id := if ok then Admitted(size) else Refused(size)];
    }

    // inflight.Add(-size), at once or after the response.
    method Subtract(ghost id: nat, size: nat)
      requires Valid() && id in handlers && !handlers[id].Added? && handlers[id].size == size
      modifies this
      ensures Valid() && View() == Next(old(View()), Release(id), max)
    {
      StepInv(View(), Release(id), max);
      inflight := inflight - size;
      handlers := handlers - {id};
    }
  }
}
