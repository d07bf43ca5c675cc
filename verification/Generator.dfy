// The division-free generator: an ASCII counter incremented in place, and a
// resumable loop that fills a buffer with encoded elements.
module Generator {
  import opened Bytes
  import Decimal
  import opened Rule
  import opened Arithmetic
  import opened Size

  const D_END := 40
  const MAX_NUM_ELEM := 24

  // A limit up to here keeps both next multiples inside int64.
  const MAX_COUNT := MAX_INT / 2

  // The builtin copy: it stops at the shorter of the two ends.
  method CopyInto(dst: array<byte>, at: nat, src: seq<byte>) returns (m: nat)
    requires at <= dst.Length
    modifies dst
    ensures m == Min(dst.Length - at, |src|)
    ensures dst[..at] == old(dst[..at]) && dst[at..at + m] == src[..m] && dst[at + m..] == old(dst[at + m..])
    ensures at + |src| <= dst.Length ==> dst[..at + m] == old(dst[..at]) + src
  {
    m := Min(dst.Length - at, |src|);
    forall k | 0 <= k < m {
      dst[at + k] := src[k];
    }
  }

  lemma SliceOfUpdate(s: seq<byte>, lo: nat, k: nat, hi: nat, x: byte)
    requires lo <= k < hi <= |s|
    ensures s[k := x][lo..hi] == s[lo..k] + [x] + s[k + 1..hi]
  {
  }

  lemma CarryOut()
    ensures Decimal.Increment([]) == [ZERO + 1] && Decimal.Touched([]) == 1
  {
  }

  lemma CarryStops(front: seq<byte>)
    requires AllDigits(front) && front != [] && front[|front| - 1] != NINE
    ensures Decimal.Increment(front) == front[..|front| - 1] + [front[|front| - 1] + 1] && Decimal.Touched(front) == 1
  {
  }

  lemma CarryStep(front: seq<byte>, tail: seq<byte>)
    requires AllDigits(front) && front != [] && front[|front| - 1] == NINE
    ensures Decimal.Increment(front) + tail == Decimal.Increment(front[..|front| - 1]) + ([ZERO] + tail)
    ensures Decimal.Touched(front) == Decimal.Touched(front[..|front| - 1]) + 1
  {
  }

  // An encoded number, kept as text with its last digit at index D_END - 1. A new
  // leading digit moves the window to the left.
  class DecimalCounter {
    const d: array<byte>
    var start: int // most significant digit
    ghost var touched: nat // digits written by Inc so far

    constructor ()
      ensures fresh(d) && d.Length == 64 && touched == 0
    {
      d := new byte[64](_ => 0);
      start := 0;
      touched := 0;
    }

    ghost predicate Shows(v: nat)
      reads this, d
    {
      d.Length == 64 && 2 <= start < D_END && d[start..D_END] == Decimal.Text(v) &&
      d[D_END] == QUOTE && d[start - 1] == QUOTE && d[start - 2] == COMMA
    }

    // The bytes that one emitted number copies.
    function Window(): seq<byte>
      requires d.Length == 64 && 2 <= start <= D_END
      reads this, d
    {
      d[start - 2..D_END + 1]
    }

    lemma WindowIsNumber(pl: Plan, v: nat)
      requires Shows(v)
      ensures Window() == pl.Number(v)
    {
      assert Window() == [d[start - 2], d[start - 1]] + d[start..D_END] + [d[D_END]];
    }

    method Set(v: nat)
      requires d.Length == 64 && v <= MAX_INT
      modifies this`start, d
      ensures Shows(v)
    {
      var digits := Decimal.Text(v);
      Decimal.Int64TextLength(v);
      start := D_END - |digits|;
      var m := CopyInto(d, start, digits);
      assert d[start..D_END] == digits;
      d[D_END] := QUOTE;
      d[start - 1] := QUOTE;
      d[start - 2] := COMMA;
      assert d[start..D_END] == digits;
    }

    // The carry loop of Inc: trailing nines become zeros. Afterwards k is the
    // digit that goes up, or the old opening quote.
    method Carry(ghost t: seq<byte>) returns (k: int)
      requires d.Length == 64 && 2 <= start < D_END && AllDigits(t) && d[start..D_END] == t
      requires d[start - 1] == QUOTE
      modifies this`touched, d
      ensures start - 1 <= k < D_END && d[k] != NINE
      ensures AllDigits(t[..k + 1 - start]) && (k >= start ==> d[k] < NINE)
      ensures d[..k + 1] == old(d[..k + 1]) && d[D_END] == old(d[D_END])
      ensures Decimal.Increment(t) == Decimal.Increment(t[..k + 1 - start]) + d[k + 1..D_END]
      ensures Decimal.Touched(t) == Decimal.Touched(t[..k + 1 - start]) + (touched - old(touched))
    {
      hide Decimal.Increment, Decimal.Touched;
      assert t[..D_END - start] == t;
      assert t + d[D_END..D_END] == t;
      k := D_END - 1;
      assert Decimal.Increment(t) + d[D_END..D_END] == Decimal.Increment(t);
      while d[k] == NINE
        invariant start - 1 <= k < D_END
        invariant d[..k + 1] == old(d[..k + 1]) && d[D_END] == old(d[D_END])
        invariant Decimal.Increment(t) == Decimal.Increment(t[..k + 1 - start]) + d[k + 1..D_END]
        invariant Decimal.Touched(t) == Decimal.Touched(t[..k + 1 - start]) + (touched - old(touched))
        decreases k
      {
        assert d[k] == old(d[..k + 1])[k];
        ghost var front, tail := t[..k + 1 - start], d[k + 1..D_END];
        CarryStep(front, tail);
        assert front[..|front| - 1] == t[..k - start];
        d[k] := ZERO;
        touched := touched + 1;
        k := k - 1;
        assert d[k + 1..D_END] == [ZERO] + tail;
      }
      assert d[k] == old(d[..k + 1])[k];
      assert k >= start ==> d[k] == t[k - start];
    }

    // All digits were nines: the text grows by one digit.
    method Widen(k: nat)
      requires d.Length == 64 && 2 <= k < D_END
      modifies this`start, d
      ensures start == k && d[start - 1] == QUOTE && d[start - 2] == COMMA
      ensures d[start..D_END] == [ZERO + 1] + old(d[k + 1..D_END]) && d[D_END] == old(d[D_END])
    {
      d[k] := ZERO + 1;
      start := k;
      d[k - 1] := QUOTE;
      d[k - 2] := COMMA;
    }

    method Inc(ghost v: nat)
      requires Shows(v) && v < MAX_INT
      modifies this`start, this`touched, d
      ensures Shows(v + 1)
      ensures touched == old(touched) + Decimal.Touched(Decimal.Text(v))
    {
      hide Decimal.Text, Decimal.Increment, Decimal.Touched, AllDigits;
      ghost var t := Decimal.Text(v);
      Decimal.IncrementText(v);
      Decimal.Int64TextLength(v + 1);
      var k := Carry(t);
      ghost var front, kept := t[..k + 1 - start], d[..k + 1];
      touched := touched + 1;
      if k < start {
        CarryOut();
        assert front == [];
        Widen(k);
        return;
      }
      assert d[start..k + 1] == kept[start..] == front;
      assert kept[start - 2] == COMMA && kept[start - 1] == QUOTE;
      CarryStops(front);
      ghost var before := d[..];
      SliceOfUpdate(before, start, k, D_END, d[k] + 1);
      assert before[start..k] == kept[start..][..k - start];
      d[k] := d[k] + 1;
      assert d[..] == before[k := before[k] + 1];
    }
  }

  // next is the least multiple of m at or after i.
  ghost predicate IsNext(m: int, i: int, next: int)
    requires m >= 1
  {
    next % m == 0 && i <= next < i + m
  }

  lemma NoMultipleBefore(m: int, i: int, next: int, j: int)
    requires m >= 1 && IsNext(m, i, next) && i <= j < next
    ensures j % m != 0
  {
    if j % m == 0 {
      assert next - j == m * (next / m - j / m);
      SmallMultiple(m, next / m - j / m);
    }
  }

  lemma NextAfter(m: int, i: int, next: int)
    requires m >= 1 && IsNext(m, i, next)
    ensures i % m == 0 <==> i == next
    ensures i < next ==> IsNext(m, i + 1, next)
    ensures i == next ==> IsNext(m, i + 1, next + m)
    ensures i == next && i >= 1 ==> m <= i
  {
    if i < next {
      NoMultipleBefore(m, i, next, i);
    } else {
      NextMultiple(m, next);
    }
  }

  lemma NextMultiple(m: int, next: int)
    requires m >= 1 && next % m == 0
    ensures (next + m) % m == 0
    ensures next >= 1 ==> m <= next
  {
    var q := next / m;
    assert next == m * q;
    MulMod(m, q + 1);
    assert next + m == m * (q + 1);
    if next >= 1 {
      PositiveFactor(q, m);
      MulMonotone(1, q, m);
    }
  }

  lemma FirstNext(m: int, lo: int)
    requires m >= 1 && lo >= 1
    ensures IsNext(m, lo, ((lo - 1) / m + 1) * m)
  {
    var q := (lo - 1) / m;
    assert lo - 1 == m * q + (lo - 1) % m;
    assert (q + 1) * m == m * q + m;
    MulMod(m, q + 1);
    assert (q + 1) * m == m * (q + 1);
  }

  // A plan whose generator stays inside int64.
  predicate Countable(pl: Plan) {
    pl.Valid() && pl.n <= MAX_COUNT && pl.a <= MAX_INT && pl.b <= MAX_INT
  }

  function MaxElem(pl: Plan): (m: int)
    ensures m >= MAX_NUM_ELEM && m >= |pl.e1| && m >= |pl.e2| && m >= |pl.e12|
  {
    Max(MAX_NUM_ELEM, Max(|pl.e1|, Max(|pl.e2|, |pl.e12|)))
  }

  lemma PieceFits(pl: Plan, i: nat)
    requires pl.Valid() && i <= MAX_INT
    ensures |pl.Piece(i)| <= MaxElem(pl)
  {
    Decimal.Int64TextLength(i);
  }

  // The element at which a fill stops: the first whose predecessor passed stop,
  // or the one after hi.
  function FillEnd(pl: Plan, i: nat, pos: nat, stop: int, hi: int): (end: nat)
    requires pl.Valid()
    ensures i <= end && (i <= hi ==> end <= hi + 1)
    ensures i <= hi && pos <= stop ==> i < end
    decreases hi - i
  {
    if i <= hi && pos <= stop then FillEnd(pl, i + 1, pos + |pl.Piece(i)|, stop, hi) else i
  }

  lemma TailKept(s: seq<byte>, all: seq<byte>, p: nat, q: nat)
    requires p <= q <= |s| == |all| && s[p..] == all[p..]
    ensures s[q..] == all[q..]
  {
    assert s[q..] == s[p..][q - p..] && all[q..] == all[p..][q - p..];
  }

  // The arguments of one fill.
  datatype Run = Run(pl: Plan, lo: nat, start: nat, stop: int, hi: int, head: seq<byte>)

  // The state of a fill before element i, with the bytes it has so far.
  ghost predicate Emitted(run: Run, i: nat, pos: nat, bytes: seq<byte>)
    requires run.pl.Valid()
  {
    && FillEnd(run.pl, i, pos, run.stop, run.hi) == FillEnd(run.pl, run.lo, run.start, run.stop, run.hi)
    && pos == run.start + |run.pl.Body(run.lo, i - 1)|
    && (pos == run.start || pos <= run.stop + MaxElem(run.pl))
    && bytes == run.head + run.pl.Body(run.lo, i - 1)
  }

  lemma NothingEmitted(run: Run, i: nat)
    requires run.pl.Valid() && i == run.lo
    ensures Emitted(run, i, run.start, run.head)
  {
    assert run.pl.Body(i, i - 1) == [];
    assert run.head + [] == run.head;
  }

  lemma OneEmitted(run: Run, i: nat, pos: nat, bytes: seq<byte>)
    requires run.pl.Valid() && run.lo <= i <= run.hi <= MAX_INT && pos <= run.stop && Emitted(run, i, pos, bytes)
    ensures |run.pl.Piece(i)| <= MaxElem(run.pl)
    ensures Emitted(run, i + 1, pos + |run.pl.Piece(i)|, bytes + run.pl.Piece(i))
  {
    PieceFits(run.pl, i);
    assert run.pl.Body(run.lo, i) == run.pl.Body(run.lo, i - 1) + run.pl.Piece(i);
    assert bytes + run.pl.Piece(i) == run.head + run.pl.Body(run.lo, i);
  }

  lemma FillStops(run: Run, i: nat, pos: nat, bytes: seq<byte>)
    requires run.pl.Valid() && (i > run.hi || pos > run.stop) && Emitted(run, i, pos, bytes)
    ensures i == FillEnd(run.pl, run.lo, run.start, run.stop, run.hi)
    ensures pos == run.start + |run.pl.Body(run.lo, i - 1)| && (pos == run.start || pos <= run.stop + MaxElem(run.pl))
    ensures bytes == run.head + run.pl.Body(run.lo, i - 1)
  {
  }

  // Fills into empty buffers, one for each stop value: the next element and all
  // bytes together.
  function Fills(pl: Plan, i: nat, stops: seq<nat>, hi: int): (nat, seq<byte>)
    requires pl.Valid()
  {
    if stops == [] then (i, [])
    else
      var (end, bytes) := Fills(pl, i, stops[..|stops| - 1], hi);
      var last := FillEnd(pl, end, 0, stops[|stops| - 1], hi);
      (last, bytes + pl.Body(end, last - 1))
  }

  // Fills resume: whatever the stop values, the outputs together are the
  // elements in order, and each fill makes progress.
  lemma {:induction false} FillsResume(pl: Plan, i: nat, stops: seq<nat>, hi: int)
    requires pl.Valid() && i <= hi + 1
    ensures var (end, bytes) := Fills(pl, i, stops, hi);
      && i <= end <= hi + 1 && bytes == pl.Body(i, end - 1)
      && (end == hi + 1 || end - i >= |stops|)
  {
    if stops == [] {
      NothingEmitted(Run(pl, i, 0, 0, hi, []), i);
    } else {
      var front := stops[..|stops| - 1];
      FillsResume(pl, i, front, hi);
      var end: int := Fills(pl, i, front, hi).0;
      var last: int := FillEnd(pl, end, 0, stops[|stops| - 1], hi);
      pl.BodySplit(i, end - 1, last - 1);
      hide FillEnd, Rule.Plan.Body, Rule.Plan.Valid;
    }
  }

  class Gen {
    const pl: Plan
    ghost const lo: int
    var i: int // the element to emit
    var next1: int64 // the tracked multiples of pl.a and pl.b
    var next2: int64
    const c: DecimalCounter

    // The counter shows i, and has written the digits of the increments from lo.
    ghost predicate Counted()
      reads this, c, c.d
    {
      1 <= lo <= i && c.Shows(i) && c.touched == Decimal.TouchedRange(lo, i)
    }

    ghost predicate Valid()
      reads this, c, c.d
    {
      Countable(pl) && Counted() && IsNext(pl.a, i, next1) && IsNext(pl.b, i, next2)
    }

    lemma Ahead()
      requires Valid()
      ensures 1 <= i <= next1 && i <= next2
    {
    }

    // The increments that the generator really made cost at most 10/9 digits each.
    lemma CostSoFar()
      requires Valid()
      ensures 9 * c.touched + Decimal.DigitSum(Decimal.Text(i)) == 10 * (i - lo) + Decimal.DigitSum(Decimal.Text(lo))
      ensures lo == 1 ==> 9 * c.touched <= 10 * (i - 1)
    {
      Decimal.AmortisedCost(lo, i);
      if lo == 1 {
        Decimal.AmortisedCostFromOne(i);
      }
    }

    constructor (pl: Plan, lo: int)
      requires Countable(pl) && 1 <= lo <= pl.n && lo - 1 + pl.a <= MAX_INT && lo - 1 + pl.b <= MAX_INT
      ensures Valid() && this.pl == pl && i == this.lo == lo && fresh(c) && fresh(c.d)
    {
      FirstNext(pl.a, lo);
      FirstNext(pl.b, lo);
      this.pl, this.lo := pl, lo;
      i := lo;
      next1 := ((lo - 1) / pl.a + 1) * pl.a;
      next2 := ((lo - 1) / pl.b + 1) * pl.b;
      var counter := new DecimalCounter();
      c := counter;
      new;
      c.Set(lo);
    }

    method Advance()
      requires Counted() && i < MAX_INT
      modifies this`i, c`start, c`touched, c.d
      ensures Counted() && i == old(i) + 1
    {
      hide DecimalCounter.Shows, Decimal.Text, Decimal.Touched, Decimal.TouchedRange, AllDigits;
      Decimal.TouchedSnoc(lo, i);
      c.Inc(i);
      i := i + 1;
    }

    // The replacement at a multiple, with the next multiple advanced.
    method Event() returns (e: seq<byte>)
      requires Valid() && i <= pl.n && i == Min(next1, next2)
      modifies this`i, this`next1, this`next2, c`start, c`touched, c.d
      ensures Valid() && i == old(i) + 1 && e == pl.Piece(old(i))
    {
      NextAfter(pl.a, i, next1);
      NextAfter(pl.b, i, next2);
      hide IsNext, Counted;
      if i == next1 {
        next1 := next1 + pl.a;
        if i == next2 {
          next2 := next2 + pl.b;
          e := pl.e12;
        } else {
          e := pl.e1;
        }
      } else {
        next2 := next2 + pl.b;
        e := pl.e2;
      }
      Advance();
    }

    // One plain number, copied from the counter.
    method PlainNumber(buf: array<byte>, at: nat) returns (pos: nat)
      requires Valid() && i <= pl.n && i < next1 && i < next2 && buf != c.d
      requires at + MaxElem(pl) <= buf.Length
      modifies this`i, c`start, c`touched, c.d, buf
      ensures Valid() && i == old(i) + 1 && pos == at + |pl.Piece(old(i))| <= buf.Length
      ensures buf[..pos] == old(buf[..at]) + pl.Piece(old(i)) && buf[pos..] == old(buf[pos..])
    {
      NextAfter(pl.a, i, next1);
      NextAfter(pl.b, i, next2);
      c.WindowIsNumber(pl, i);
      PieceFits(pl, i);
      var window := c.Window();
      assert window == pl.Piece(i);
      hide IsNext, Counted, Rule.Plan.Piece, MaxElem;
      var m := CopyInto(buf, at, window);
      pos := at + m;
      Advance();
    }

    // A run of plain numbers, up to the next multiple or the end.
    method FillNumbers(buf: array<byte>, at: nat, stop: int, hi: int, ghost run: Run) returns (pos: nat)
      requires Valid() && run.pl == pl && run.stop == stop && run.hi == hi && hi <= pl.n <= MAX_COUNT && buf != c.d
      requires run.lo <= i <= hi && at <= stop && stop + MaxElem(pl) <= buf.Length
      requires Emitted(run, i, at, buf[..at])
      modifies this`i, c`start, c`touched, c.d, buf
      ensures Valid() && old(i) <= i <= Min(Min(next1, next2), hi + 1) && at <= pos <= buf.Length
      ensures pos <= stop ==> i == Min(Min(next1, next2), hi + 1)
      ensures Emitted(run, i, pos, buf[..pos]) && buf[pos..] == old(buf[pos..])
    {
      hide FillEnd, Rule.Plan.Body, Rule.Plan.Piece, Counted, Emitted, MaxElem, IsNext, Rule.Plan.Valid;
      pos := at;
      ghost var all := buf[..];
      Ahead();
      var end := Min(Min(next1, next2), hi + 1);
      while i < end && pos <= stop
        invariant Valid() && old(i) <= i <= end == Min(Min(next1, next2), hi + 1) && at <= pos <= buf.Length
        invariant Emitted(run, i, pos, buf[..pos]) && buf[pos..] == all[pos..]
        decreases end - i
      {
        OneEmitted(run, i, pos, buf[..pos]);
        ghost var last, before := pos, buf[..];
        pos := PlainNumber(buf, pos);
        TailKept(before, all, last, pos);
      }
    }

    // The resumable fill. FillEnd gives the element at which it stops.
    method Fill(buf: array<byte>, start: nat, stop: int, hi: int) returns (pos: nat)
      requires Valid() && hi <= pl.n <= MAX_COUNT && buf != c.d && start <= buf.Length
      requires stop + MaxElem(pl) <= buf.Length
      modifies this`i, this`next1, this`next2, c`start, c`touched, c.d, buf
      ensures Valid() && i == FillEnd(pl, old(i), start, stop, hi)
      ensures pos == start + |pl.Body(old(i), i - 1)| <= buf.Length && (pos == start || pos <= stop + MaxElem(pl))
      ensures buf[..pos] == old(buf[..start]) + pl.Body(old(i), i - 1)
      ensures buf[pos..] == old(buf[pos..])
    {
      hide FillEnd, Rule.Plan.Body, Rule.Plan.Piece, Counted, Emitted, MaxElem, IsNext, Rule.Plan.Valid;
      pos := start;
      Ahead();
      ghost var all := buf[..];
      ghost var run := Run(pl, i, start, stop, hi, buf[..start]);
      NothingEmitted(run, i);
      while i <= hi && pos <= stop
        invariant Valid() && run.lo <= i && start <= pos <= buf.Length
        invariant Emitted(run, i, pos, buf[..pos]) && buf[pos..] == all[pos..]
        decreases hi - i
      {
        ghost var last, before := pos, buf[..];
        pos := FillNumbers(buf, pos, stop, hi, run);
        TailKept(before, all, last, pos);
        if i > hi || pos > stop {
          break;
        }
        OneEmitted(run, i, pos, buf[..pos]);
        before := buf[..];
        var e := Event();
        var m := CopyInto(buf, pos, e);
        TailKept(before, all, pos, pos + m);
        pos := pos + m;
      }
      FillStops(run, i, pos, buf[..pos]);
    }
  }
}
