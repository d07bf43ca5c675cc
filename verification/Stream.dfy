// Streaming the response: the buffered general path and the periodic path.
module Stream {
  import opened Bytes
  import Decimal
  import opened Rule
  import opened Arithmetic
  import opened Size
  import opened Generator

  const STREAM_BUF := 32768
  const MAX_REPL_ELEM := 3 + 6 * 2 * 1024

  // With the default string limit the pooled buffer is long enough, so no
  // response allocates another one.
  lemma PoolSuffices(p: Params, pl: Plan)
    requires HasDivisors(p) && pl.Encodes(p) && |p.str1| <= 1024 && |p.str2| <= 1024
    ensures STREAM_BUF + MaxElem(pl) + 1 <= STREAM_BUF + MAX_REPL_ELEM + 1
  {
    EscapeAtMost(p.str1);
    EscapeAtMost(p.str2);
    EscapeAtMost(p.str1 + p.str2);
  }

  // An io.Writer. A call may accept a prefix and fail; a reliable writer never
  // fails. late counts the calls made after a failure.
  class Writer {
    const reliable: bool
    ghost var accepted: seq<byte>
    ghost var failed: bool
    ghost var late: nat

    constructor (reliable: bool)
      ensures this.reliable == reliable && accepted == [] && !failed && late == 0
    {
      this.reliable := reliable;
      accepted, failed, late := [], false, 0;
    }

    method Write(b: seq<byte>) returns (m: nat, err: bool)
      modifies this
      ensures m <= |b| && (!err ==> m == |b|) && (reliable ==> !err)
      ensures accepted == old(accepted) + b[..m]
      ensures failed == (old(failed) || err) && late == old(late) + (if old(failed) then 1 else 0)
    {
      m, err := |b|, false;
      if !reliable {
        err := *;
        if err {
          m :| 0 <= m <= |b|;
        }
      }
      late := late + (if failed then 1 else 0);
      failed := failed || err;
      accepted := accepted + b[..m];
    }
  }

  // What a writer must end up with: an exact prefix of the response, all of it
  // unless the writer failed, and no call after a failure.
  twostate predicate Delivered(w: Writer, response: seq<byte>, written: int, err: bool)
    reads w
  {
    && 0 <= written <= |response|
    && w.accepted == old(w.accepted) + response[..written]
    && (!err ==> written == |response|)
    && (w.reliable ==> !err)
    && (!old(w.failed) ==> w.failed == err && w.late == old(w.late))
  }

  // The bytes of one write: the first one has the opening bracket.
  function Patched(done: seq<byte>, piece: seq<byte>): seq<byte> {
    if done == [] then Opened(piece) else piece
  }

  lemma PatchedAppends(done: seq<byte>, piece: seq<byte>)
    ensures Opened(done + piece) == Opened(done) + Patched(done, piece)
  {
    if done == [] {
      assert done + piece == piece;
    } else {
      assert (done + piece)[1..] == done[1..] + piece;
    }
  }

  lemma OpenedPrefix(part: seq<byte>, body: seq<byte>)
    requires part <= body
    ensures Opened(part) == Opened(body)[..|part|]
  {
    if part != [] {
      assert part == body[..|part|];
    }
  }

  lemma BodyPrefix(pl: Plan, m: int, n: int)
    requires pl.Valid() && 0 <= m <= n
    ensures pl.Body(1, m) <= pl.Body(1, n)
  {
    pl.BodySplit(1, m, n);
  }

  lemma BodyNotEmpty(pl: Plan, lo: nat, hi: int)
    requires pl.Valid() && lo <= hi + 1
    ensures pl.Body(lo, hi) == [] <==> hi < lo
  {
    if lo <= hi {
      pl.BodyFirst(lo, hi);
    }
  }

  // One write of the general path: elements lo..hi, the bracket in front of the
  // first element, and the closing one after the last.
  method WriteBuffer(w: Writer, buf: array<byte>, pos: nat, pl: Plan, lo: nat, hi: nat) returns (m: nat, err: bool)
    requires pl.Valid() && 1 <= lo <= hi <= pl.n && pos < buf.Length && buf[..pos] == pl.Body(lo, hi)
    modifies w, buf
    ensures var tail := if hi == pl.n then [CLOSE] else [];
      var done, piece := pl.Body(1, lo - 1), pl.Body(lo, hi);
      && m <= |piece| + |tail| && (!err ==> m == |piece| + |tail|) && (w.reliable ==> !err)
      && w.accepted == old(w.accepted) + (Patched(done, piece) + tail)[..m]
      && w.failed == (old(w.failed) || err) && w.late == old(w.late) + (if old(w.failed) then 1 else 0)
  {
    hide Rule.Plan.Body, Rule.Plan.Valid, Rule.Plan.Piece;
    ghost var piece := pl.Body(lo, hi);
    BodyNotEmpty(pl, lo, hi);
    BodyNotEmpty(pl, 1, lo - 1);
    var end := pos;
    if lo == 1 {
      buf[0] := OPEN;
      assert buf[..pos] == [OPEN] + piece[1..];
    }
    assert buf[..pos] == Patched(pl.Body(1, lo - 1), piece);
    if hi == pl.n {
      buf[pos] := CLOSE;
      end := pos + 1;
      assert buf[..end] == Patched(pl.Body(1, lo - 1), piece) + [CLOSE];
    }
    m, err := w.Write(buf[..end]);
  }

  function Whole(pl: Plan): (r: seq<byte>)
    requires pl.Valid()
    ensures |r| == |pl.Body(1, pl.n)| + 1
  {
    Opened(pl.Body(1, pl.n)) + [CLOSE]
  }

  lemma ExtendPrefix(x: seq<byte>, y: seq<byte>, whole: seq<byte>, m: nat)
    requires x + y <= whole && m <= |y|
    ensures whole[..|x|] + y[..m] == whole[..|x| + m]
  {
    assert whole[..|x|] == (x + y)[..|x|] == x;
    assert whole[..|x| + m] == (x + y)[..|x| + m] == x + y[..m];
  }

  // One more chunk of the response: a patched piece, and the closing bracket
  // once the body is complete.
  lemma ChunkAppends(done: seq<byte>, piece: seq<byte>, tail: seq<byte>, body: seq<byte>)
    requires done + piece <= body
    requires tail == [] || (tail == [CLOSE] && done + piece == body)
    ensures Opened(done) + (Patched(done, piece) + tail) <= Opened(body) + [CLOSE]
  {
    PatchedAppends(done, piece);
    OpenedPrefix(done + piece, body);
    assert Opened(done) + (Patched(done, piece) + tail) == Opened(done + piece) + tail;
    assert Opened(done + piece) <= Opened(body);
  }

  lemma GeneralStep(pl: Plan, lo: nat, hi: nat, m: nat)
    requires pl.Valid() && 1 <= lo <= hi <= pl.n
    requires m <= |pl.Body(lo, hi)| + (if hi == pl.n then 1 else 0)
    ensures var tail := if hi == pl.n then [CLOSE] else [];
      var done, piece := pl.Body(1, lo - 1), pl.Body(lo, hi);
      && |done| + |piece| == |pl.Body(1, hi)| && |done| + m <= |Whole(pl)|
      && Whole(pl)[..|done|] + (Patched(done, piece) + tail)[..m] == Whole(pl)[..|done| + m]
  {
    pl.BodySplit(1, lo - 1, hi);
    BodyPrefix(pl, hi, pl.n);
    var done, piece, tail := pl.Body(1, lo - 1), pl.Body(lo, hi), if hi == pl.n then [CLOSE] else [];
    ChunkAppends(done, piece, tail, pl.Body(1, pl.n));
    ExtendPrefix(Opened(done), Patched(done, piece) + tail, Whole(pl), m);
  }

  // The bytes sent once element i is next.
  function SentBefore(pl: Plan, i: nat): nat
    requires pl.Valid() && 1 <= i
  {
    |pl.Body(1, i - 1)| + (if i > pl.n then 1 else 0)
  }

  // The same write, as progress through the whole response.
  method SendElements(w: Writer, buf: array<byte>, pos: nat, pl: Plan, lo: nat, hi: nat, ghost base: seq<byte>)
    returns (m: nat, err: bool)
    requires pl.Valid() && 1 <= lo <= hi <= pl.n && pos < buf.Length && buf[..pos] == pl.Body(lo, hi)
    requires SentBefore(pl, lo) <= |Whole(pl)| && w.accepted == base + Whole(pl)[..SentBefore(pl, lo)]
    modifies w, buf
    ensures SentBefore(pl, lo) + m <= |Whole(pl)| && w.accepted == base + Whole(pl)[..SentBefore(pl, lo) + m]
    ensures (!err ==> SentBefore(pl, lo) + m == SentBefore(pl, hi + 1)) && (w.reliable ==> !err)
    ensures w.failed == (old(w.failed) || err) && w.late == old(w.late) + (if old(w.failed) then 1 else 0)
  {
    hide Whole, Opened, Patched, Rule.Plan.Body, Rule.Plan.Piece;
    m, err := WriteBuffer(w, buf, pos, pl, lo, hi);
    GeneralStep(pl, lo, hi, m);
    ghost var sent := |pl.Body(1, lo - 1)|;
    assert base + Whole(pl)[..sent + m] == base + Whole(pl)[..sent] + Whole(pl)[..sent + m][sent..];
  }

  // One turn of the general loop: fill the buffer and write it.
  method FillAndSend(w: Writer, buf: array<byte>, g: Gen, ghost base: seq<byte>) returns (m: nat, err: bool)
    requires g.Valid() && g.i <= g.pl.n && buf != g.c.d && STREAM_BUF + MaxElem(g.pl) < buf.Length
    requires SentBefore(g.pl, g.i) <= |Whole(g.pl)| && w.accepted == base + Whole(g.pl)[..SentBefore(g.pl, g.i)]
    modifies w, buf, g, g.c`start, g.c`touched, g.c.d
    ensures g.Valid() && old(g.i) < g.i <= g.pl.n + 1
    ensures var sent := SentBefore(g.pl, old(g.i)) + m;
      sent <= |Whole(g.pl)| && w.accepted == base + Whole(g.pl)[..sent] && (!err ==> sent == SentBefore(g.pl, g.i))
    ensures (w.reliable ==> !err) && w.failed == (old(w.failed) || err)
    ensures w.late == old(w.late) + (if old(w.failed) then 1 else 0)
  {
    hide Whole, SentBefore, Rule.Plan.Body, FillEnd, MaxElem, IsNext, DecimalCounter.Shows, Rule.Plan.Valid;
    var lo := g.i;
    var pos := g.Fill(buf, 0, STREAM_BUF, g.pl.n);
    assert buf[..pos] == g.pl.Body(lo, g.i - 1);
    m, err := SendElements(w, buf, pos, g.pl, lo, g.i - 1, base);
  }

  method WriteGeneral(w: Writer, pl: Plan, pool: array<byte>) returns (written: int64, err: bool)
    requires Countable(pl) && |Whole(pl)| <= MAX_INT
    modifies w, pool
    ensures Delivered(w, Whole(pl), written, err)
  {
    hide Whole, Rule.Plan.Body, IsNext, Decimal.Text, Decimal.Touched, DecimalCounter.Shows;
    var buf := pool;
    var need := STREAM_BUF + MaxElem(pl) + 1;
    if buf.Length < need { // long strings
      buf := new byte[need];
    }
    written, err := 0, false;
    var g := new Gen(pl, 1);
    WholeSize(pl);
    while g.i <= pl.n
      invariant g.Valid() && g.pl == pl && fresh(g) && fresh(g.c) && fresh(g.c.d) && 1 <= g.i <= pl.n + 1
      invariant written == SentBefore(pl, g.i) <= |Whole(pl)| && !err
      invariant w.accepted == old(w.accepted) + Whole(pl)[..written]
      invariant !old(w.failed) ==> !w.failed && w.late == old(w.late)
      decreases pl.n + 1 - g.i
    {
      hide SentBefore, MaxElem, Countable, Gen.Valid;
      var m;
      m, err := FillAndSend(w, buf, g, old(w.accepted));
      written := written + m;
      if err {
        return;
      }
    }
  }

  lemma WholeSize(pl: Plan)
    requires pl.Valid()
    ensures |Whole(pl)| == |pl.Body(1, pl.n)| + 1 && pl.Body(1, 0) == []
  {
  }

  // ---- the periodic path: a divisor is 1 ----

  function Period(pl: Plan): (p: int)
    requires pl.Valid()
    ensures 1 <= p <= pl.n
  {
    Min(Max(pl.a, pl.b), pl.n)
  }

  lemma SameRemainder(i: int, p: int, j: int, m: int)
    requires m >= 1 && p % m == 0
    ensures (i + j * p) % m == i % m
  {
    var q := i / m + j * (p / m);
    assert p == m * (p / m);
    assert j * p == m * (j * (p / m));
    assert i + j * p == m * (i / m) + i % m + m * (j * (p / m));
    assert m * q == m * (i / m) + m * (j * (p / m));
    QuotientIs(i + j * p, m, q, i % m);
  }

  lemma PieceRepeats(pl: Plan, i: nat, j: nat)
    requires pl.Valid() && Min(pl.a, pl.b) == 1 && i >= 1
    ensures pl.Piece(i + j * Max(pl.a, pl.b)) == pl.Piece(i)
  {
    var p := Max(pl.a, pl.b);
    assert p % pl.a == 0 && p % pl.b == 0;
    hide Rule.Plan.Number;
    SameRemainder(i, p, j, pl.a);
    SameRemainder(i, p, j, pl.b);
    assert i % 1 == 0;
  }

  lemma {:induction false} BodyRepeats(pl: Plan, j: nat, r: nat)
    requires pl.Valid() && Min(pl.a, pl.b) == 1
    ensures var s := j * Max(pl.a, pl.b); pl.Body(s + 1, s + r) == pl.Body(1, r)
    decreases r
  {
    if r > 0 {
      BodyRepeats(pl, j, r - 1);
      PieceRepeats(pl, r, j);
    }
  }

  // A period is repeated as long as the limit allows.
  lemma {:induction false} PeriodsRepeat(pl: Plan, j: nat)
    requires pl.Valid() && Min(pl.a, pl.b) == 1 && j * Period(pl) <= pl.n
    ensures pl.Body(1, j * Period(pl)) == Repeated(pl.Body(1, Period(pl)), j)
  {
    var p := Period(pl);
    if j == 1 {
      assert Repeated(pl.Body(1, p), 1) == [] + pl.Body(1, p);
    } else if j > 1 {
      hide Rule.Plan.Body, Rule.Plan.Valid;
      var s := (j - 1) * p;
      MulMonotone(1, j - 1, p);
      assert j * p == s + p && p <= s;
      assert p == Max(pl.a, pl.b);
      PeriodsRepeat(pl, j - 1);
      BodyRepeats(pl, j - 1, p);
      pl.BodySplit(1, s, s + p);
    }
  }

  lemma NothingLeft(pl: Plan, s: seq<byte>)
    requires pl.Valid()
    ensures s + pl.Body(1, 0) == s
  {
  }

  // The whole body: full periods and a prefix of one more.
  lemma BodyOfPeriods(pl: Plan)
    requires pl.Valid() && Min(pl.a, pl.b) == 1
    ensures var p := Period(pl); var rest := pl.Body(1, pl.n % p);
      && pl.Body(1, pl.n) == Repeated(pl.Body(1, p), pl.n / p) + rest
      && rest <= pl.Body(1, p)
  {
    var p := Period(pl);
    var q, r := pl.n / p, pl.n % p;
    assert pl.n == q * p + r;
    PeriodsRepeat(pl, q);
    BodyPrefix(pl, r, p);
    hide Rule.Plan.Body, Rule.Plan.Valid, Repeated;
    if p < pl.n {
      BodyRepeats(pl, q, r);
      pl.BodySplit(1, q * p, pl.n);
    } else {
      QuotientIs(pl.n, p, 1, 0);
      NothingLeft(pl, Repeated(pl.Body(1, p), q));
    }
  }

  // The chunk is exactly k periods long when its period is pb bytes.
  lemma ChunkPrefix(period: seq<byte>, j: nat, k: nat)
    requires j <= k
    ensures Repeated(period, j) <= Repeated(period, k) && |Repeated(period, j)| == j * |period|
  {
    RepeatedAdd(period, j, k - j);
    RepeatedLength(period, j);
  }

  // Emitting the whole period takes one fill, because no element starts after pb.
  lemma {:induction false} FillsPeriod(pl: Plan, i: nat, p: nat)
    requires pl.Valid() && 1 <= i <= p + 1
    ensures FillEnd(pl, i, |pl.Body(1, i - 1)|, |pl.Body(1, p)|, p) == p + 1
    decreases p + 1 - i
  {
    BodyPrefix(pl, i - 1, p);
    if i <= p {
      FillsPeriod(pl, i + 1, p);
      assert pl.Body(1, i) == pl.Body(1, i - 1) + pl.Piece(i);
    }
  }

  lemma RepeatedOnce(s: seq<byte>)
    ensures Repeated(s, 1) == s
  {
    assert Repeated(s, 0) + s == s;
  }

  lemma RepeatedMore(s: seq<byte>, j: nat)
    ensures Repeated(s, j + 1) == Repeated(s, j) + s
  {
  }

  // The reused chunk: k copies of the period, then room for one element.
  method NewChunk(pl: Plan, p: nat, pb: nat, k: nat) returns (chunk: array<byte>)
    requires Countable(pl) && 1 <= p <= pl.n && pb == |pl.Body(1, p)| && k >= 1
    ensures fresh(chunk) && k * pb <= chunk.Length && chunk[..k * pb] == Repeated(pl.Body(1, p), k)
  {
    MulMonotone(1, k, pb);
    chunk := new byte[k * pb + MaxElem(pl)];
    var g := new Gen(pl, 1);
    FillsPeriod(pl, 1, p);
    assert pl.Body(1, 0) == [];
    hide Rule.Plan.Body, IsNext, FillEnd, Countable, DecimalCounter.Shows, Rule.Plan.Valid, MaxElem, Repeated;
    var pos := g.Fill(chunk, 0, pb, p);
    assert [] + pl.Body(1, p) == pl.Body(1, p);
    CopyPeriods(chunk, pl.Body(1, p), pb, k);
  }

  method CopyPeriods(chunk: array<byte>, ghost period: seq<byte>, pb: nat, k: nat)
    requires k >= 1 && pb <= k * pb <= chunk.Length && pb == |period| && chunk[..pb] == period
    modifies chunk
    ensures chunk[..k * pb] == Repeated(period, k)
  {
    hide Repeated;
    RepeatedOnce(period);
    for j := 1 to k
      invariant pb <= j * pb <= k * pb
      invariant chunk[..j * pb] == Repeated(period, j) && chunk[..pb] == period
    {
      assert (j + 1) * pb == j * pb + pb;
      MulMonotone(j + 1, k, pb);
      RepeatedMore(period, j);
      var m := CopyInto(chunk, j * pb, chunk[..pb]);
      assert chunk[..pb] == chunk[..j * pb][..pb];
    }
  }

  // The closure of writePeriodic. The bracket is in the chunk during the first write
  // only, so that later writes see the comma.
  method Emit(w: Writer, chunk: array<byte>, len: nat, first: bool) returns (m: nat, err: bool)
    requires len <= chunk.Length && (first && len > 0 ==> chunk[0] == COMMA)
    modifies w, chunk
    ensures chunk[..] == old(chunk[..])
    ensures var piece := if first then Opened(chunk[..len]) else chunk[..len];
      m <= len && (!err ==> m == len) && w.accepted == old(w.accepted) + piece[..m]
    ensures (w.reliable ==> !err) && w.failed == (old(w.failed) || err)
    ensures w.late == old(w.late) + (if old(w.failed) && len > 0 then 1 else 0)
  {
    if len == 0 {
      assert chunk[..0] == [];
      return 0, false;
    }
    if first {
      chunk[0] := OPEN;
      assert chunk[..len] == Opened(old(chunk[..len]));
    }
    m, err := w.Write(chunk[..len]);
    if first {
      chunk[0] := COMMA;
    }
  }

  // The same emission, as progress through the body of the whole response.
  method EmitNext(w: Writer, chunk: array<byte>, len: nat, ghost done: seq<byte>, first: bool,
                  ghost body: seq<byte>, ghost base: seq<byte>) returns (m: nat, err: bool)
    requires len <= chunk.Length && first == (done == []) && done + chunk[..len] <= body
    requires body != [] && body[0] == COMMA && w.accepted == base + (Opened(body) + [CLOSE])[..|done|]
    modifies w, chunk
    ensures chunk[..] == old(chunk[..])
    ensures m <= len && |done| + m <= |body| && (!err ==> m == len)
    ensures w.accepted == base + (Opened(body) + [CLOSE])[..|done| + m]
    ensures (w.reliable ==> !err) && w.failed == (old(w.failed) || err) && (!old(w.failed) ==> w.late == old(w.late))
  {
    ghost var piece := chunk[..len];
    NextPiece(done, piece, body);
    ghost var patched, before := Patched(done, piece), w.accepted;
    assert patched == if first then Opened(piece) else piece;
    m, err := Emit(w, chunk, len, first);
    assert w.accepted == before + patched[..m];
    Accepts(done, patched, body, base, m);
  }

  lemma Accepts(done: seq<byte>, patched: seq<byte>, body: seq<byte>, base: seq<byte>, m: nat)
    requires m <= |patched| && |done| <= |body|
    requires (Opened(body) + [CLOSE])[..|done|] + patched <= Opened(body) + [CLOSE]
    ensures |done| + m <= |body| + 1
    ensures base + (Opened(body) + [CLOSE])[..|done|] + patched[..m] == base + (Opened(body) + [CLOSE])[..|done| + m]
  {
    var whole := Opened(body) + [CLOSE];
    ExtendPrefix(whole[..|done|], patched, whole, m);
    assert base + whole[..|done|] + patched[..m] == base + (whole[..|done|] + patched[..m]);
  }

  lemma NextPiece(done: seq<byte>, piece: seq<byte>, body: seq<byte>)
    requires done + piece <= body && body != []
    ensures done == [] && piece != [] ==> piece[0] == body[0]
    ensures (Opened(body) + [CLOSE])[..|done|] + Patched(done, piece) <= Opened(body) + [CLOSE]
    ensures |Patched(done, piece)| == |piece|
  {
    assert done == [] && piece != [] ==> (done + piece)[0] == piece[0];
    ChunkAppends(done, piece, [], body);
    assert Patched(done, piece) + [] == Patched(done, piece);
    assert (Opened(body) + [CLOSE])[..|done|] == Opened(done);
  }

  // What the loop over the chunk keeps: the periods already emitted.
  ghost predicate Emitting(pl: Plan, done: seq<byte>, emitted: int, first: bool, written: int)
    requires pl.Valid()
  {
    && 0 <= emitted <= pl.n / Period(pl)
    && done == Repeated(pl.Body(1, Period(pl)), emitted)
    && first == (done == []) && written == |done|
  }

  lemma EmitMore(pl: Plan, done: seq<byte>, emitted: int, first: bool, written: int, j: nat)
    requires pl.Valid() && Min(pl.a, pl.b) == 1 && Emitting(pl, done, emitted, first, written)
    requires emitted + j <= pl.n / Period(pl)
    ensures var piece := Repeated(pl.Body(1, Period(pl)), j);
      && done + piece <= pl.Body(1, pl.n)
      && |piece| == j * |pl.Body(1, Period(pl))|
      && Emitting(pl, done + piece, emitted + j, first && j == 0, written + |piece|)
  {
    var period := pl.Body(1, Period(pl));
    BodyOfPeriods(pl);
    BodyNotEmpty(pl, 1, Period(pl));
    RepeatedAdd(period, emitted, j);
    RepeatedLength(period, j);
    ChunkPrefix(period, emitted + j, pl.n / Period(pl));
    if j > 0 {
      MulMonotone(1, j, |period|);
    }
  }

  lemma FirstComma(pl: Plan, hi: int)
    requires pl.Valid() && hi >= 1
    ensures pl.Body(1, hi) != [] && pl.Body(1, hi)[0] == COMMA
  {
    pl.BodyFirst(1, hi);
  }

  // Writes j periods from the chunk.
  method EmitPeriods(w: Writer, chunk: array<byte>, pl: Plan, k: nat, j: nat, pb: nat, first: bool, written: int,
                     ghost done: seq<byte>, ghost emitted: int, ghost base: seq<byte>)
    returns (m: nat, err: bool, ghost more: seq<byte>)
    requires pl.Valid() && Min(pl.a, pl.b) == 1 && Emitting(pl, done, emitted, first, written)
    requires j <= k && emitted + j <= pl.n / Period(pl) && pb == |pl.Body(1, Period(pl))|
    requires k * pb <= chunk.Length && chunk[..k * pb] == Repeated(pl.Body(1, Period(pl)), k)
    requires |done| <= |Whole(pl)| && w.accepted == base + Whole(pl)[..written]
    modifies w, chunk
    ensures chunk[..] == old(chunk[..])
    ensures 0 <= written + m <= |Whole(pl)| && w.accepted == base + Whole(pl)[..written + m]
    ensures !err ==> Emitting(pl, more, emitted + j, first && j == 0, written + m)
    ensures (w.reliable ==> !err) && w.failed == (old(w.failed) || err) && (!old(w.failed) ==> w.late == old(w.late))
  {
    ghost var period := pl.Body(1, Period(pl));
    EmitMore(pl, done, emitted, first, written, j);
    ChunkPrefix(period, j, k);
    FirstComma(pl, pl.n);
    hide Rule.Plan.Body, Rule.Plan.Valid, Opened, Patched, Repeated;
    MulMonotone(j, k, pb);
    assert chunk[..j * pb] == chunk[..k * pb][..j * pb] == Repeated(period, j);
    more := done + Repeated(period, j);
    m, err := EmitNext(w, chunk, j * pb, done, first, pl.Body(1, pl.n), base);
  }

  // The loop over whole periods, k at a time, and the periods left over.
  method WritePeriods(w: Writer, pl: Plan, chunk: array<byte>, k: nat, pb: nat)
    returns (written: int, err: bool, first: bool, ghost done: seq<byte>)
    requires pl.Valid() && Min(pl.a, pl.b) == 1 && 1 <= k <= pl.n / Period(pl) && pb == |pl.Body(1, Period(pl))|
    requires k * pb <= chunk.Length && chunk[..k * pb] == Repeated(pl.Body(1, Period(pl)), k)
    modifies w, chunk
    ensures chunk[..] == old(chunk[..])
    ensures 0 <= written <= |Whole(pl)| && w.accepted == old(w.accepted) + Whole(pl)[..written]
    ensures !err ==> Emitting(pl, done, pl.n / Period(pl), first, written)
    ensures (w.reliable ==> !err) && (!old(w.failed) ==> w.failed == err && w.late == old(w.late))
  {
    EmittingStarts(pl);
    hide Rule.Plan.Body, Rule.Plan.Valid, Whole, Repeated, Emitting, Period;
    ghost var base, total, all := w.accepted, pl.n / Period(pl), chunk[..];
    assert all[..k * pb] == Repeated(pl.Body(1, Period(pl)), k);
    assert base + Whole(pl)[..0] == base;
    var periods := pl.n / Period(pl);
    written, err, first, done := 0, false, true, [];
    while periods >= k
      invariant 0 <= periods <= total && !err && chunk[..] == all
      invariant Emitting(pl, done, total - periods, first, written)
      invariant 0 <= written <= |Whole(pl)| && w.accepted == base + Whole(pl)[..written]
      invariant !old(w.failed) ==> !w.failed && w.late == old(w.late)
    {
      assert chunk[..k * pb] == all[..k * pb];
      var m;
      m, err, done := EmitPeriods(w, chunk, pl, k, k, pb, first, written, done, total - periods, base);
      written := written + m;
      if err {
        return;
      }
      first, periods := false, periods - k;
    }
    assert chunk[..k * pb] == all[..k * pb];
    var m;
    m, err, done := EmitPeriods(w, chunk, pl, k, periods, pb, first, written, done, total - periods, base);
    written, first := written + m, first && periods == 0;
  }

  lemma EmittingStarts(pl: Plan)
    requires pl.Valid()
    ensures Emitting(pl, [], 0, true, 0)
  {
  }

  // The elements after the last full period are the start of the chunk.
  lemma PartialPeriod(pl: Plan, k: nat, chunk: seq<byte>)
    requires pl.Valid() && Min(pl.a, pl.b) == 1 && k >= 1
    requires Repeated(pl.Body(1, Period(pl)), k) <= chunk
    ensures var rest := pl.Body(1, pl.n % Period(pl));
      && rest <= chunk && |rest| <= |pl.Body(1, pl.n)|
      && Repeated(pl.Body(1, Period(pl)), pl.n / Period(pl)) + rest == pl.Body(1, pl.n)
  {
    BodyOfPeriods(pl);
    RepeatedOnce(pl.Body(1, Period(pl)));
    ChunkPrefix(pl.Body(1, Period(pl)), 1, k);
  }

  // Writes the partial period and the closing bracket.
  method WriteRest(w: Writer, pl: Plan, chunk: array<byte>, len: nat, first: bool, before: int,
                   ghost done: seq<byte>, ghost base: seq<byte>)
    returns (written: int, err: bool)
    requires pl.Valid() && Emitting(pl, done, pl.n / Period(pl), first, before)
    requires len <= chunk.Length && done + chunk[..len] == pl.Body(1, pl.n)
    requires |done| <= |Whole(pl)| && w.accepted == base + Whole(pl)[..before]
    modifies w, chunk
    ensures 0 <= written <= |Whole(pl)| && w.accepted == base + Whole(pl)[..written]
    ensures (!err ==> written == |Whole(pl)|) && (w.reliable ==> !err)
    ensures !old(w.failed) ==> w.failed == err && w.late == old(w.late)
  {
    FirstComma(pl, pl.n);
    WholeSize(pl);
    hide Rule.Plan.Body, Rule.Plan.Valid, Opened, Patched, Repeated;
    var m;
    m, err := EmitNext(w, chunk, len, done, first, pl.Body(1, pl.n), base);
    written := before + m;
    if err {
      return;
    }
    LastByte(Whole(pl));
    m, err := w.Write([CLOSE]);
    assert [CLOSE][..0] == [] && [CLOSE][..1] == [CLOSE];
    assert base + Whole(pl)[..written] + [CLOSE] == base + (Whole(pl)[..written] + [CLOSE]);
    written := written + m;
  }

  lemma LastByte(whole: seq<byte>)
    requires whole != [] && whole[|whole| - 1] == CLOSE
    ensures whole[..|whole| - 1] + [CLOSE] == whole == whole[..|whole|]
  {
  }

  // Periods are written k at a time from one chunk, then the rest of them, then
  // a prefix of one more, then the closing bracket.
  method WritePeriodic(w: Writer, pl: Plan) returns (written: int64, err: bool)
    requires Countable(pl) && Min(pl.a, pl.b) == 1 && |Whole(pl)| <= MAX_INT
    requires |pl.Body(1, Period(pl))| <= STREAM_BUF
    modifies w
    ensures Delivered(w, Whole(pl), written, err)
  {
    WholeSize(pl);
    var pb, k, chunk := PeriodChunk(pl);
    BodyPrefix(pl, pl.n % Period(pl), pl.n);
    hide Rule.Plan.Body, Rule.Plan.Valid, Whole, Repeated, Emitting, Period, Countable;
    var before, first;
    ghost var done;
    before, err, first, done := WritePeriods(w, pl, chunk, k, pb);
    if err {
      return before, err;
    }
    PartialPeriod(pl, k, chunk[..]);
    var rest, _ := RangeBytes(pl, 1, pl.n % Period(pl));
    EmittingDone(pl, done, first, before);
    written, err := WriteRest(w, pl, chunk, rest, first, before, done, old(w.accepted));
  }

  // As many periods as the stream buffer and the limit allow, at least one.
  method PeriodChunk(pl: Plan) returns (pb: int, k: int, chunk: array<byte>)
    requires Countable(pl) && Min(pl.a, pl.b) == 1 && |pl.Body(1, Period(pl))| <= STREAM_BUF
    ensures pb == |pl.Body(1, Period(pl))| && 1 <= k <= pl.n / Period(pl) && fresh(chunk)
    ensures 0 <= k * pb <= chunk.Length && chunk[..k * pb] == Repeated(pl.Body(1, Period(pl)), k)
  {
    BodyNotEmpty(pl, 1, Period(pl));
    hide Rule.Plan.Body, Rule.Plan.Valid, Repeated;
    var size, _ := RangeBytes(pl, 1, Period(pl));
    pb := size;
    k := Min(STREAM_BUF / pb, pl.n / Period(pl));
    chunk := NewChunk(pl, Period(pl), pb, k);
  }

  lemma EmittingDone(pl: Plan, done: seq<byte>, first: bool, written: int)
    requires pl.Valid() && Emitting(pl, done, pl.n / Period(pl), first, written)
    ensures done == Repeated(pl.Body(1, Period(pl)), pl.n / Period(pl)) && written == |done|
  {
  }

  // Both paths together. Delivered says what w has when it fails; pool may hold
  // anything.
  method WriteJSON(w: Writer, p: Params, pool: array<byte>) returns (written: int64, err: bool)
    requires HasDivisors(p) && p.int1 <= MAX_INT && p.int2 <= MAX_INT && 1 <= p.limit <= MAX_COUNT && SizeFits(p)
    modifies w, pool
    ensures Delivered(w, Response(p, p.limit), written, err)
  {
    var pl := NewPlan(p);
    ResponseIsBody(p, pl, p.limit);
    BodyPrefix(pl, Period(pl), pl.n);
    if Min(pl.a, pl.b) == 1 {
      var size, _ := RangeBytes(pl, 1, Min(Max(pl.a, pl.b), pl.n));
      if size <= STREAM_BUF {
        written, err := WritePeriodic(w, pl);
        return;
      }
    }
    written, err := WriteGeneral(w, pl, pool);
  }
}
