// The exact size of a response in closed form, and the plan it is computed from.
module Size {
  import opened Bytes
  import Decimal
  import opened Utf8
  import opened JsonText
  import opened Rule
  import opened Arithmetic

  type int64 = x: int | -0x8000_0000_0000_0000 <= x <= MAX_INT

  function Concat(parts: seq<seq<byte>>): seq<byte> {
    if parts == [] then [] else Concat(parts[..|parts| - 1]) + parts[|parts| - 1]
  }

  predicate AllPlain(parts: seq<seq<byte>>) {
    forall j, k :: 0 <= j < |parts| && 0 <= k < |parts[j]| ==> Plain(parts[j][k])
  }

  lemma {:induction false} ConcatPlain(parts: seq<seq<byte>>)
    requires AllPlain(parts)
    ensures forall k :: 0 <= k < |Concat(parts)| ==> Plain(Concat(parts)[k])
  {
    if parts != [] {
      ConcatPlain(parts[..|parts| - 1]);
    }
  }

  method ArePlain(parts: seq<seq<byte>>) returns (plain: bool)
    ensures plain ==> AllPlain(parts)
  {
    plain := true;
    for j := 0 to |parts|
      invariant plain ==> AllPlain(parts[..j])
    {
      var s := parts[j];
      for k := 0 to |s|
        invariant plain ==> AllPlain(parts[..j])
        invariant plain ==> forall i :: 0 <= i < k ==> Plain(s[i])
      {
        if !Plain(s[k]) {
          plain := false;
        }
      }
    }
    assert parts[..|parts|] == parts;
  }

  lemma QuotePlain(dst: seq<byte>, parts: seq<seq<byte>>)
    requires AllPlain(parts)
    ensures dst + [COMMA] + [QUOTE] + Concat(parts) + [QUOTE] == dst + [COMMA] + Quote(Concat(parts))
  {
    ConcatPlain(parts);
    EscapePlain(Concat(parts));
  }

  // Plain text is copied, anything else goes through the JSON encoder.
  method AppendElem(dst: seq<byte>, parts: seq<seq<byte>>) returns (r: seq<byte>)
    ensures r == dst + [COMMA] + Quote(Concat(parts))
  {
    var plain := ArePlain(parts);
    r := dst + [COMMA];
    if !plain {
      return r + Quote(Concat(parts));
    }
    QuotePlain(dst, parts);
    r := r + [QUOTE];
    ghost var head := r;
    for j := 0 to |parts|
      invariant r == head + Concat(parts[..j])
    {
      assert parts[..j + 1][..j] == parts[..j];
      r := r + parts[j];
    }
    assert parts[..|parts|] == parts;
    r := r + [QUOTE];
  }

  lemma ConcatParts(s: seq<byte>, t: seq<byte>)
    ensures Concat([s]) == s && Concat([s, t]) == s + t
  {
    assert [s][..0] == [];
    assert [s, t][..1] == [s];
  }

  lemma SliceThree(x: seq<byte>, y: seq<byte>, z: seq<byte>, buf: seq<byte>)
    requires buf == x + y + z
    ensures buf[..|x|] == x && buf[|x|..|x| + |y|] == y && buf[|x| + |y|..] == z
  {
  }

  lemma GroupThree(q1: seq<byte>, q2: seq<byte>, q12: seq<byte>)
    ensures [] + [COMMA] + q1 + [COMMA] + q2 + [COMMA] + q12 == ([COMMA] + q1) + ([COMMA] + q2) + ([COMMA] + q12)
  {
  }

  // The three replacements, encoded in one buffer and cut out of it.
  method EncodeAll(s: seq<byte>, t: seq<byte>) returns (e1: seq<byte>, e2: seq<byte>, e12: seq<byte>)
    ensures e1 == [COMMA] + Quote(s) && e2 == [COMMA] + Quote(t) && e12 == [COMMA] + Quote(s + t)
  {
    ConcatParts(s, t);
    ConcatParts(t, t);
    GroupThree(Quote(s), Quote(t), Quote(s + t));
    hide Quote, Concat;
    var buf := AppendElem([], [s]);
    var i1 := |buf|;
    buf := AppendElem(buf, [t]);
    var i2 := |buf|;
    buf := AppendElem(buf, [s, t]);
    SliceThree([COMMA] + Quote(s), [COMMA] + Quote(t), [COMMA] + Quote(s + t), buf);
    e1, e2, e12 := buf[..i1], buf[i1..i2], buf[i2..];
  }

  method NewPlan(p: Params) returns (pl: Plan)
    requires HasDivisors(p) && p.limit >= 1
    ensures pl.Encodes(p)
  {
    hide Quote, IsCappedLcm;
    var l := LcmCapped(p.int1, p.int2, p.limit);
    var e1, e2, e12 := EncodeAll(p.str1, p.str2);
    pl := Plan(p.int1, p.int2, p.limit, l, e1, e2, e12);
  }

  // How many elements of a range fall in each class, one element at a time.
  datatype Tally = Tally(only1: nat, only2: nat, both: nat, plain: nat, plainBytes: nat)

  function Count(pl: Plan, lo: nat, hi: int): (t: Tally)
    requires pl.Valid()
    decreases hi
  {
    if hi < lo then Tally(0, 0, 0, 0, 0)
    else
      var t := Count(pl, lo, hi - 1);
      if hi % pl.a == 0 && hi % pl.b == 0 then t.(both := t.both + 1)
      else if hi % pl.a == 0 then t.(only1 := t.only1 + 1)
      else if hi % pl.b == 0 then t.(only2 := t.only2 + 1)
      else t.(plain := t.plain + 1, plainBytes := t.plainBytes + |pl.Number(hi)|)
  }

  function Between(lo: int, hi: int, m: int): int
    requires m >= 0
  {
    Multiples(hi, m) - Multiples(lo - 1, m)
  }

  // Inclusion-exclusion: the quotients count the classes exactly.
  lemma {:induction false} ClosedForm(pl: Plan, lo: nat, hi: int)
    requires pl.Valid() && 1 <= lo <= hi + 1 && hi <= pl.n
    ensures var t := Count(pl, lo, hi);
      && t.both == Between(lo, hi, pl.l)
      && t.only1 == Between(lo, hi, pl.a) - t.both
      && t.only2 == Between(lo, hi, pl.b) - t.both
      && t.plain == hi - lo + 1 - Between(lo, hi, pl.a) - Between(lo, hi, pl.b) + t.both
    decreases hi
  {
    if lo <= hi {
      ClosedForm(pl, lo, hi - 1);
      assert SameMultiples(pl.a, pl.b, pl.l, hi);
      MultiplesStep(hi, pl.a);
      MultiplesStep(hi, pl.b);
      if pl.l != 0 { MultiplesStep(hi, pl.l); }
    }
  }

  lemma {:induction false} BodyLength(pl: Plan, lo: nat, hi: int)
    requires pl.Valid()
    ensures var t := Count(pl, lo, hi);
      |pl.Body(lo, hi)| == t.only1 * |pl.e1| + t.only2 * |pl.e2| + t.both * |pl.e12| + t.plainBytes
    decreases hi
  {
    if lo <= hi {
      BodyLength(pl, lo, hi - 1);
      Distribute(Count(pl, lo, hi - 1).only1, |pl.e1|);
      Distribute(Count(pl, lo, hi - 1).only2, |pl.e2|);
      Distribute(Count(pl, lo, hi - 1).both, |pl.e12|);
    }
  }

  lemma Distribute(k: int, c: int)
    ensures (k + 1) * c == k * c + c
  {
  }

  lemma {:induction false} CountSplit(pl: Plan, lo: nat, mid: int, hi: int)
    requires pl.Valid() && lo - 1 <= mid <= hi
    ensures Count(pl, lo, hi).plainBytes == Count(pl, lo, mid).plainBytes + Count(pl, mid + 1, hi).plainBytes
    decreases hi
  {
    if mid < hi {
      CountSplit(pl, lo, mid, hi - 1);
    }
  }

  // In one decimal band every plain number has the same width.
  lemma {:induction false} BandBytes(pl: Plan, d: nat, x: nat, y: int)
    requires pl.Valid() && d >= 1 && Decimal.Pow10(d - 1) <= x && y < Decimal.Pow10(d)
    ensures var t := Count(pl, x, y); t.plainBytes == t.plain * (d + 3)
    decreases y
  {
    if x <= y {
      BandBytes(pl, d, x, y - 1);
      Decimal.TextLength(y, d);
      Distribute(Count(pl, x, y - 1).plain, d + 3);
    }
  }

  function Min(x: int, y: int): int { if x <= y then x else y }

  function Max(x: int, y: int): int { if x <= y then y else x }

  // The plain numbers of lo..hi up to m.
  function PlainUpTo(pl: Plan, lo: nat, hi: int, m: int): (r: nat)
    requires pl.Valid()
  {
    Count(pl, lo, Min(hi, m)).plainBytes
  }

  // The plain numbers x..y of the d-digit band, as the formula counts them.
  function BandShare(pl: Plan, d: int, x: int, y: int): int
    requires pl.Valid()
  {
    var plain := (y - x + 1) - Between(x, y, pl.a) - Between(x, y, pl.b) + Between(x, y, pl.l);
    plain * (d + 3)
  }

  // One band adds its share of the plain numbers.
  lemma BandStep(pl: Plan, lo: nat, hi: int, d: nat, bandLo: int, bandHi: int)
    requires pl.Valid() && 1 <= lo <= hi <= pl.n && d >= 1
    requires bandLo == Decimal.Pow10(d - 1) && bandHi < Decimal.Pow10(d) && bandLo <= hi && bandLo <= bandHi
    ensures var x, y := Max(lo, bandLo), Min(hi, bandHi);
      var share := if x <= y then BandShare(pl, d, x, y) else 0;
      && share >= 0
      && PlainUpTo(pl, lo, hi, bandHi) == PlainUpTo(pl, lo, hi, bandLo - 1) + share
  {
    var x, y := Max(lo, bandLo), Min(hi, bandHi);
    if x <= y {
      ClosedForm(pl, x, y);
      BandBytes(pl, d, x, y);
      CountSplit(pl, lo, x - 1, y);
      assert bandLo < lo ==> PlainUpTo(pl, lo, hi, bandLo - 1) == Count(pl, lo, x - 1).plainBytes;
    }
  }

  lemma PlainWithin(pl: Plan, lo: nat, hi: int, m: int)
    requires pl.Valid() && 1 <= lo <= hi <= pl.n
    ensures PlainUpTo(pl, lo, hi, m) <= Count(pl, lo, hi).plainBytes
  {
    if lo <= m < hi {
      CountSplit(pl, lo, m, hi);
    }
  }

  lemma BandEnd(d: nat, bandLo: int)
    requires d >= 1 && bandLo == Decimal.Pow10(d - 1)
    ensures Decimal.Pow10(d) == 10 * bandLo
  {
  }

  lemma MulNotNegative(x: nat, y: nat)
    ensures x * y >= 0
  {
  }

  lemma ReplacedTerms(pl: Plan, lo: nat, hi: int)
    requires pl.Valid() && 1 <= lo <= hi <= pl.n
    ensures var c12 := Between(lo, hi, pl.l);
      var t1, t2, t12 := (Between(lo, hi, pl.a) - c12) * |pl.e1|, (Between(lo, hi, pl.b) - c12) * |pl.e2|, c12 * |pl.e12|;
      && t1 >= 0 && t2 >= 0 && t12 >= 0
      && t1 + t2 + t12 == |pl.Body(lo, hi)| - Count(pl, lo, hi).plainBytes
  {
    ClosedForm(pl, lo, hi);
    BodyLength(pl, lo, hi);
    var t := Count(pl, lo, hi);
    MulNotNegative(t.only1, |pl.e1|);
    MulNotNegative(t.only2, |pl.e2|);
    MulNotNegative(t.both, |pl.e12|);
  }

  method ReplacedBytes(pl: Plan, lo: int, hi: int) returns (total: int64)
    requires pl.Valid() && 1 <= lo <= hi <= pl.n <= MAX_INT
    requires |pl.Body(lo, hi)| <= MAX_INT
    ensures 0 <= total == |pl.Body(lo, hi)| - Count(pl, lo, hi).plainBytes
  {
    ReplacedTerms(pl, lo, hi);
    var c1 := Between(lo, hi, pl.a);
    var c2 := Between(lo, hi, pl.b);
    var c12 := Between(lo, hi, pl.l);
    var t1: int64 := (c1 - c12) * |pl.e1|;
    var t2: int64 := (c2 - c12) * |pl.e2|;
    var t12: int64 := c12 * |pl.e12|;
    total := t1 + t2 + t12;
  }

  // The size of elements lo..hi, with no loop over the elements: the loop runs
  // once for each decimal band up to hi. Every int64 stays in range.
  method RangeBytes(pl: Plan, lo: int, hi: int) returns (total: int64, ghost bands: nat)
    requires pl.Valid() && 1 <= lo && hi <= pl.n <= MAX_INT
    requires |pl.Body(lo, hi)| <= MAX_INT
    ensures total == |pl.Body(lo, hi)|
    ensures bands > 0 ==> Decimal.Pow10(bands - 1) <= hi
  {
    bands := 0;
    if lo > hi {
      return 0, 0;
    }
    total := ReplacedBytes(pl, lo, hi);
    ghost var replaced := total;
    var bandLo: int64 := 1;
    var d := 1;
    while bandLo <= hi
      invariant d >= 1 && bandLo == Decimal.Pow10(d - 1)
      invariant bands == d - 1 && (bands > 0 ==> Decimal.Pow10(bands - 1) <= hi)
      invariant total == replaced + PlainUpTo(pl, lo, hi, bandLo - 1)
      decreases hi - bandLo
    {
      var bandHi: int64 := MAX_INT;
      if bandLo <= MAX_INT / 10 {
        bandHi := bandLo * 10 - 1;
      }
      BandEnd(d, bandLo);
      BandStep(pl, lo, hi, d, bandLo, bandHi);
      PlainWithin(pl, lo, hi, bandHi);
      assert replaced + PlainUpTo(pl, lo, hi, bandHi) <= |pl.Body(lo, hi)|;
      var x, y := Max(lo, bandLo), Min(hi, bandHi);
      if x <= y {
        var share: int64 := BandShare(pl, d, x, y);
        total := total + share;
      }
      bands := d;
      if bandHi == MAX_INT {
        break;
      }
      bandLo := bandHi + 1;
      d := d + 1;
    }
  }

  lemma {:induction false} EscapeAtMost(s: seq<byte>)
    ensures |Escape(s)| <= 6 * |s|
  {
    if s != [] {
      var n := RuneLength(s);
      EscapeAtMost(if n == 0 then s[1..] else s[n..]);
    }
  }

  // The width of an encoded element with its comma.
  function Width(p: Params, i: nat): nat
    requires HasDivisors(p)
  {
    |Quote(Element(p, i))| + 1
  }

  lemma ResponseStep(p: Params, n: nat)
    requires HasDivisors(p) && n >= 1
    ensures |Response(p, n)| == |Response(p, n - 1)| + Width(p, n) - (if n == 1 then 1 else 0)
  {
    JoinSnoc(Reference(p, n - 1), Element(p, n));
  }

  lemma {:induction false} ResponseAtMost(p: Params, n: nat, width: nat)
    requires HasDivisors(p) && forall i :: 1 <= i <= n ==> Width(p, i) <= width
    ensures |Response(p, n)| <= n * width + 2
    ensures n >= 1 ==> |Response(p, n)| <= n * width + 1
  {
    if n >= 1 {
      ResponseAtMost(p, n - 1, width);
      ResponseStep(p, n);
      hide *;
      assert Width(p, n) <= width;
      Distribute(n - 1, width);
    }
  }

  // The sizes for which the int64 arithmetic is exact.
  predicate SizeFits(p: Params)
    requires HasDivisors(p)
  {
    p.limit <= MAX_INT && (p.limit >= 1 ==> |Response(p, p.limit)| <= MAX_INT)
  }

  lemma NumberWidth(i: nat)
    requires i <= MAX_INT
    ensures |Quote(Decimal.Text(i))| <= 21
  {
    EscapePlain(Decimal.Text(i));
    Decimal.Int64TextLength(i);
  }

  // A limit below 2^32 and encoded elements below 2^31 bytes never leave int64,
  // with room to round the size up to whole MiB.
  lemma SizeNeverOverflows(p: Params)
    requires HasDivisors(p) && p.limit <= 0xffff_ffff
    requires |Quote(p.str1)| + 1 < 0x8000_0000 && |Quote(p.str2)| + 1 < 0x8000_0000
    requires |Quote(p.str1 + p.str2)| + 1 < 0x8000_0000
    ensures SizeFits(p) && (p.limit >= 1 ==> |Response(p, p.limit)| <= MAX_INT - 0xf_ffff)
  {
    if p.limit >= 1 {
      forall i: nat | 1 <= i <= p.limit
        ensures Width(p, i) <= 0x7fff_ffff
      {
        NumberWidth(i);
      }
      ResponseAtMost(p, p.limit, 0x7fff_ffff);
    }
  }

  // Every byte escapes to at most six.
  lemma ShortStringsFit(p: Params, maxStrBytes: int)
    requires HasDivisors(p) && |p.str1| <= maxStrBytes && |p.str2| <= maxStrBytes && 12 * maxStrBytes + 3 < 0x8000_0000
    ensures |Quote(p.str1)| + 1 < 0x8000_0000 && |Quote(p.str2)| + 1 < 0x8000_0000
    ensures |Quote(p.str1 + p.str2)| + 1 < 0x8000_0000
  {
    EscapeAtMost(p.str1);
    EscapeAtMost(p.str2);
    EscapeAtMost(p.str1 + p.str2);
  }

  method JSONSize(p: Params) returns (size: int64)
    requires HasDivisors(p) && SizeFits(p)
    ensures p.limit <= 0 ==> size == 2 == |Marshal([])|
    ensures p.limit >= 1 ==> size == |Response(p, p.limit)|
  {
    if p.limit <= 0 {
      return 2;
    }
    var pl := NewPlan(p);
    ResponseIsBody(p, pl, p.limit);
    var bytes, _ := RangeBytes(pl, 1, p.limit);
    size := bytes + 1;
  }
}
