// Request validation by exact response size, and the largest limit that fits.
module Validation {
  import opened Bytes
  import Decimal
  import opened Utf8
  import opened JsonText
  import opened Options
  import opened Rule
  import opened Size

  datatype Limits = Limits(maxLimit: int, maxStrBytes: int, maxResponseBytes: int64)

  const DEFAULT_LIMITS := Limits(10_000_000, 1024, 256 * 0x10_0000)

  // A longer response is strictly larger, although each one is computed from
  // its own plan.
  lemma ResponseGrows(p: Params, n: nat)
    requires HasDivisors(p)
    ensures |Response(p, n)| < |Response(p, n + 1)|
  {
    JoinSnoc(Reference(p, n), Element(p, n + 1));
  }

  lemma {:induction false} ResponseMonotone(p: Params, m: nat, n: nat)
    requires HasDivisors(p) && m <= n
    ensures |Response(p, m)| <= |Response(p, n)|
    ensures m < n ==> |Response(p, m)| < |Response(p, n)|
    decreases n
  {
    hide *;
    if m < n {
      ResponseMonotone(p, m, n - 1);
      ResponseGrows(p, n - 1);
    }
  }

  // The response does not depend on the limit of the request, only on n.
  lemma {:induction false} LimitIrrelevant(p: Params, limit: int, n: nat)
    requires HasDivisors(p)
    ensures Reference(p.(limit := limit), n) == Reference(p, n)
  {
    if n > 0 {
      LimitIrrelevant(p, limit, n - 1);
    }
  }

  function Pow2(k: nat): (r: nat)
    ensures r >= 1
  {
    if k == 0 then 1 else 2 * Pow2(k - 1)
  }

  // Each probe halves the range, so the probes are bounded by a logarithm.
  ghost predicate FewProbes(probes: nat, width: nat, limit: nat) {
    Pow2(probes) * width <= limit && (probes > 0 ==> Pow2(probes - 1) <= limit)
  }

  lemma HalveRange(probes: nat, width: nat, half: nat, limit: nat)
    requires FewProbes(probes, width, limit) && width >= 1 && 2 * half <= width
    ensures FewProbes(probes + 1, half, limit)
  {
    var pow := Pow2(probes);
    assert pow * 1 <= pow * width;
    assert pow * (2 * half) <= pow * width;
    assert (2 * pow) * half == pow * (2 * half);
  }

  lemma {:induction false} Pow2Grows(j: nat, k: nat)
    requires j <= k
    ensures Pow2(j) <= Pow2(k)
  {
    if j < k {
      Pow2Grows(j, k - 1);
    }
  }

  // The default maximum limit takes at most 24 probes.
  lemma ProbesAtMost(probes: nat, limit: int)
    requires probes > 0 ==> Pow2(probes - 1) <= limit
    ensures limit <= 10_000_000 ==> probes <= 24
  {
    assert Pow2(8) == 256;
    assert Pow2(16) == 65_536;
    assert Pow2(24) == 16_777_216;
    if probes > 24 {
      Pow2Grows(24, probes - 1);
    }
  }

  // All limits in lo..hi fit, or none of them does.
  ghost predicate AllFit(p: Params, lo: int, hi: int, maxBytes: int)
    requires HasDivisors(p)
  {
    forall k :: 1 <= k && lo <= k <= hi ==> |Response(p, k)| <= maxBytes
  }

  ghost predicate NoneFits(p: Params, lo: int, hi: int, maxBytes: int)
    requires HasDivisors(p)
  {
    forall k :: 1 <= k && lo <= k <= hi ==> |Response(p, k)| > maxBytes
  }

  lemma ProbeDecides(p: Params, k: nat, maxBytes: int)
    requires HasDivisors(p) && k >= 1
    ensures |Response(p, k)| <= maxBytes ==> AllFit(p, 1, k, maxBytes)
    ensures |Response(p, k)| > maxBytes ==> NoneFits(p, k, p.limit, maxBytes)
  {
    forall j: nat
      ensures j <= k ==> |Response(p, j)| <= |Response(p, k)|
      ensures k <= j ==> |Response(p, k)| <= |Response(p, j)|
    {
      if j <= k {
        ResponseMonotone(p, j, k);
      } else {
        ResponseMonotone(p, k, j);
      }
    }
  }

  // JSONSize of the request with another limit.
  method Probe(p: Params, limit: int) returns (size: int64)
    requires HasDivisors(p) && SizeFits(p) && 1 <= limit <= p.limit
    ensures size == |Response(p, limit)|
  {
    LimitIrrelevant(p, limit, limit);
    ResponseMonotone(p, limit, p.limit);
    size := JSONSize(p.(limit := limit));
  }

  lemma SearchStarts(p: Params, maxBytes: int)
    requires HasDivisors(p) && p.limit >= 1
    ensures AllFit(p, 1, 0, maxBytes) && NoneFits(p, p.limit + 1, p.limit, maxBytes) && FewProbes(0, p.limit, p.limit)
  {
  }

  lemma SearchEnds(p: Params, m: int, maxBytes: int, probes: nat)
    requires HasDivisors(p) && p.limit >= 1 && AllFit(p, 1, m, maxBytes) && NoneFits(p, m + 1, p.limit, maxBytes)
    requires FewProbes(probes, 0, p.limit)
    ensures forall k :: 1 <= k <= p.limit ==> (|Response(p, k)| <= maxBytes <==> k <= m)
    ensures probes > 0 ==> Pow2(probes - 1) <= p.limit
  {
  }

  // sort.Search over the limits, with one JSONSize call for each probe.
  method LargestLimit(p: Params, maxBytes: int64) returns (m: int, ghost probes: nat)
    requires HasDivisors(p) && SizeFits(p)
    ensures 0 <= m && (m <= p.limit || m == 0)
    ensures forall k :: 1 <= k <= p.limit ==> (|Response(p, k)| <= maxBytes <==> k <= m)
    ensures probes > 0 ==> Pow2(probes - 1) <= p.limit
    ensures p.limit <= 10_000_000 ==> probes <= 24
  {
    hide *;
    if p.limit <= 0 {
      return 0, 0;
    }
    probes := 0;
    SearchStarts(p, maxBytes);
    var i, j := 0, p.limit;
    while i < j
      invariant 0 <= i <= j <= p.limit
      invariant AllFit(p, 1, i, maxBytes) && NoneFits(p, j + 1, p.limit, maxBytes)
      invariant FewProbes(probes, j - i, p.limit)
      decreases j - i
    {
      var h := (i + j) / 2;
      var size := Probe(p, h + 1);
      ProbeDecides(p, h + 1, maxBytes);
      if size > maxBytes {
        HalveRange(probes, j - i, h - i, p.limit);
        j := h;
      } else {
        HalveRange(probes, j - i, j - (h + 1), p.limit);
        i := h + 1;
      }
      probes := probes + 1;
    }
    m := i;
    SearchEnds(p, m, maxBytes, probes);
    ProbesAtMost(probes, p.limit);
  }

  datatype Field = Int1 | Int2 | Limit | Str1 | Str2

  // TooLarge has both sizes in MiB and the limit that the message suggests.
  datatype Reason = BelowOne | NotInRange | Empty | TooLong | NotUtf8 | TooLarge(sizeMiB: int, maxMiB: int, suggested: Option<int>)

  datatype FieldError = FieldError(field: Field, reason: Reason)

  predicate StringAccepted(s: seq<byte>, maxBytes: int) {
    s != [] && |s| <= maxBytes && ValidUtf8(s)
  }

  predicate FieldsAccepted(p: Params, lim: Limits) {
    p.int1 >= 1 && p.int2 >= 1 && 1 <= p.limit <= lim.maxLimit &&
    StringAccepted(p.str1, lim.maxStrBytes) && StringAccepted(p.str2, lim.maxStrBytes)
  }

  // The size of an accepted request, rounded up to MiB, is an int64.
  predicate Supported(p: Params, lim: Limits) {
    FieldsAccepted(p, lim) ==> p.limit <= MAX_INT && |Response(p, p.limit)| <= MAX_INT - 0xf_ffff
  }

  lemma ShortElementsSupported(p: Params, lim: Limits)
    requires lim.maxLimit <= 0xffff_ffff
    requires |Quote(p.str1)| + 1 < 0x8000_0000 && |Quote(p.str2)| + 1 < 0x8000_0000
    requires |Quote(p.str1 + p.str2)| + 1 < 0x8000_0000
    ensures Supported(p, lim)
  {
    if FieldsAccepted(p, lim) {
      SizeNeverOverflows(p);
    }
  }

  // A configuration with this string limit supports every request.
  lemma ShortStringsSupported(p: Params, lim: Limits)
    requires lim.maxLimit <= 0xffff_ffff && 12 * lim.maxStrBytes + 3 < 0x8000_0000
    ensures Supported(p, lim)
  {
    if FieldsAccepted(p, lim) {
      ShortStringsFit(p, lim.maxStrBytes);
      ShortElementsSupported(p, lim);
    }
  }

  function ValidateStr(field: Field, s: seq<byte>, maxBytes: int): (err: Option<FieldError>)
    ensures err.None? <==> 1 <= |s| <= maxBytes && ValidUtf8(s)
    ensures err == Some(FieldError(field, Empty)) <==> s == []
    ensures err == Some(FieldError(field, TooLong)) <==> s != [] && |s| > maxBytes
    ensures err == Some(FieldError(field, NotUtf8)) <==> 1 <= |s| <= maxBytes && !ValidUtf8(s)
  {
    if s == [] then Some(FieldError(field, Empty))
    else if |s| > maxBytes then Some(FieldError(field, TooLong))
    else if !ValidUtf8(s) then Some(FieldError(field, NotUtf8))
    else None
  }

  // The fields are checked in the order of Field. Sizes are in whole MiB: enough
  // for the response, and within the maximum.
  method Validate(p: Params, lim: Limits) returns (err: Option<FieldError>)
    requires Supported(p, lim)
    ensures err.None? <==>
      && p.int1 >= 1 && p.int2 >= 1 && 1 <= p.limit <= lim.maxLimit
      && 1 <= |p.str1| <= lim.maxStrBytes && 1 <= |p.str2| <= lim.maxStrBytes && ValidUtf8(p.str1) && ValidUtf8(p.str2)
      && |Response(p, p.limit)| <= lim.maxResponseBytes
    ensures err == Some(FieldError(Int1, BelowOne)) <==> p.int1 < 1
    ensures err == Some(FieldError(Int2, BelowOne)) <==> p.int1 >= 1 && p.int2 < 1
    ensures var inRange := p.int1 >= 1 && p.int2 >= 1 && 1 <= p.limit <= lim.maxLimit;
      var err1, err2 := ValidateStr(Str1, p.str1, lim.maxStrBytes), ValidateStr(Str2, p.str2, lim.maxStrBytes);
      && (err == Some(FieldError(Limit, NotInRange)) <==> p.int1 >= 1 && p.int2 >= 1 && !inRange)
      && (err.Some? && err.value.field == Str1 <==> inRange && err1.Some?)
      && (err.Some? && err.value.field == Str2 <==> inRange && err1.None? && err2.Some?)
      && (inRange && err1.Some? ==> err == err1) && (inRange && err1.None? && err2.Some? ==> err == err2)
    ensures err.Some? && FieldsAccepted(p, lim) ==>
      && err.value.field == Limit && err.value.reason.TooLarge?
      && err.value.reason.sizeMiB > err.value.reason.maxMiB
      && (err.value.reason.sizeMiB - 1) * 0x10_0000 < |Response(p, p.limit)| <= err.value.reason.sizeMiB * 0x10_0000
      && err.value.reason.maxMiB * 0x10_0000 <= lim.maxResponseBytes < (err.value.reason.maxMiB + 1) * 0x10_0000
      && match err.value.reason.suggested
         case Some(m) => 1 <= m < p.limit && |Response(p, m)| <= lim.maxResponseBytes < |Response(p, m + 1)|
         case None => |Response(p, 1)| > lim.maxResponseBytes
  {
    if p.int1 < 1 {
      return Some(FieldError(Int1, BelowOne));
    } else if p.int2 < 1 {
      return Some(FieldError(Int2, BelowOne));
    } else if p.limit < 1 || p.limit > lim.maxLimit {
      return Some(FieldError(Limit, NotInRange));
    }
    err := ValidateStr(Str1, p.str1, lim.maxStrBytes);
    if err.Some? {
      return;
    }
    err := ValidateStr(Str2, p.str2, lim.maxStrBytes);
    if err.Some? {
      return;
    }
    var size := JSONSize(p);
    if size > lim.maxResponseBytes {
      var sizeMiB, maxMiB := (size + 0x10_0000 - 1) / 0x10_0000, lim.maxResponseBytes / 0x10_0000;
      var m, _ := LargestLimit(p, lim.maxResponseBytes);
      err := Some(FieldError(Limit, TooLarge(sizeMiB, maxMiB, if m > 0 then Some(m) else None)));
    }
  }

  // With the default limits, strings of 23 bytes together after escaping fit at
  // every accepted limit.
  lemma GuaranteedStringsFit(p: Params)
    requires HasDivisors(p) && 1 <= p.limit <= DEFAULT_LIMITS.maxLimit && ValidUtf8(p.str1)
    requires |Escape(p.str1)| + |Escape(p.str2)| <= 23
    ensures |Response(p, p.limit)| <= DEFAULT_LIMITS.maxResponseBytes
  {
    EscapeConcat(p.str1, p.str2);
    assert Decimal.Pow10(8) == 100_000_000;
    forall i: nat | 1 <= i <= p.limit
      ensures Width(p, i) <= 26
    {
      EscapePlain(Decimal.Text(i));
      Decimal.TextLengthAtMost(i, 8);
    }
    ResponseAtMost(p, p.limit, 26);
  }

  lemma {:induction false} ResponseAllBoth(p: Params, n: nat, width: nat)
    requires p.int1 == p.int2 == 1 && |Quote(p.str1 + p.str2)| + 1 == width && n >= 1
    ensures |Response(p, n)| == n * width + 1
  {
    JoinSnoc(Reference(p, n - 1), Element(p, n));
    if n > 1 {
      ResponseAllBoth(p, n - 1, width);
      Distribute(n - 1, width);
    }
  }

  // 23 is the largest such guarantee.
  lemma GuaranteeIsTight(p: Params)
    requires p.int1 == p.int2 == 1 && p.limit == DEFAULT_LIMITS.maxLimit && ValidUtf8(p.str1)
    requires |Escape(p.str1)| + |Escape(p.str2)| == 24
    ensures |Response(p, p.limit)| > DEFAULT_LIMITS.maxResponseBytes
  {
    EscapeConcat(p.str1, p.str2);
    ResponseAllBoth(p, p.limit, 27);
  }
}
