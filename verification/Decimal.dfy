// The decimal text of a natural number, and the cost of counting in it.
module Decimal {
  import opened Bytes

  // strconv.AppendInt(_, v, 10) for a number that is not negative.
  function Text(v: nat): (text: seq<byte>)
    ensures |text| >= 1 && AllDigits(text)
  {
    if v < 10 then [ZERO + v] else Text(v / 10) + [ZERO + v % 10]
  }

  // The number that a digit string denotes, leading zeros included.
  function Value(text: seq<byte>): nat
    requires AllDigits(text)
  {
    if text == [] then 0 else 10 * Value(text[..|text| - 1]) + (text[|text| - 1] - ZERO)
  }

  lemma {:induction false} ValueOfText(v: nat)
    ensures Value(Text(v)) == v
  {
    var t := Text(v);
    if v < 10 {
      assert t[..0] == [];
    } else {
      assert t[..|t| - 1] == Text(v / 10);
      ValueOfText(v / 10);
    }
  }

  function Pow10(k: nat): (r: nat)
    ensures r >= 1
  {
    if k == 0 then 1 else 10 * Pow10(k - 1)
  }

  // The k-digit band: the numbers whose text has exactly k digits.
  lemma {:induction false} TextLength(v: nat, k: nat)
    requires k >= 1 && v < Pow10(k) && (k == 1 || Pow10(k - 1) <= v)
    ensures |Text(v)| == k
  {
    if k > 1 {
      TextLength(v / 10, k - 1);
    }
  }

  lemma {:induction false} TextLengthAtMost(v: nat, k: nat)
    requires k >= 1 && v < Pow10(k)
    ensures |Text(v)| <= k
  {
    if k > 1 && Pow10(k - 1) <= v {
      TextLength(v, k);
    } else if k > 1 {
      TextLengthAtMost(v, k - 1);
    }
  }

  lemma Int64TextLength(v: nat)
    requires v <= MAX_INT
    ensures |Text(v)| <= 19
  {
    assert Pow10(5) == 100_000;
    assert Pow10(10) == 10_000_000_000;
    assert Pow10(15) == 1_000_000_000_000_000;
    assert Pow10(19) == 10_000_000_000_000_000_000;
    TextLengthAtMost(v, 19);
  }

  // Adding one to a digit string from the right: nines turn into zeros, the
  // first other digit goes up, and a carry past the front adds a '1'.
  function Increment(text: seq<byte>): (r: seq<byte>)
    requires AllDigits(text)
    ensures AllDigits(r)
  {
    if text == [] then [ZERO + 1]
    else
      var last := text[|text| - 1];
      var front := text[..|text| - 1];
      if last == NINE then Increment(front) + [ZERO] else front + [last + 1]
  }

  lemma {:induction false} IncrementText(v: nat)
    ensures Increment(Text(v)) == Text(v + 1)
  {
    var t := Text(v);
    if v < 10 {
      assert t[..0] == [];
      assert v == 9 ==> Increment(t) == [ZERO + 1] + [ZERO];
      assert v == 9 ==> Text(1) == [ZERO + 1];
    } else {
      assert t[..|t| - 1] == Text(v / 10);
      IncrementText(v / 10);
      if v % 10 == 9 {
        assert (v + 1) / 10 == v / 10 + 1 && (v + 1) % 10 == 0;
      } else {
        assert (v + 1) / 10 == v / 10 && (v + 1) % 10 == v % 10 + 1;
      }
    }
  }

  function DigitSum(text: seq<byte>): nat
    requires AllDigits(text)
  {
    if text == [] then 0 else DigitSum(text[..|text| - 1]) + (text[|text| - 1] - ZERO)
  }

  // The digits that one increment writes: the trailing nines and one more.
  function Touched(text: seq<byte>): (r: nat)
    requires AllDigits(text)
    ensures 1 <= r <= |text| + 1
  {
    if text != [] && text[|text| - 1] == NINE then Touched(text[..|text| - 1]) + 1 else 1
  }

  // The potential argument behind the amortised cost: 9 units for each digit
  // written are paid by 10 units and the change of the digit sum.
  lemma {:induction false} TouchedPotential(text: seq<byte>)
    requires AllDigits(text)
    ensures 9 * Touched(text) + DigitSum(Increment(text)) == 10 + DigitSum(text)
  {
    var r := Increment(text);
    assert r[..|r| - 1] == if text == [] then [] else if text[|text| - 1] == NINE then Increment(text[..|text| - 1]) else text[..|text| - 1];
    if text != [] && text[|text| - 1] == NINE {
      TouchedPotential(text[..|text| - 1]);
    }
  }

  // The digits written while the counter goes from lo to hi.
  function TouchedRange(lo: nat, hi: nat): nat
    requires lo <= hi
    decreases hi
  {
    if lo == hi then 0 else TouchedRange(lo, hi - 1) + Touched(Text(hi - 1))
  }

  lemma TouchedSnoc(lo: nat, i: nat)
    requires lo <= i
    ensures TouchedRange(lo, i + 1) == TouchedRange(lo, i) + Touched(Text(i))
  {
  }

  lemma ChainPotential(spent: nat, cost: nat, start: nat, before: nat, after: nat, steps: nat)
    requires 9 * spent + before == 10 * steps + start && 9 * cost + after == 10 + before
    ensures 9 * (spent + cost) + after == 10 * (steps + 1) + start
  {
  }

  lemma {:induction false} AmortisedCost(lo: nat, hi: nat)
    requires lo <= hi
    ensures 9 * TouchedRange(lo, hi) + DigitSum(Text(hi)) == 10 * (hi - lo) + DigitSum(Text(lo))
    decreases hi
  {
    if lo < hi {
      var before, after := Text(hi - 1), Text(hi);
      AmortisedCost(lo, hi - 1);
      TouchedPotential(before);
      IncrementText(hi - 1);
      ChainPotential(TouchedRange(lo, hi - 1), Touched(before), DigitSum(Text(lo)), DigitSum(before), DigitSum(after), hi - 1 - lo);
    }
  }

  // Counting from 1 writes at most 10/9 digits for each increment.
  lemma AmortisedCostFromOne(hi: nat)
    requires hi >= 1
    ensures 9 * TouchedRange(1, hi) <= 10 * (hi - 1)
  {
    AmortisedCost(1, hi);
    DigitSumPositive(hi);
    assert Text(1)[..0] == [];
  }

  lemma {:induction false} DigitSumPositive(v: nat)
    requires v >= 1
    ensures DigitSum(Text(v)) >= 1
  {
    var t := Text(v);
    if v < 10 {
      assert t[..0] == [];
    } else {
      assert t[..|t| - 1] == Text(v / 10);
      DigitSumPositive(v / 10);
    }
  }
}
