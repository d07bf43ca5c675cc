// The sorted-set member of a request: its JSON object.
module Member {
  import opened Bytes
  import Decimal
  import opened Utf8
  import opened Options
  import opened JsonText
  import opened JsonReader
  import opened Rule

  const KEY_OVERHEAD := 128

  // A budgeted request: what Validate lets through.
  predicate Storable(p: Params) {
    p.int1 >= 1 && p.int2 >= 1 && p.limit >= 1 && ValidUtf8(p.str1) && ValidUtf8(p.str2)
  }

  const INT1 := Ascii("{\"int1\":")
  const INT2 := Ascii(",\"int2\":")
  const LIMIT := Ascii(",\"limit\":")
  const STR1 := Ascii(",\"str1\":")
  const STR2 := Ascii(",\"str2\":")

  const END := Ascii("}")

  // json.Marshal(paramsJSON(p))
  function Member(p: Params): seq<byte>
    requires Storable(p)
  {
    INT1 + Decimal.Text(p.int1) + INT2 + Decimal.Text(p.int2) + LIMIT + Decimal.Text(p.limit) +
    STR1 + Quote(p.str1) + STR2 + Quote(p.str2) + END
  }

  // The cost of a pending key in a replica, and of the same key in Redis.
  function LocalCost(p: Params): nat {
    KEY_OVERHEAD + |p.str1| + |p.str2|
  }

  function SharedCost(p: Params): nat
    requires Storable(p)
  {
    KEY_OVERHEAD + |Member(p)|
  }

  lemma LocalCostBelowShared(p: Params)
    requires Storable(p)
    ensures LocalCost(p) < SharedCost(p)
  {
    EscapeGrows(p.str1);
    EscapeGrows(p.str2);
  }

  // ---- reading a member, as Top does ----

  function LeadingDigits(t: seq<byte>): (k: nat)
    ensures k <= |t| && AllDigits(t[..k])
  {
    if t == [] || !IsDigit(t[0]) then 0
    else
      var k := LeadingDigits(t[1..]);
      assert t[..k + 1] == [t[0]] + t[1..][..k];
      k + 1
  }

  // A field of the object is its key and colon, with the brace or comma before it.
  function ReadNumber(t: seq<byte>, key: seq<byte>): Option<Parsed<nat>> {
    if !(key <= t) then None
    else
      var k := LeadingDigits(t[|key|..]);
      if k == 0 then None else Some(Parsed(Decimal.Value(t[|key|..][..k]), t[|key|..][k..]))
  }

  function ReadText(t: seq<byte>, key: seq<byte>): Option<Parsed<seq<byte>>> {
    if key <= t then ReadString(t[|key|..]) else None
  }

  function ReadNumbers(t: seq<byte>): Option<Parsed<(nat, nat, nat)>> {
    var int1 := ReadNumber(t, Ascii("{\"int1\":"));
    if int1.None? then None
    else
      var int2 := ReadNumber(int1.value.rest, Ascii(",\"int2\":"));
      if int2.None? then None
      else
        var limit := ReadNumber(int2.value.rest, Ascii(",\"limit\":"));
        if limit.None? then None
        else Some(Parsed((int1.value.value, int2.value.value, limit.value.value), limit.value.rest))
  }

  function ReadTexts(t: seq<byte>): Option<(seq<byte>, seq<byte>)> {
    var str1 := ReadText(t, Ascii(",\"str1\":"));
    if str1.None? then None
    else
      var str2 := ReadText(str1.value.rest, Ascii(",\"str2\":"));
      if str2.None? || str2.value.rest != Ascii("}") then None else Some((str1.value.value, str2.value.value))
  }

  function ReadMember(t: seq<byte>): Option<Params> {
    var numbers := ReadNumbers(t);
    if numbers.None? then None
    else
      var texts := ReadTexts(numbers.value.rest);
      if texts.None? then None
      else
        var (int1, int2, limit) := numbers.value.value;
        Some(Params(int1, int2, limit, texts.value.0, texts.value.1))
  }

  lemma {:induction false} DigitsEnd(a: seq<byte>, x: seq<byte>)
    requires AllDigits(a) && (x == [] || !IsDigit(x[0]))
    ensures LeadingDigits(a + x) == |a|
  {
    if a == [] {
      assert a + x == x;
    } else {
      assert (a + x)[1..] == a[1..] + x;
      DigitsEnd(a[1..], x);
    }
  }

  lemma AfterKey(key: seq<byte>, x: seq<byte>)
    ensures key <= key + x && (key + x)[|key|..] == x
  {
  }

  lemma ReadsNumber(key: seq<byte>, v: nat, x: seq<byte>)
    requires x != [] && x[0] == COMMA
    ensures ReadNumber(key + (Decimal.Text(v) + x), key) == Some(Parsed(v, x))
  {
    var digits := Decimal.Text(v);
    Decimal.ValueOfText(v);
    DigitsEnd(digits, x);
    AfterKey(key, digits + x);
    hide Decimal.Text, LeadingDigits;
    assert (digits + x)[..|digits|] == digits && (digits + x)[|digits|..] == x;
  }

  lemma ReadsText(key: seq<byte>, s: seq<byte>, x: seq<byte>)
    requires ValidUtf8(s)
    ensures ReadText(key + (Quote(s) + x), key) == Some(Parsed(s, x))
  {
    ReadsQuote(s, x);
    AfterKey(key, Quote(s) + x);
  }

  // Member from the right, one field in front of the rest.
  lemma MemberShape(p: Params)
    requires Storable(p)
    ensures var x2 := STR2 + (Quote(p.str2) + END);
      var x1 := STR1 + (Quote(p.str1) + x2);
      var x0 := LIMIT + (Decimal.Text(p.limit) + x1);
      var y := INT2 + (Decimal.Text(p.int2) + x0);
      && Member(p) == INT1 + (Decimal.Text(p.int1) + y)
      && |y| > 0 && |x0| > 0 && |x1| > 0 && y[0] == x0[0] == x1[0] == COMMA
  {
    hide Decimal.Text, Quote;
    var a, b, c := Decimal.Text(p.int1), Decimal.Text(p.int2), Decimal.Text(p.limit);
    var d, e := Quote(p.str1), Quote(p.str2);
    var x2 := STR2 + (e + END);
    var x1 := STR1 + (d + x2);
    var x0 := LIMIT + (c + x1);
    assert d + STR2 + e + END == d + x2;
    assert c + STR1 + (d + x2) == c + x1;
    assert b + LIMIT + (c + x1) == b + x0;
  }

  lemma ReadsNumbers(a: nat, b: nat, c: nat, x: seq<byte>)
    requires x != [] && x[0] == COMMA
    ensures ReadNumbers(INT1 + (Decimal.Text(a) + (INT2 + (Decimal.Text(b) + (LIMIT + (Decimal.Text(c) + x)))))) ==
      Some(Parsed((a, b, c), x))
  {
    hide Decimal.Text, ReadNumber;
    var x0 := LIMIT + (Decimal.Text(c) + x);
    var y := INT2 + (Decimal.Text(b) + x0);
    assert x0[0] == y[0] == COMMA;
    ReadsNumber(INT1, a, y);
    ReadsNumber(INT2, b, x0);
    ReadsNumber(LIMIT, c, x);
  }

  lemma ReadsTexts(s: seq<byte>, t: seq<byte>)
    requires ValidUtf8(s) && ValidUtf8(t)
    ensures ReadTexts(STR1 + (Quote(s) + (STR2 + (Quote(t) + END)))) == Some((s, t))
  {
    hide Quote, ReadText, ValidUtf8;
    ReadsText(STR1, s, STR2 + (Quote(t) + END));
    ReadsText(STR2, t, END);
  }

  // Reading a member gives back the request, field by field.
  lemma ReadsMember(p: Params)
    requires Storable(p)
    ensures ReadMember(Member(p)) == Some(p)
  {
    MemberShape(p);
    ReadsNumbers(p.int1, p.int2, p.limit, STR1 + (Quote(p.str1) + (STR2 + (Quote(p.str2) + END))));
    ReadsTexts(p.str1, p.str2);
    hide Decimal.Text, Quote, Member, ReadNumbers, ReadTexts, ValidUtf8, Ascii;
  }

  // Different requests are different members, so the sorted set counts each
  // request by itself.
  lemma MemberInjective(p: Params, q: Params)
    requires Storable(p) && Storable(q) && Member(p) == Member(q)
    ensures p == q
  {
    ReadsMember(p);
    ReadsMember(q);
  }
}
