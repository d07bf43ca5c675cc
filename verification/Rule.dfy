// The FizzBuzz rule, its JSON array, and the encoded elements that the
// generator and the size formula work with.
module Rule {
  import opened Bytes
  import Decimal
  import opened Utf8
  import opened JsonText

  datatype Params = Params(int1: int, int2: int, limit: int, str1: seq<byte>, str2: seq<byte>)

  predicate HasDivisors(p: Params) {
    p.int1 >= 1 && p.int2 >= 1
  }

  predicate HasText(p: Params) {
    ValidUtf8(p.str1) && ValidUtf8(p.str2) && p.str1 != [] && p.str2 != []
  }

  // The rule, with no encoding.
  function Element(p: Params, i: nat): seq<byte>
    requires HasDivisors(p)
  {
    if i % p.int1 == 0 && i % p.int2 == 0 then p.str1 + p.str2
    else if i % p.int1 == 0 then p.str1
    else if i % p.int2 == 0 then p.str2
    else Decimal.Text(i)
  }

  lemma ElementValid(p: Params, i: nat)
    requires HasDivisors(p) && HasText(p)
    ensures ValidUtf8(Element(p, i)) && Element(p, i) != []
  {
    ValidConcat(p.str1, p.str2);
    DigitsValid(Decimal.Text(i));
  }

  // Elements 1..n.
  function Reference(p: Params, n: nat): (list: seq<seq<byte>>)
    requires HasDivisors(p)
    ensures |list| == n
    ensures forall k :: 0 <= k < n ==> list[k] == Element(p, k + 1)
  {
    if n == 0 then [] else Reference(p, n - 1) + [Element(p, n)]
  }

  lemma SmallNumber(v: nat)
    requires v < 100
    ensures Decimal.Text(v) == if v < 10 then [ZERO + v] else [ZERO + v / 10, ZERO + v % 10]
  {
  }

  lemma NumberElement(p: Params, i: nat)
    requires HasDivisors(p) && i < 100 && i % p.int1 != 0 && i % p.int2 != 0
    ensures Element(p, i) == if i < 10 then [ZERO + i] else [ZERO + i / 10, ZERO + i % 10]
  {
    SmallNumber(i);
  }

  // The example of the documentation, "1" to "16".
  lemma Classic()
    ensures Reference(Params(3, 5, 16, Ascii("fizz"), Ascii("buzz")), 16) == [
      Ascii("1"), Ascii("2"), Ascii("fizz"), Ascii("4"), Ascii("buzz"), Ascii("fizz"), Ascii("7"), Ascii("8"),
      Ascii("fizz"), Ascii("buzz"), Ascii("11"), Ascii("fizz"), Ascii("13"), Ascii("14"), Ascii("fizzbuzz"), Ascii("16")]
  {
    var p := Params(3, 5, 16, Ascii("fizz"), Ascii("buzz"));
    assert Ascii("fizz") + Ascii("buzz") == Ascii("fizzbuzz");
    ClassicNumbers(p);
    ClassicStrings(p);
    hide Ascii, Element;
  }

  lemma ClassicNumbers(p: Params)
    requires p.int1 == 3 && p.int2 == 5
    ensures Element(p, 1) == Ascii("1") && Element(p, 2) == Ascii("2") && Element(p, 4) == Ascii("4")
    ensures Element(p, 7) == Ascii("7") && Element(p, 8) == Ascii("8") && Element(p, 11) == Ascii("11")
    ensures Element(p, 13) == Ascii("13") && Element(p, 14) == Ascii("14") && Element(p, 16) == Ascii("16")
  {
    assert [49] == Ascii("1") && [50] == Ascii("2") && [52] == Ascii("4") && [55] == Ascii("7") && [56] == Ascii("8");
    assert [49, 49] == Ascii("11") && [49, 51] == Ascii("13") && [49, 52] == Ascii("14") && [49, 54] == Ascii("16");
    hide Ascii, Decimal.Text;
    NumberElement(p, 1);
    NumberElement(p, 2);
    NumberElement(p, 4);
    NumberElement(p, 7);
    NumberElement(p, 8);
    NumberElement(p, 11);
    NumberElement(p, 13);
    NumberElement(p, 14);
    NumberElement(p, 16);
  }

  lemma ClassicStrings(p: Params)
    requires p.int1 == 3 && p.int2 == 5
    ensures Element(p, 3) == Element(p, 6) == Element(p, 9) == Element(p, 12) == p.str1
    ensures Element(p, 5) == Element(p, 10) == p.str2 && Element(p, 15) == p.str1 + p.str2
  {
  }

  function Join(list: seq<seq<byte>>): seq<byte> {
    if list == [] then []
    else if |list| == 1 then Quote(list[0])
    else Join(list[..|list| - 1]) + [COMMA] + Quote(list[|list| - 1])
  }

  // json.Marshal of a []string.
  function Marshal(list: seq<seq<byte>>): seq<byte> {
    [OPEN] + Join(list) + [CLOSE]
  }

  // The whole response with its first n elements.
  function Response(p: Params, n: nat): seq<byte>
    requires HasDivisors(p)
  {
    Marshal(Reference(p, n))
  }

  // What the generator needs of a request. The replacements are encoded and
  // have a leading comma. l is lcm(a, b) if that is at most n, else 0.
  datatype Plan = Plan(a: int, b: int, n: int, l: int, e1: seq<byte>, e2: seq<byte>, e12: seq<byte>) {

    predicate Valid() {
      a >= 1 && b >= 1 && n >= 1 && |e1| >= 1 && |e2| >= 1 && |e12| >= 1 &&
      e1[0] == e2[0] == e12[0] == COMMA && IsCappedLcm(a, b, n, l)
    }

    ghost predicate Encodes(p: Params) {
      Valid() && a == p.int1 && b == p.int2 && n == p.limit &&
      e1 == [COMMA] + Quote(p.str1) && e2 == [COMMA] + Quote(p.str2) &&
      e12 == [COMMA] + Quote(p.str1 + p.str2)
    }

    function Number(i: nat): (piece: seq<byte>)
      ensures |piece| >= 4 && piece[0] == COMMA
    {
      [COMMA, QUOTE] + Decimal.Text(i) + [QUOTE]
    }

    // Element i with its leading comma.
    function Piece(i: nat): (piece: seq<byte>)
      requires Valid()
      ensures |piece| >= 1 && piece[0] == COMMA
    {
      if i % a == 0 && i % b == 0 then e12
      else if i % a == 0 then e1
      else if i % b == 0 then e2
      else Number(i)
    }

    // Elements lo..hi.
    function Body(lo: nat, hi: int): seq<byte>
      requires Valid()
      decreases hi
    {
      if hi < lo then [] else Body(lo, hi - 1) + Piece(hi)
    }

    lemma {:induction false} BodySplit(lo: nat, mid: int, hi: int)
      requires Valid() && lo - 1 <= mid <= hi
      ensures Body(lo, hi) == Body(lo, mid) + Body(mid + 1, hi)
      decreases hi
    {
      if mid < hi {
        BodySplit(lo, mid, hi - 1);
        assert Body(lo, mid) + Body(mid + 1, hi - 1) + Piece(hi) == Body(lo, mid) + (Body(mid + 1, hi - 1) + Piece(hi));
      }
    }

    lemma BodyFirst(lo: nat, hi: int)
      requires Valid() && lo <= hi
      ensures Body(lo, hi) == Piece(lo) + Body(lo + 1, hi)
    {
      BodySplit(lo, lo, hi);
      assert Body(lo, lo) == Body(lo, lo - 1) + Piece(lo);
    }
  }

  // No division by zero, no overflow: l is positive exactly when a common
  // multiple exists in 1..n, and then it is the least one.
  predicate IsCappedLcm(a: int, b: int, n: int, l: int)
    requires a >= 1 && b >= 1
  {
    0 <= l <= n && forall i :: 1 <= i <= n ==> SameMultiples(a, b, l, i)
  }

  predicate SameMultiples(a: int, b: int, l: int, i: int)
    requires a >= 1 && b >= 1
  {
    (i % a == 0 && i % b == 0) <==> (l != 0 && i % l == 0)
  }

  // The first comma of the body becomes the opening bracket.
  function Opened(body: seq<byte>): (r: seq<byte>)
    ensures |r| == |body|
  {
    if body == [] then [] else [OPEN] + body[1..]
  }

  lemma NumberEncodes(pl: Plan, i: nat)
    ensures pl.Number(i) == [COMMA] + Quote(Decimal.Text(i))
  {
    EscapePlain(Decimal.Text(i));
    assert [COMMA, QUOTE] + Decimal.Text(i) + [QUOTE] == [COMMA] + ([QUOTE] + Decimal.Text(i) + [QUOTE]);
  }

  lemma PieceEncodes(p: Params, pl: Plan, i: nat)
    requires HasDivisors(p) && pl.Encodes(p)
    ensures pl.Piece(i) == [COMMA] + Quote(Element(p, i))
  {
    NumberEncodes(pl, i);
    var m1, m2 := i % p.int1 == 0, i % p.int2 == 0;
    assert Element(p, i) == if m1 && m2 then p.str1 + p.str2 else if m1 then p.str1 else if m2 then p.str2 else Decimal.Text(i);
    assert pl.Piece(i) == if m1 && m2 then pl.e12 else if m1 then pl.e1 else if m2 then pl.e2 else pl.Number(i);
  }

  lemma JoinSnoc(list: seq<seq<byte>>, x: seq<byte>)
    ensures Join(list + [x]) == if list == [] then Quote(x) else Join(list) + [COMMA] + Quote(x)
  {
    assert (list + [x])[..|list|] == list;
  }

  lemma AppendPiece(joined: seq<byte>, quoted: seq<byte>)
    ensures ([COMMA] + joined) + ([COMMA] + quoted) == [COMMA] + (joined + [COMMA] + quoted)
  {
  }

  lemma {:induction false} BodyEncodes(p: Params, pl: Plan, n: nat)
    requires HasDivisors(p) && pl.Encodes(p) && n >= 1
    ensures pl.Body(1, n) == [COMMA] + Join(Reference(p, n))
  {
    PieceEncodes(p, pl, n);
    JoinSnoc(Reference(p, n - 1), Element(p, n));
    if n > 1 {
      BodyEncodes(p, pl, n - 1);
      AppendPiece(Join(Reference(p, n - 1)), Quote(Element(p, n)));
    } else {
      assert pl.Body(1, 0) + pl.Piece(1) == pl.Piece(1);
    }
  }

  // The bytes that the generator must produce are the marshalled reference.
  lemma ResponseIsBody(p: Params, pl: Plan, n: nat)
    requires HasDivisors(p) && pl.Encodes(p) && n >= 1
    ensures Response(p, n) == Opened(pl.Body(1, n)) + [CLOSE]
    ensures |Response(p, n)| == |pl.Body(1, n)| + 1
  {
    BodyEncodes(p, pl, n);
    assert pl.Body(1, n)[1..] == Join(Reference(p, n));
  }
}
