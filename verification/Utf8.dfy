// UTF-8 (section 4 of RFC 3629): the length of the first rune, valid strings, and
// the encoding of scalar values that these are about.
module Utf8 {
  import opened Bytes

  predicate Continuation(c: byte) {
    0x80 <= c <= 0xbf
  }

  // The length of the UTF-8 encoded rune at the front (section 4 of RFC 3629),
  // 0 if there is none.
  function RuneLength(s: seq<byte>): (n: nat)
    ensures n <= |s| && n <= 4
  {
    if s == [] then 0
    else if s[0] < 0x80 then 1
    else if |s| < 2 || !Continuation(s[1]) then 0
    else if 0xc2 <= s[0] <= 0xdf then 2
    else if |s| < 3 || !Continuation(s[2]) then 0
    else if 0xe0 <= s[0] <= 0xef then
      if (s[0] == 0xe0 && s[1] < 0xa0) || (s[0] == 0xed && s[1] > 0x9f) then 0 else 3
    else if |s| < 4 || !Continuation(s[3]) then 0
    else if 0xf0 <= s[0] <= 0xf4 then
      if (s[0] == 0xf0 && s[1] < 0x90) || (s[0] == 0xf4 && s[1] > 0x8f) then 0 else 4
    else 0
  }

  // utf8.ValidString
  predicate ValidUtf8(s: seq<byte>) {
    s == [] || (RuneLength(s) > 0 && ValidUtf8(s[RuneLength(s)..]))
  }

  lemma RuneConcat(s: seq<byte>, t: seq<byte>)
    requires RuneLength(s) > 0
    ensures var n := RuneLength(s); RuneLength(s + t) == n && (s + t)[..n] == s[..n] && (s + t)[n..] == s[n..] + t
  {
    assert forall k :: 0 <= k < |s| ==> (s + t)[k] == s[k];
    assert RuneLength(s) >= 1 ==> (s + t)[0] == s[0];
    assert RuneLength(s) >= 2 ==> (s + t)[1] == s[1];
    assert RuneLength(s) >= 3 ==> (s + t)[2] == s[2];
    assert RuneLength(s) >= 4 ==> (s + t)[3] == s[3];
  }

  lemma RuneBytes(s: seq<byte>)
    requires RuneLength(s) >= 2
    ensures forall k :: 0 <= k < RuneLength(s) ==> s[k] >= 0x80
  {
  }

  lemma {:induction false} ValidConcat(s: seq<byte>, t: seq<byte>)
    requires ValidUtf8(s) && ValidUtf8(t)
    ensures ValidUtf8(s + t)
  {
    if s == [] {
      assert s + t == t;
    } else {
      var n := RuneLength(s);
      RuneConcat(s, t);
      hide RuneLength;
      ValidConcat(s[n..], t);
    }
  }

  lemma {:induction false} DigitsValid(s: seq<byte>)
    requires AllDigits(s)
    ensures ValidUtf8(s)
  {
    if s != [] {
      DigitsValid(s[1..]);
    }
  }

  // ---- the encoding ----

  type scalar = v: int | 0 <= v <= 0x10_ffff && !(0xd800 <= v <= 0xdfff)

  function EncodeRune(v: scalar): (r: seq<byte>)
    ensures 1 <= |r| <= 4
  {
    if v < 0x80 then [v]
    else if v < 0x800 then [0xc0 + v / 64, 0x80 + v % 64]
    else if v < 0x1_0000 then [0xe0 + v / 64 / 64, 0x80 + v / 64 % 64, 0x80 + v % 64]
    else [0xf0 + v / 64 / 64 / 64, 0x80 + v / 64 / 64 % 64, 0x80 + v / 64 % 64, 0x80 + v % 64]
  }

  // The encoding of a scalar value is one rune, whatever follows it.
  lemma EncodedIsRune(v: scalar, t: seq<byte>)
    ensures RuneLength(EncodeRune(v) + t) == |EncodeRune(v)|
  {
    var r := EncodeRune(v);
    assert forall k :: 0 <= k < |r| ==> (r + t)[k] == r[k];
  }

  // The payload bits of six-bit digits after a first one.
  function Digits(a: int, b: int, c: int, d: int): int {
    64 * (64 * (64 * a + b) + c) + d
  }

  lemma DigitsSplit(a: int, b: int, c: int, d: int)
    requires 0 <= b < 64 && 0 <= c < 64 && 0 <= d < 64
    ensures var v := Digits(a, b, c, d);
      v % 64 == d && v / 64 % 64 == c && v / 64 / 64 % 64 == b && v / 64 / 64 / 64 == a
  {
    Digit(64 * (64 * a + b) + c, d);
    Digit(64 * a + b, c);
    Digit(a, b);
  }

  lemma Digit(q: int, d: int)
    requires 0 <= d < 64
    ensures (64 * q + d) / 64 == q && (64 * q + d) % 64 == d
  {
  }

  function DecodeRune(r: seq<byte>): int
    requires 1 <= |r| <= 4
  {
    var a: int, b: int := r[0], if |r| > 1 then r[1] else 0;
    var c: int, d: int := if |r| > 2 then r[2] else 0, if |r| > 3 then r[3] else 0;
    if |r| == 1 then a
    else if |r| == 2 then Digits(0, 0, a - 0xc0, b - 0x80)
    else if |r| == 3 then Digits(0, a - 0xe0, b - 0x80, c - 0x80)
    else Digits(a - 0xf0, b - 0x80, c - 0x80, d - 0x80)
  }

  // Two to four bytes of the right form are the encoding of their payload.
  lemma TwoBytes(a: byte, b: byte)
    requires 0xc2 <= a <= 0xdf && Continuation(b)
    ensures var v := Digits(0, 0, a as int - 0xc0, b as int - 0x80); 0x80 <= v < 0x800 && EncodeRune(v) == [a, b]
  {
    DigitsSplit(0, 0, a as int - 0xc0, b as int - 0x80);
  }

  lemma ThreeBytes(a: byte, b: byte, c: byte)
    requires 0xe0 <= a <= 0xef && Continuation(b) && Continuation(c)
    requires (a == 0xe0 ==> b >= 0xa0) && (a == 0xed ==> b <= 0x9f)
    ensures var v := Digits(0, a as int - 0xe0, b as int - 0x80, c as int - 0x80);
      0x800 <= v < 0x1_0000 && !(0xd800 <= v <= 0xdfff) && EncodeRune(v) == [a, b, c]
  {
    DigitsSplit(0, a as int - 0xe0, b as int - 0x80, c as int - 0x80);
  }

  lemma FourBytes(a: byte, b: byte, c: byte, d: byte)
    requires 0xf0 <= a <= 0xf4 && Continuation(b) && Continuation(c) && Continuation(d)
    requires (a == 0xf0 ==> b >= 0x90) && (a == 0xf4 ==> b <= 0x8f)
    ensures var v := Digits(a as int - 0xf0, b as int - 0x80, c as int - 0x80, d as int - 0x80);
      0x1_0000 <= v <= 0x10_ffff && EncodeRune(v) == [a, b, c, d]
  {
    DigitsSplit(a as int - 0xf0, b as int - 0x80, c as int - 0x80, d as int - 0x80);
  }

  // Every rune is the encoding of a scalar value,
  lemma RuneIsEncoded(s: seq<byte>) returns (v: scalar)
    requires RuneLength(s) > 0
    ensures EncodeRune(v) == s[..RuneLength(s)]
  {
    var n := RuneLength(s);
    hide Digits, EncodeRune;
    if n == 1 {
      v := s[0];
      OneByte(v);
    } else if n == 2 {
      TwoBytes(s[0], s[1]);
      v := Digits(0, 0, s[0] as int - 0xc0, s[1] as int - 0x80);
    } else if n == 3 {
      ThreeBytes(s[0], s[1], s[2]);
      v := Digits(0, s[0] as int - 0xe0, s[1] as int - 0x80, s[2] as int - 0x80);
    } else {
      FourBytes(s[0], s[1], s[2], s[3]);
      v := Digits(s[0] as int - 0xf0, s[1] as int - 0x80, s[2] as int - 0x80, s[3] as int - 0x80);
    }
  }

  lemma OneByte(v: scalar)
    requires v < 0x80
    ensures EncodeRune(v) == [v]
  {
  }

  // and of no other one.
  lemma EncodeInjective(v: scalar, w: scalar)
    requires EncodeRune(v) == EncodeRune(w)
    ensures v == w
  {
    DecodeEncoded(v);
    DecodeEncoded(w);
  }

  lemma DecodeEncoded(v: scalar)
    ensures DecodeRune(EncodeRune(v)) == v
  {
    assert v == 64 * (v / 64) + v % 64;
    assert v / 64 == 64 * (v / 64 / 64) + v / 64 % 64;
    assert v / 64 / 64 == 64 * (v / 64 / 64 / 64) + v / 64 / 64 % 64;
  }

  function Encode(vs: seq<scalar>): seq<byte> {
    if vs == [] then [] else EncodeRune(vs[0]) + Encode(vs[1..])
  }

  lemma {:induction false} EncodedIsValid(vs: seq<scalar>)
    ensures ValidUtf8(Encode(vs))
  {
    if vs != [] {
      var r, rest := EncodeRune(vs[0]), Encode(vs[1..]);
      EncodedIsValid(vs[1..]);
      EncodedIsRune(vs[0], rest);
      hide RuneLength, EncodeRune;
      assert (r + rest)[|r|..] == rest;
    }
  }

  lemma {:induction false} ValidIsEncoded(s: seq<byte>) returns (vs: seq<scalar>)
    requires ValidUtf8(s)
    ensures Encode(vs) == s
  {
    hide RuneLength, EncodeRune;
    vs := [];
    if s != [] {
      var n := RuneLength(s);
      var v := RuneIsEncoded(s);
      var rest := ValidIsEncoded(s[n..]);
      vs := [v] + rest;
      assert vs[1..] == rest && s == s[..n] + s[n..];
    }
  }

  // A string is valid exactly when it encodes a list of scalar values.
  lemma ValidIffEncoded(s: seq<byte>)
    ensures ValidUtf8(s) <==> exists vs :: s == Encode(vs)
  {
    if ValidUtf8(s) {
      var vs := ValidIsEncoded(s);
    }
    forall vs | s == Encode(vs)
      ensures ValidUtf8(s)
    {
      EncodedIsValid(vs);
    }
  }
}
