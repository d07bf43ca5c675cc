// Bytes and byte strings.
module Bytes {
  type byte = b: int | 0 <= b < 256

  const QUOTE: byte := 34 // "
  const COMMA: byte := 44 // ,
  const ZERO: byte := 48 // 0
  const NINE: byte := 57 // 9
  const OPEN: byte := 91 // [
  const BACKSLASH: byte := 92 // \
  const CLOSE: byte := 93 // ]

  const MAX_INT: int := 0x7fff_ffff_ffff_ffff

  function Ascii(s: string): seq<byte>
    requires forall k :: 0 <= k < |s| ==> s[k] < '\U{0080}'
  {
    seq(|s|, k requires 0 <= k < |s| => s[k] as int)
  }

  lemma Characters()
    ensures [QUOTE, COMMA, ZERO, NINE, OPEN, BACKSLASH, CLOSE] == Ascii("\",09[\\]")
  {
  }

  predicate IsDigit(c: byte) {
    ZERO <= c <= NINE
  }

  predicate AllDigits(text: seq<byte>) {
    forall k :: 0 <= k < |text| ==> IsDigit(text[k])
  }

  function Repeated(s: seq<byte>, k: nat): seq<byte> {
    if k == 0 then [] else Repeated(s, k - 1) + s
  }

  lemma {:induction false} RepeatedLength(s: seq<byte>, k: nat)
    ensures |Repeated(s, k)| == k * |s|
  {
    if k > 0 {
      RepeatedLength(s, k - 1);
      assert k * |s| == (k - 1) * |s| + |s|;
    }
  }

  lemma {:induction false} RepeatedAdd(s: seq<byte>, j: nat, k: nat)
    ensures Repeated(s, j + k) == Repeated(s, j) + Repeated(s, k)
  {
    if k > 0 {
      RepeatedAdd(s, j, k - 1);
      assert Repeated(s, j) + Repeated(s, k) == (Repeated(s, j) + Repeated(s, k - 1)) + s;
    }
  }
}
