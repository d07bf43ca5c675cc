// JSON string literals as encoding/json writes them: section 7 of RFC 8259,
// with the HTML-safe escapes of json.Marshal.
module JsonText {
  import opened Bytes
  import opened Options
  import opened Utf8

  function HexDigit(v: nat): byte
    requires v < 16
  {
    if v < 10 then ZERO + v else 97 + (v - 10)
  }

  // One rune of the literal. An invalid byte becomes the replacement character.
  function EscapeRune(rune: seq<byte>): (r: seq<byte>)
  {
    if |rune| == 1 then
      var c := rune[0];
      if c == QUOTE || c == BACKSLASH then [BACKSLASH, c]
      else if c == 8 then [BACKSLASH, 98]
      else if c == 12 then [BACKSLASH, 102]
      else if c == 10 then [BACKSLASH, 110]
      else if c == 13 then [BACKSLASH, 114]
      else if c == 9 then [BACKSLASH, 116]
      else if c < 0x20 || c == 60 || c == 62 || c == 38 then
        [BACKSLASH, 117, ZERO, ZERO, HexDigit(c / 16), HexDigit(c % 16)]
      else [c]
    else if rune == [0xe2, 0x80, 0xa8] || rune == [0xe2, 0x80, 0xa9] then
      [BACKSLASH, 117, ZERO + 2, ZERO, ZERO + 2, HexDigit(rune[2] % 16)]
    else rune
  }

  const REPLACEMENT: seq<byte> := [BACKSLASH, 117, 102, 102, 102, 100]

  // The text between the quotes.
  function Escape(s: seq<byte>): seq<byte>
  {
    if s == [] then []
    else
      var n := RuneLength(s);
      if n == 0 then REPLACEMENT + Escape(s[1..])
      else EscapeRune(s[..n]) + Escape(s[n..])
  }

  function Quote(s: seq<byte>): seq<byte> {
    [QUOTE] + Escape(s) + [QUOTE]
  }

  // Printable ASCII that needs no escape.
  predicate Plain(c: byte) {
    0x20 <= c <= 0x7e && c != QUOTE && c != BACKSLASH && c != 60 && c != 62 && c != 38
  }

  lemma {:induction false} EscapePlain(s: seq<byte>)
    requires forall k :: 0 <= k < |s| ==> Plain(s[k])
    ensures Escape(s) == s
  {
    if s != [] {
      assert s[..1] == [s[0]];
      EscapePlain(s[1..]);
    }
  }

  lemma {:induction false} EscapeConcat(s: seq<byte>, t: seq<byte>)
    requires ValidUtf8(s)
    ensures Escape(s + t) == Escape(s) + Escape(t)
  {
    if s == [] {
      assert s + t == t;
    } else {
      var n := RuneLength(s);
      RuneConcat(s, t);
      hide RuneLength, EscapeRune;
      EscapeConcat(s[n..], t);
    }
  }

  // ---- what is escaped, and how ----

  // The line and paragraph separators of Unicode, U+2028 and U+2029.
  predicate SeparatorAt(t: seq<byte>, k: nat) {
    k + 2 < |t| && t[k] == 0xe2 && t[k + 1] == 0x80 && (t[k + 2] == 0xa8 || t[k + 2] == 0xa9)
  }

  // No control character, none of < > &, and no separator.
  predicate HtmlSafe(t: seq<byte>) {
    && (forall k :: 0 <= k < |t| ==> t[k] >= 0x20 && t[k] != 60 && t[k] != 62 && t[k] != 38)
    && (forall k :: 0 <= k < |t| ==> !SeparatorAt(t, k))
  }

  // A separator never begins in head and ends after it.
  lemma SafeConcat(head: seq<byte>, tail: seq<byte>)
    requires HtmlSafe(head) && HtmlSafe(tail)
    requires forall k :: 0 <= k < |head| && |head| - 2 <= k ==> head[k] != 0xe2
    ensures HtmlSafe(head + tail)
  {
    var t := head + tail;
    forall k | 0 <= k < |t|
      ensures !SeparatorAt(t, k)
    {
      if k < |head| {
        assert !SeparatorAt(head, k);
      } else {
        assert !SeparatorAt(tail, k - |head|);
      }
    }
  }

  lemma RuneEscapeSafe(s: seq<byte>)
    requires RuneLength(s) > 0
    ensures var r := EscapeRune(s[..RuneLength(s)]);
      HtmlSafe(r) && forall k :: 0 <= k < |r| && |r| - 2 <= k ==> r[k] != 0xe2
  {
  }

  // Whatever the string, valid UTF-8 or not, its literal has none of these.
  lemma {:induction false} EscapeIsSafe(s: seq<byte>)
    ensures HtmlSafe(Escape(s))
  {
    if s != [] {
      var n := RuneLength(s);
      var head := if n == 0 then REPLACEMENT else EscapeRune(s[..n]);
      var rest := if n == 0 then s[1..] else s[n..];
      if n > 0 {
        RuneEscapeSafe(s);
      }
      EscapeIsSafe(rest);
      SafeConcat(head, Escape(rest));
    }
  }

  predicate Unquoted(s: seq<byte>) {
    forall k :: 0 <= k < |s| ==> s[k] != QUOTE && s[k] != BACKSLASH
  }

  lemma RuneKept(s: seq<byte>)
    requires RuneLength(s) > 0
    ensures var head := s[..RuneLength(s)]; var r := EscapeRune(head);
      && |r| >= |head| && (r == head ==> Unquoted(head)) && (HtmlSafe(s) && Unquoted(s) ==> r == head)
  {
    if HtmlSafe(s) && RuneLength(s) == 3 {
      assert !SeparatorAt(s, 0);
    }
  }

  lemma BothKept(head: seq<byte>, tail: seq<byte>, r: seq<byte>, rest: seq<byte>)
    requires r + rest == head + tail && |r| >= |head| && |rest| >= |tail|
    ensures r == head && rest == tail
  {
    assert (r + rest)[..|r|] == r && (r + rest)[|r|..] == rest;
    assert (head + tail)[..|head|] == head && (head + tail)[|head|..] == tail;
  }

  lemma {:induction false} KeptMeansUnquoted(s: seq<byte>)
    requires ValidUtf8(s) && Escape(s) == s
    ensures Unquoted(s)
  {
    hide RuneLength, EscapeRune;
    if s != [] {
      var n := RuneLength(s);
      var head, tail := s[..n], s[n..];
      assert s == head + tail;
      RuneKept(s);
      EscapeGrows(tail);
      BothKept(head, tail, EscapeRune(head), Escape(tail));
      KeptMeansUnquoted(tail);
      hide Escape, ValidUtf8;
      assert forall k :: 0 <= k < |s| ==> s[k] == if k < n then head[k] else tail[k - n];
    }
  }

  lemma {:induction false} SafeMeansKept(s: seq<byte>)
    requires ValidUtf8(s) && HtmlSafe(s) && Unquoted(s)
    ensures Escape(s) == s
  {
    hide RuneLength, EscapeRune;
    if s != [] {
      var n := RuneLength(s);
      RuneKept(s);
      SafeSuffix(s, n);
      SafeMeansKept(s[n..]);
      hide HtmlSafe, Unquoted, ValidUtf8;
      assert s == s[..n] + s[n..];
    }
  }

  // Nothing else is escaped: a valid string is its own literal exactly when it
  // has no character that must be escaped.
  lemma EscapedIffNeeded(s: seq<byte>)
    requires ValidUtf8(s)
    ensures Escape(s) == s <==> HtmlSafe(s) && Unquoted(s)
  {
    hide *;
    if Escape(s) == s {
      KeptMeansUnquoted(s);
      EscapeIsSafe(s);
    }
    if HtmlSafe(s) && Unquoted(s) {
      SafeMeansKept(s);
    }
  }

  lemma SafeSuffix(s: seq<byte>, n: nat)
    requires HtmlSafe(s) && Unquoted(s) && n <= |s|
    ensures HtmlSafe(s[n..]) && Unquoted(s[n..])
  {
    forall k | 0 <= k < |s[n..]|
      ensures !SeparatorAt(s[n..], k)
    {
      assert !SeparatorAt(s, n + k);
    }
  }

  const HEX := Ascii("0123456789abcdef")

  lemma EscapeOne(s: seq<byte>)
    requires s != [] && RuneLength(s) == |s|
    ensures Escape(s) == EscapeRune(s)
  {
    assert s[..|s|] == s && s[|s|..] == [];
    assert Escape([]) == [];
  }

  // The short escapes.
  lemma ShortEscapes()
    ensures Escape([8]) == Ascii("\\b") && Escape([9]) == Ascii("\\t") && Escape([10]) == Ascii("\\n")
    ensures Escape([12]) == Ascii("\\f") && Escape([13]) == Ascii("\\r")
    ensures Escape(Ascii("\"")) == Ascii("\\\"") && Escape(Ascii("\\")) == Ascii("\\\\")
  {
    EscapeOne([8]);
    EscapeOne([9]);
    EscapeOne([10]);
    EscapeOne([12]);
    EscapeOne([13]);
    EscapeOne([34]);
    EscapeOne([92]);
    assert Ascii("\"") == [34] && Ascii("\\") == [92];
  }

  // The other control characters and < > &, in lower-case hex.
  lemma HexEscapes(c: byte)
    requires (c < 0x20 && c !in {8, 9, 10, 12, 13}) || c in Ascii("<>&")
    ensures Escape([c]) == Ascii("\\u00") + [HEX[c / 16], HEX[c % 16]]
  {
    EscapeOne([c]);
    HexDigits(c / 16);
    HexDigits(c % 16);
    assert Ascii("\\u00") == [BACKSLASH, 117, ZERO, ZERO];
    hide HexDigit;
  }

  lemma HexDigits(v: nat)
    requires v < 16
    ensures HexDigit(v) == HEX[v]
  {
  }

  lemma SeparatorEscapes()
    ensures Escape([0xe2, 0x80, 0xa8]) == Ascii("\\u2028") && Escape([0xe2, 0x80, 0xa9]) == Ascii("\\u2029")
  {
    EscapeOne([0xe2, 0x80, 0xa8]);
    EscapeOne([0xe2, 0x80, 0xa9]);
  }

  // A byte that starts no rune becomes the escape of U+FFFD.
  lemma InvalidEscapes(s: seq<byte>)
    requires s != [] && RuneLength(s) == 0
    ensures Escape(s) == Ascii("\\ufffd") + Escape(s[1..])
  {
  }

  // Escaping never shortens a string.
  lemma {:induction false} EscapeGrows(s: seq<byte>)
    ensures |Escape(s)| >= |s|
  {
    if s != [] {
      var n := RuneLength(s);
      EscapeGrows(if n == 0 then s[1..] else s[n..]);
    }
  }

  // Text that may stand between two quotes: no bare quote, and every backslash
  // is followed by one more byte.
  predicate InsideQuotes(t: seq<byte>) {
    t == [] ||
    (if t[0] == BACKSLASH then |t| >= 2 && InsideQuotes(t[2..]) else t[0] != QUOTE && InsideQuotes(t[1..]))
  }

  lemma {:induction false} InsideConcat(s: seq<byte>, t: seq<byte>)
    requires InsideQuotes(s) && InsideQuotes(t)
    ensures InsideQuotes(s + t)
  {
    if s == [] {
      assert s + t == t;
    } else if s[0] == BACKSLASH {
      assert (s + t)[2..] == s[2..] + t;
      InsideConcat(s[2..], t);
    } else {
      assert (s + t)[1..] == s[1..] + t;
      InsideConcat(s[1..], t);
    }
  }

  lemma {:induction false} InsideRaw(t: seq<byte>)
    requires forall k :: 0 <= k < |t| ==> t[k] != QUOTE && t[k] != BACKSLASH
    ensures InsideQuotes(t)
  {
    if t != [] {
      InsideRaw(t[1..]);
    }
  }

  lemma EscapedUnit(t: seq<byte>)
    requires |t| >= 2 && t[0] == BACKSLASH
    requires forall k :: 2 <= k < |t| ==> t[k] != QUOTE && t[k] != BACKSLASH
    ensures InsideQuotes(t)
  {
    InsideRaw(t[2..]);
  }

  lemma {:induction false} EscapeInsideQuotes(s: seq<byte>)
    ensures InsideQuotes(Escape(s))
  {
    if s != [] {
      var n := RuneLength(s);
      if n == 0 {
        EscapedUnit(REPLACEMENT);
        EscapeInsideQuotes(s[1..]);
        InsideConcat(REPLACEMENT, Escape(s[1..]));
      } else {
        var r := EscapeRune(s[..n]);
        if |r| >= 2 && r[0] == BACKSLASH {
          EscapedUnit(r);
        } else {
          InsideRaw(r);
        }
        EscapeInsideQuotes(s[n..]);
        InsideConcat(r, Escape(s[n..]));
      }
    }
  }

  // The first bare quote ends the literal, so what follows is determined too.
  lemma {:induction false} ClosingQuote(s: seq<byte>, t: seq<byte>, x: seq<byte>, y: seq<byte>)
    requires InsideQuotes(s) && InsideQuotes(t)
    requires s + [QUOTE] + x == t + [QUOTE] + y
    ensures s == t && x == y
    decreases |s|
  {
    var left, right := s + [QUOTE] + x, t + [QUOTE] + y;
    assert left[0] == right[0];
    if s == [] || t == [] {
      assert s == t == [];
      assert left[1..] == x && right[1..] == y;
    } else {
      var k := if s[0] == BACKSLASH then 2 else 1;
      assert left[k..] == s[k..] + [QUOTE] + x && right[k..] == t[k..] + [QUOTE] + y;
      assert k == 2 ==> left[1] == right[1];
      ClosingQuote(s[k..], t[k..], x, y);
      assert s == s[..k] + s[k..] && t == t[..k] + t[k..];
      assert s[..k] == left[..k] && t[..k] == right[..k];
    }
  }

  function HexValue(c: byte): Option<nat> {
    if IsDigit(c) then Some(c - ZERO)
    else if 97 <= c <= 102 then Some(c - 87)
    else if 65 <= c <= 70 then Some(c - 55)
    else None
  }

  function Prepend(head: seq<byte>, tail: Option<seq<byte>>): Option<seq<byte>> {
    if tail.None? then None else Some(head + tail.value)
  }

  function SimpleEscape(c: byte): Option<byte> {
    if c == QUOTE || c == BACKSLASH || c == 47 then Some(c)
    else if c == 98 then Some(8)
    else if c == 102 then Some(12)
    else if c == 110 then Some(10)
    else if c == 114 then Some(13)
    else if c == 116 then Some(9)
    else None
  }

  // The four hex digits after \u. Surrogates give None: the printer has none.
  function UnicodeEscape(t: seq<byte>): Option<seq<byte>>
    requires |t| >= 4
  {
    var a, b, c, d := HexValue(t[0]), HexValue(t[1]), HexValue(t[2]), HexValue(t[3]);
    if a.None? || b.None? || c.None? || d.None? then None
    else
      var v := 4096 * a.value + 256 * b.value + 16 * c.value + d.value;
      if v >= 0x1_0000 || 0xd800 <= v <= 0xdfff then None else Some(EncodeRune(v))
  }

  // JSON.parse of a literal, given the text between its quotes. None is a
  // syntax error.
  function Unescape(t: seq<byte>): Option<seq<byte>>
  {
    if t == [] then Some([])
    else if t[0] == BACKSLASH then
      if |t| < 2 then None
      else if t[1] == 117 then
        if |t| < 6 || UnicodeEscape(t[2..6]).None? then None
        else Prepend(UnicodeEscape(t[2..6]).value, Unescape(t[6..]))
      else if SimpleEscape(t[1]).None? then None
      else Prepend([SimpleEscape(t[1]).value], Unescape(t[2..]))
    else if t[0] == QUOTE || t[0] < 0x20 then None
    else Prepend([t[0]], Unescape(t[1..]))
  }

  lemma {:induction false} UnescapeRaw(raw: seq<byte>, rest: seq<byte>)
    requires forall k :: 0 <= k < |raw| ==> raw[k] >= 0x20 && raw[k] != QUOTE && raw[k] != BACKSLASH
    ensures Unescape(raw + rest) == Prepend(raw, Unescape(rest))
  {
    if raw == [] {
      assert raw + rest == rest;
      assert Unescape(rest).Some? ==> [] + Unescape(rest).value == Unescape(rest).value;
    } else {
      assert (raw + rest)[1..] == raw[1..] + rest;
      UnescapeRaw(raw[1..], rest);
      assert Unescape(rest).Some? ==>
        [raw[0]] + (raw[1..] + Unescape(rest).value) == raw + Unescape(rest).value;
    }
  }

  lemma HexRoundTrip(v: nat)
    requires v < 16
    ensures HexValue(HexDigit(v)) == Some(v)
  {
  }

  lemma FirstRune(s: seq<byte>) returns (rune: seq<byte>, rest: seq<byte>)
    requires s != [] && ValidUtf8(s)
    ensures s == rune + rest && rune != [] && RuneLength(rune) == |rune| && ValidUtf8(rest)
    ensures Escape(s) == EscapeRune(rune) + Escape(rest)
  {
    var n := RuneLength(s);
    rune, rest := s[..n], s[n..];
  }

  lemma UnescapeRune(rune: seq<byte>, rest: seq<byte>)
    requires rune != [] && RuneLength(rune) == |rune|
    ensures Unescape(EscapeRune(rune) + rest) == Prepend(rune, Unescape(rest))
  {
    var r := EscapeRune(rune);
    var t := r + rest;
    if |rune| >= 2 {
      RuneBytes(rune);
      if r == rune {
        UnescapeRaw(rune, rest);
      } else {
        assert t[2..6] == [ZERO + 2, ZERO, ZERO + 2, HexDigit(rune[2] % 16)] && t[6..] == rest;
        HexRoundTrip(rune[2] % 16);
      }
    } else {
      var c := rune[0];
      assert rune == [c];
      if |r| == 6 {
        assert t[2..6] == [ZERO, ZERO, HexDigit(c / 16), HexDigit(c % 16)] && t[6..] == rest;
        HexRoundTrip(c / 16);
        HexRoundTrip(c % 16);
        assert UnicodeEscape(t[2..6]) == Some([c]);
      } else if |r| == 2 {
        assert t[2..] == rest;
      } else {
        UnescapeRaw(rune, rest);
      }
    }
  }

  // Reading a literal gives back the string that was written.
  lemma {:induction false} UnescapeEscape(s: seq<byte>)
    requires ValidUtf8(s)
    ensures Unescape(Escape(s)) == Some(s)
  {
    if s != [] {
      var rune, rest := FirstRune(s);
      UnescapeEscape(rest);
      UnescapeRune(rune, Escape(rest));
    }
  }
}
