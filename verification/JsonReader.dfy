// A reader of JSON strings, numbers and arrays of strings (sections 5 to 7 of
// RFC 8259) that knows nothing of the printer.
module JsonReader {
  import opened Bytes
  import opened Options
  import opened Utf8
  import opened JsonText
  import opened Rule

  // A value and the text after it.
  datatype Parsed<T> = Parsed(value: T, rest: seq<byte>)

  // Where the first bare quote is, or the end of the text.
  function LiteralEnd(t: seq<byte>): (k: nat)
    ensures k <= |t|
  {
    if t == [] || t[0] == QUOTE then 0
    else if t[0] == BACKSLASH && |t| >= 2 then 2 + LiteralEnd(t[2..])
    else 1 + LiteralEnd(t[1..])
  }

  function ReadString(t: seq<byte>): (r: Option<Parsed<seq<byte>>>)
    ensures r.Some? ==> |r.value.rest| < |t|
  {
    if t == [] || t[0] != QUOTE then None
    else
      var text := t[1..];
      var k := LiteralEnd(text);
      if k == |text| || Unescape(text[..k]).None? then None
      else Some(Parsed(Unescape(text[..k]).value, text[k + 1..]))
  }

  lemma {:induction false} LiteralEnds(text: seq<byte>, rest: seq<byte>)
    requires InsideQuotes(text)
    ensures LiteralEnd(text + [QUOTE] + rest) == |text|
    decreases |text|
  {
    var t := text + [QUOTE] + rest;
    if text != [] {
      var k := if text[0] == BACKSLASH then 2 else 1;
      assert t[k..] == text[k..] + [QUOTE] + rest;
      LiteralEnds(text[k..], rest);
    }
  }

  lemma ReadsQuote(s: seq<byte>, rest: seq<byte>)
    requires ValidUtf8(s)
    ensures ReadString(Quote(s) + rest) == Some(Parsed(s, rest))
  {
    var t, text := Quote(s) + rest, Escape(s);
    EscapeInsideQuotes(s);
    LiteralEnds(text, rest);
    UnescapeEscape(s);
    hide Escape, LiteralEnd, Unescape;
    assert t[1..] == text + [QUOTE] + rest;
    assert (text + [QUOTE] + rest)[..|text|] == text;
    assert (text + [QUOTE] + rest)[|text| + 1..] == rest;
  }

  // ---- arrays ----

  // Strings with commas between them, up to the closing bracket.
  function ReadItems(t: seq<byte>): Option<seq<seq<byte>>>
    decreases |t|
  {
    var first := ReadString(t);
    if first.None? then None
    else
      var rest := first.value.rest;
      if rest == Ascii("]") then Some([first.value.value])
      else if rest == [] || rest[0] != ',' as int then None
      else
        var more := ReadItems(rest[1..]);
        if more.None? then None else Some([first.value.value] + more.value)
  }

  function ReadArray(t: seq<byte>): Option<seq<seq<byte>>> {
    if t == [] || t[0] != '[' as int then None
    else if t[1..] == Ascii("]") then Some([])
    else ReadItems(t[1..])
  }

  lemma {:induction false} JoinCons(list: seq<seq<byte>>)
    requires |list| >= 2
    ensures Join(list) == Quote(list[0]) + ([COMMA] + Join(list[1..]))
  {
    hide Quote;
    var front, last := list[..|list| - 1], list[|list| - 1];
    assert list[1..][..|list| - 2] == front[1..] && list[1..][|list| - 2] == last;
    if |list| > 2 {
      JoinCons(front);
      assert Join(list) == Quote(list[0]) + ([COMMA] + Join(front[1..])) + [COMMA] + Quote(last);
      assert Join(list[1..]) == Join(front[1..]) + [COMMA] + Quote(last);
      Regroup(Quote(list[0]), Join(front[1..]), Quote(last));
    } else {
      assert Join(front) == Quote(list[0]) && Join(list[1..]) == Quote(last);
      assert Quote(list[0]) + [COMMA] + Quote(last) == Quote(list[0]) + ([COMMA] + Quote(last));
    }
  }

  lemma Regroup(a: seq<byte>, b: seq<byte>, c: seq<byte>)
    ensures a + ([COMMA] + b) + [COMMA] + c == a + ([COMMA] + (b + [COMMA] + c))
  {
  }

  lemma {:induction false} ReadsJoin(list: seq<seq<byte>>)
    requires list != [] && forall k :: 0 <= k < |list| ==> ValidUtf8(list[k])
    ensures ReadItems(Join(list) + [CLOSE]) == Some(list)
    decreases |list|
  {
    hide ReadString, Quote, ValidUtf8;
    var end: seq<byte> := [CLOSE];
    assert end == Ascii("]");
    if |list| == 1 {
      ReadsQuote(list[0], end);
      assert list == [list[0]];
    } else {
      var tail := Join(list[1..]) + end;
      JoinCons(list);
      assert Quote(list[0]) + ([COMMA] + Join(list[1..])) + end == Quote(list[0]) + ([COMMA] + tail);
      ReadsQuote(list[0], [COMMA] + tail);
      ReadsJoin(list[1..]);
      assert ([COMMA] + tail)[1..] == tail && ([COMMA] + tail)[0] == COMMA;
      assert |[COMMA] + tail| > |Ascii("]")|;
      hide Join, ReadItems;
      assert list == [list[0]] + list[1..];
    }
  }

  // Reading a marshalled list gives back the list.
  lemma ReadsMarshal(list: seq<seq<byte>>)
    requires forall k :: 0 <= k < |list| ==> ValidUtf8(list[k])
    ensures ReadArray(Marshal(list)) == Some(list)
  {
    var t := Marshal(list);
    assert list != [] ==> |Join(list)| > 0;
    hide ReadItems, Quote;
    if list == [] {
      assert t[1..] == [CLOSE] == Ascii("]");
    } else {
      ReadsJoin(list);
      assert t[1..] == Join(list) + [CLOSE];
    }
  }

  // A client that parses the response has the list of the rule.
  lemma ReadsResponse(p: Params, n: nat)
    requires HasDivisors(p) && HasText(p)
    ensures ReadArray(Response(p, n)) == Some(Reference(p, n))
  {
    forall k | 0 <= k < n
      ensures ValidUtf8(Reference(p, n)[k])
    {
      ElementValid(p, k + 1);
    }
    ReadsMarshal(Reference(p, n));
  }
}
