// The page's reader of a response: it classifies each array element as the
// bytes arrive and compares it with the rule.
module Tokenizer {
  import opened Bytes
  import Decimal
  import opened Utf8
  import opened JsonText
  import opened Options
  import opened Rule

  // What the page knows while it reads. cats has one entry for each element so
  // far, and wrong counts the ones that differ from the rule. thrown stands for
  // an exception of JSON.parse.
  datatype Tok = Tok(buf: seq<byte>, inStr: bool, esc: bool, digits: bool, num: nat,
                     cats: seq<nat>, counts: seq<nat>, wrong: nat, thrown: bool)

  const START := Tok([], false, false, true, 0, [], [0, 0, 0, 0, 0], 0, false)

  const BOM: seq<byte> := [0xef, 0xbb, 0xbf]

  // TextDecoder drops a byte order mark at the front.
  function StripBom(s: seq<byte>): seq<byte> {
    if BOM <= s then s[3..] else s
  }

  function Push(t: Tok, c: byte): Tok {
    var u := t.(buf := t.buf + [c]);
    if !t.digits then u
    else if IsDigit(c) then u.(num := t.num * 10 + (c - ZERO))
    else u.(digits := false)
  }

  // 0 a number, 1 str1, 2 str2, 3 both, 4 something else
  function Compare(p: Params, s: seq<byte>): (cat: nat)
    ensures 1 <= cat <= 4
  {
    if s == p.str1 + p.str2 then 3 else if s == p.str1 then 1 else if s == p.str2 then 2 else 4
  }

  function Want(p: Params, i: nat): nat
    requires HasDivisors(p)
  {
    (if i % p.int1 == 0 then 1 else 0) + (if i % p.int2 == 0 then 2 else 0)
  }

  function Classify(p: Params, t: Tok, i: nat): Option<nat> {
    if t.digits && |t.buf| > 0 && t.num == i then Some(0)
    else
      var s := Unescape(StripBom(t.buf));
      if s.None? then None else Some(Compare(p, s.value))
  }

  function Bump(counts: seq<nat>, cat: nat): (r: seq<nat>)
    ensures |r| == |counts|
  {
    if cat < |counts| then counts[cat := counts[cat] + 1] else counts
  }

  function Note(p: Params, t: Tok, i: nat, cat: nat): Tok
    requires HasDivisors(p)
  {
    t.(cats := t.cats + [cat], counts := Bump(t.counts, cat), wrong := if cat != Want(p, i) then t.wrong + 1 else t.wrong)
  }

  function End(p: Params, t: Tok): Tok
    requires HasDivisors(p)
  {
    var i := |t.cats| + 1;
    var cat := Classify(p, t, i);
    if cat.None? then t.(thrown := true) else Note(p, t, i, cat.value)
  }

  // One byte of a chunk. Nothing more is read once n elements are classified.
  function Step(p: Params, n: nat, t: Tok, c: byte): Tok
    requires HasDivisors(p)
  {
    if |t.cats| >= n || t.thrown then t
    else if !t.inStr then
      if c == QUOTE then t.(inStr := true, buf := [], digits := true, num := 0) else t
    else if t.esc then Push(t.(esc := false), c)
    else if c == BACKSLASH then Push(t.(esc := true, digits := false), c)
    else if c == QUOTE then End(p, t.(inStr := false))
    else Push(t, c)
  }

  function Feed(p: Params, n: nat, t: Tok, bytes: seq<byte>): Tok
    requires HasDivisors(p)
    decreases |bytes|
  {
    if bytes == [] then t else Feed(p, n, Step(p, n, t, bytes[0]), bytes[1..])
  }

  lemma {:induction false} FeedConcat(p: Params, n: nat, t: Tok, x: seq<byte>, y: seq<byte>)
    requires HasDivisors(p)
    ensures Feed(p, n, t, x + y) == Feed(p, n, Feed(p, n, t, x), y)
    decreases |x|
  {
    if x == [] {
      assert x + y == y;
    } else {
      assert (x + y)[1..] == x[1..] + y;
      FeedConcat(p, n, Step(p, n, t, x[0]), x[1..], y);
    }
  }

  function FeedChunks(p: Params, n: nat, t: Tok, chunks: seq<seq<byte>>): Tok
    requires HasDivisors(p)
    decreases |chunks|
  {
    if chunks == [] then t else FeedChunks(p, n, Feed(p, n, t, chunks[0]), chunks[1..])
  }

  function Flatten(chunks: seq<seq<byte>>): seq<byte> {
    if chunks == [] then [] else chunks[0] + Flatten(chunks[1..])
  }

  // However the network cuts the response, the page ends in the same state.
  lemma {:induction false} ChunkingIsIrrelevant(p: Params, n: nat, t: Tok, chunks: seq<seq<byte>>)
    requires HasDivisors(p)
    ensures FeedChunks(p, n, t, chunks) == Feed(p, n, t, Flatten(chunks))
    decreases |chunks|
  {
    if chunks != [] {
      ChunkingIsIrrelevant(p, n, Feed(p, n, t, chunks[0]), chunks[1..]);
      FeedConcat(p, n, t, chunks[0], Flatten(chunks[1..]));
    }
  }

  // ---- reading what the printer writes ----

  ghost predicate Reading(t: Tok, text: seq<byte>) {
    && t.inStr && !t.esc && !t.thrown && t.buf == text
    && (t.digits <==> AllDigits(text))
    && (t.digits ==> t.num == Decimal.Value(text))
  }

  predicate SameResults(t: Tok, u: Tok) {
    u.cats == t.cats && u.counts == t.counts && u.wrong == t.wrong && u.thrown == t.thrown
  }

  lemma PushReads(t: Tok, text: seq<byte>, c: byte)
    requires Reading(t, text)
    ensures Reading(Push(t, c), text + [c]) && SameResults(t, Push(t, c))
  {
    var more := text + [c];
    assert more[..|more| - 1] == text;
    if AllDigits(more) {
      assert forall k :: 0 <= k < |text| ==> text[k] == more[k];
      assert IsDigit(more[|text|]);
    } else if t.digits {
      assert !IsDigit(c);
    }
  }

  // An escape is two bytes of the text, and never digits.
  lemma EscapeReads(p: Params, n: nat, t: Tok, text: seq<byte>, c: byte)
    requires HasDivisors(p) && Reading(t, text) && |t.cats| < n
    ensures var u := Feed(p, n, t, [BACKSLASH, c]);
      Reading(u, text + [BACKSLASH, c]) && SameResults(t, u)
  {
    var two := [BACKSLASH, c];
    var u := Step(p, n, t, BACKSLASH);
    assert two[1..] == [c] && [c][1..] == [];
    assert Feed(p, n, t, two) == Feed(p, n, u, [c]) == Step(p, n, u, c);
    assert (text + two)[|text|] == BACKSLASH;
    assert text + [BACKSLASH] + [c] == text + two;
  }

  // Inside the quotes every byte of the literal lands in the buffer.
  lemma {:induction false} InsideReads(p: Params, n: nat, t: Tok, text: seq<byte>, rest: seq<byte>)
    requires HasDivisors(p) && Reading(t, text) && InsideQuotes(rest) && |t.cats| < n
    ensures var u := Feed(p, n, t, rest); Reading(u, text + rest) && SameResults(t, u)
    decreases |rest|
  {
    if rest == [] {
      assert text + rest == text;
    } else if rest[0] == BACKSLASH {
      var two := [BACKSLASH, rest[1]];
      assert rest == two + rest[2..];
      EscapeReads(p, n, t, text, rest[1]);
      FeedConcat(p, n, t, two, rest[2..]);
      InsideReads(p, n, Feed(p, n, t, two), text + two, rest[2..]);
      assert text + two + rest[2..] == text + rest;
    } else {
      PushReads(t, text, rest[0]);
      InsideReads(p, n, Step(p, n, t, rest[0]), text + [rest[0]], rest[1..]);
      assert text + [rest[0]] + rest[1..] == text + rest;
    }
  }

  // A whole element, with whatever separator is before it.
  lemma ElementReads(p: Params, n: nat, t: Tok, sep: byte, text: seq<byte>) returns (u: Tok)
    requires HasDivisors(p) && !t.inStr && !t.esc && !t.thrown && |t.cats| < n && sep != QUOTE && InsideQuotes(text)
    ensures Reading(u, text) && SameResults(t, u)
    ensures Feed(p, n, t, [sep, QUOTE] + text + [QUOTE]) == End(p, u.(inStr := false))
  {
    var begun := t.(inStr := true, buf := [], digits := true, num := 0);
    var start := [sep, QUOTE];
    assert start[1..] == [QUOTE] && [QUOTE][1..] == [];
    assert Feed(p, n, t, start) == Feed(p, n, Step(p, n, t, sep), [QUOTE]) == begun;
    assert Reading(begun, []);
    u := Feed(p, n, begun, text);
    InsideReads(p, n, begun, [], text);
    assert [] + text == text;
    FeedConcat(p, n, t, start, text);
    FeedConcat(p, n, t, start + text, [QUOTE]);
    assert Feed(p, n, u, [QUOTE]) == Step(p, n, u, QUOTE);
  }

  // ---- what the page makes of an element ----

  predicate ReadsAsNumber(s: seq<byte>, i: nat) {
    s != [] && AllDigits(s) && Decimal.Value(s) == i
  }

  // The category of element i, in terms of the rule and not of its encoding.
  function Category(p: Params, i: nat): nat
    requires HasDivisors(p)
  {
    var s := Element(p, i);
    if ReadsAsNumber(s, i) then 0 else Compare(p, StripBom(s))
  }

  lemma EscapedRuneIsNoDigit(rune: seq<byte>)
    requires rune != [] && RuneLength(rune) == |rune| && !AllDigits(rune)
    ensures !AllDigits(EscapeRune(rune))
  {
    if |rune| >= 2 {
      RuneBytes(rune);
    }
    assert !IsDigit(EscapeRune(rune)[0]);
  }

  lemma {:induction false} EscapeKeepsNonDigit(s: seq<byte>)
    requires ValidUtf8(s) && !AllDigits(s)
    ensures !AllDigits(Escape(s))
  {
    var rune, rest := FirstRune(s);
    var head := EscapeRune(rune);
    DigitsOfConcat(rune, rest);
    DigitsOfConcat(head, Escape(rest));
    hide Escape, EscapeRune, RuneLength, ValidUtf8, AllDigits;
    if AllDigits(rest) {
      EscapedRuneIsNoDigit(rune);
    } else {
      EscapeKeepsNonDigit(rest);
    }
  }

  lemma DigitsOfConcat(s: seq<byte>, t: seq<byte>)
    ensures AllDigits(s + t) <==> AllDigits(s) && AllDigits(t)
  {
    assert forall k :: 0 <= k < |s| ==> (s + t)[k] == s[k];
    assert forall k :: 0 <= k < |t| ==> (s + t)[|s| + k] == t[k];
  }

  lemma EscapeDigits(s: seq<byte>)
    requires ValidUtf8(s)
    ensures AllDigits(Escape(s)) <==> AllDigits(s)
    ensures AllDigits(s) ==> Escape(s) == s
    ensures Escape(s) == [] <==> s == []
  {
    if AllDigits(s) {
      EscapePlain(s);
    } else {
      EscapeKeepsNonDigit(s);
    }
    EscapeGrows(s);
  }

  // The mark is one rune, copied as it is, and nothing else starts like it.
  lemma BomEscape(s: seq<byte>)
    requires ValidUtf8(s)
    ensures StripBom(Escape(s)) == Escape(StripBom(s)) && ValidUtf8(StripBom(s))
  {
    if s != [] {
      var rune, rest := FirstRune(s);
      if BOM <= s {
        assert rune == BOM && rest == s[3..];
        assert Escape(s) == BOM + Escape(rest);
      } else {
        NoBom(rune, Escape(rest));
        assert rune != BOM by { assert rune == BOM ==> BOM <= s; }
      }
    }
  }

  lemma NoBom(rune: seq<byte>, tail: seq<byte>)
    requires rune != [] && RuneLength(rune) == |rune|
    ensures BOM <= EscapeRune(rune) + tail ==> rune == BOM
  {
    var text := EscapeRune(rune) + tail;
    if BOM <= text {
      assert text[0] == 0xef && text[1] == 0xbb && text[2] == 0xbf;
    }
  }

  // The category of a literal that was read completely.
  lemma EndClassifies(p: Params, u: Tok, s: seq<byte>, i: nat)
    requires ValidUtf8(s) && Reading(u, Escape(s))
    ensures Classify(p, u, i) == Some(if ReadsAsNumber(s, i) then 0 else Compare(p, StripBom(s)))
  {
    EscapeDigits(s);
    BomEscape(s);
    UnescapeEscape(StripBom(s));
  }

  // What the page has after k elements.
  function Outcome(p: Params, k: nat): (r: (seq<nat>, seq<nat>, nat))
    requires HasDivisors(p)
    ensures |r.0| == k && |r.1| == 5
  {
    if k == 0 then ([], [0, 0, 0, 0, 0], 0)
    else
      var (cats, counts, wrong) := Outcome(p, k - 1);
      var cat := Category(p, k);
      (cats + [cat], Bump(counts, cat), if cat != Want(p, k) then wrong + 1 else wrong)
  }

  ghost function WrongUpTo(p: Params, k: nat): set<int>
    requires HasDivisors(p)
  {
    set i | 1 <= i <= k && Category(p, i) != Want(p, i)
  }

  lemma {:induction false} OutcomeMeans(p: Params, k: nat)
    requires HasDivisors(p)
    ensures forall j :: 0 <= j < k ==> Outcome(p, k).0[j] == Category(p, j + 1)
    ensures Outcome(p, k).2 == |WrongUpTo(p, k)|
  {
    hide Category, Want, Bump;
    if k > 0 {
      OutcomeMeans(p, k - 1);
      var before := WrongUpTo(p, k - 1);
      assert WrongUpTo(p, k) == if Category(p, k) != Want(p, k) then before + {k} else before;
    }
  }

  // The counters of the map are the numbers of elements in each category.
  lemma {:induction false} CountsTally(p: Params, k: nat, c: nat)
    requires HasDivisors(p) && c < 5
    ensures Outcome(p, k).1[c] == multiset(Outcome(p, k).0)[c]
  {
    hide Category, Want;
    if k > 0 {
      CountsTally(p, k - 1, c);
    }
  }

  ghost predicate Between(p: Params, t: Tok, k: nat)
    requires HasDivisors(p)
  {
    !t.inStr && !t.esc && !t.thrown && (t.cats, t.counts, t.wrong) == Outcome(p, k)
  }

  lemma {:induction false} FeedStops(p: Params, n: nat, t: Tok, bytes: seq<byte>)
    requires HasDivisors(p) && (|t.cats| >= n || t.thrown || bytes == [])
    ensures Feed(p, n, t, bytes) == t
    decreases |bytes|
  {
    if bytes != [] {
      FeedStops(p, n, t, bytes[1..]);
    }
  }

  lemma NoteBetween(p: Params, t: Tok, v: Tok, k: nat)
    requires HasDivisors(p) && Between(p, t, k) && SameResults(t, v) && !v.inStr && !v.esc
    ensures |v.cats| == k && Between(p, Note(p, v, k + 1, Category(p, k + 1)), k + 1)
  {
  }

  lemma QuotePiece(sep: byte, s: seq<byte>)
    ensures [sep] + Quote(s) == [sep, QUOTE] + Escape(s) + [QUOTE]
  {
    hide Escape;
    assert [sep, QUOTE] == [sep] + [QUOTE];
  }

  // One more element of the response.
  lemma OneElement(p: Params, n: nat, t: Tok, sep: byte, k: nat)
    requires HasDivisors(p) && HasText(p) && k < n && Between(p, t, k) && sep != QUOTE
    ensures Between(p, Feed(p, n, t, [sep] + Quote(Element(p, k + 1))), k + 1)
  {
    hide Escape, Element, Feed, Classify, InsideQuotes, ValidUtf8, Quote, Outcome, Category, HasText;
    var s := Element(p, k + 1);
    ElementValid(p, k + 1);
    EscapeInsideQuotes(s);
    OutcomeLength(p, t, k);
    var u := ElementReads(p, n, t, sep, Escape(s));
    EndClassifies(p, u, s, k + 1);
    CategoryOf(p, s, k + 1);
    QuotePiece(sep, s);
    var v := u.(inStr := false);
    SameClass(p, u, v, k + 1);
    NoteBetween(p, t, v, k);
  }

  lemma CategoryOf(p: Params, s: seq<byte>, i: nat)
    requires HasDivisors(p) && s == Element(p, i)
    ensures Category(p, i) == if ReadsAsNumber(s, i) then 0 else Compare(p, StripBom(s))
  {
  }

  lemma SameClass(p: Params, u: Tok, v: Tok, i: nat)
    requires v == u.(inStr := false)
    ensures Classify(p, v, i) == Classify(p, u, i)
  {
  }

  lemma LaterElement(p: Params, n: nat, t: Tok, k: nat)
    requires HasDivisors(p) && HasText(p) && Between(p, t, if k <= n then k else n)
    ensures Between(p, Feed(p, n, t, [COMMA] + Quote(Element(p, k + 1))), if k + 1 <= n then k + 1 else n)
  {
    hide Feed, Element, Quote, Outcome, HasText;
    if k < n {
      OneElement(p, n, t, COMMA, k);
    } else {
      OutcomeLength(p, t, n);
      FeedStops(p, n, t, [COMMA] + Quote(Element(p, k + 1)));
    }
  }

  lemma ReferenceSnoc(p: Params, k: nat)
    requires HasDivisors(p) && k >= 1
    ensures Join(Reference(p, k)) ==
      if k == 1 then Quote(Element(p, 1)) else Join(Reference(p, k - 1)) + [COMMA] + Quote(Element(p, k))
  {
    JoinSnoc(Reference(p, k - 1), Element(p, k));
  }

  lemma GroupSnoc(a: seq<byte>, b: seq<byte>, c: seq<byte>, d: seq<byte>)
    ensures a + (b + c + d) == (a + b) + (c + d)
  {
  }

  // The response without its closing bracket, read up to the n-th element.
  lemma {:induction false} ReadsElements(p: Params, n: nat, k: nat)
    requires HasDivisors(p) && HasText(p) && k >= 1
    ensures Between(p, Feed(p, n, START, [OPEN] + Join(Reference(p, k))), if k <= n then k else n)
    decreases k
  {
    hide Feed, Join, Quote, Outcome, Element, Reference, Between, HasText;
    ReferenceSnoc(p, k);
    if k == 1 {
      FirstElement(p, n, Element(p, 1));
    } else {
      var front, piece := [OPEN] + Join(Reference(p, k - 1)), [COMMA] + Quote(Element(p, k));
      ReadsElements(p, n, k - 1);
      LaterElement(p, n, Feed(p, n, START, front), k - 1);
      GroupSnoc([OPEN], Join(Reference(p, k - 1)), [COMMA], Quote(Element(p, k)));
      FeedConcat(p, n, START, front, piece);
    }
  }

  lemma OutcomeLength(p: Params, t: Tok, k: nat)
    requires HasDivisors(p) && Between(p, t, k)
    ensures |t.cats| == k
  {
  }

  lemma FirstElement(p: Params, n: nat, x: seq<byte>)
    requires HasDivisors(p) && HasText(p) && x == Element(p, 1)
    ensures Between(p, Feed(p, n, START, [OPEN] + Quote(x)), if 1 <= n then 1 else n)
  {
    assert Between(p, START, 0);
    if n >= 1 {
      OneElement(p, n, START, OPEN, 0);
    } else {
      FeedStops(p, n, START, [OPEN] + Quote(x));
    }
  }

  // Reading a whole response gives the categories of the first n elements.
  lemma ReadsResponse(p: Params, n: nat, limit: nat)
    requires HasDivisors(p) && HasText(p) && n <= limit
    ensures Between(p, Feed(p, n, START, Response(p, limit)), n)
  {
    var front := [OPEN] + Join(Reference(p, limit));
    if limit == 0 {
      assert front == [OPEN] && [OPEN][1..] == [];
    } else {
      ReadsElements(p, n, limit);
    }
    FeedConcat(p, n, START, front, [CLOSE]);
    OutcomeLength(p, Feed(p, n, START, front), n);
    FeedStops(p, n, Feed(p, n, START, front), [CLOSE]);
  }

  // ---- when the page agrees with the rule ----

  // A condition on the request alone: element i is a number, or its string does
  // not read as the number i, has no byte order mark, and is not str2 when str1
  // is the same string.
  predicate Agrees(p: Params, i: nat)
    requires HasDivisors(p)
  {
    var m1, m2 := i % p.int1 == 0, i % p.int2 == 0;
    if m1 then
      var s := if m2 then p.str1 + p.str2 else p.str1;
      !ReadsAsNumber(s, i) && !(BOM <= p.str1)
    else if m2 then
      !ReadsAsNumber(p.str2, i) && !(BOM <= p.str2) && p.str1 != p.str2
    else true
  }

  lemma BomOfConcat(s: seq<byte>, t: seq<byte>)
    requires ValidUtf8(s) && s != []
    ensures BOM <= s + t <==> BOM <= s
  {
    if BOM <= s + t {
      assert (s + t)[0] == 0xef && (s + t)[1] == 0xbb && (s + t)[2] == 0xbf;
      assert RuneLength(s) == 3;
    }
  }

  // The category of an element is the one that the rule wants, exactly when the
  // request agrees at that element.
  lemma CategoryIsRight(p: Params, i: nat)
    requires HasDivisors(p) && HasText(p) && i >= 1
    ensures Category(p, i) == Want(p, i) <==> Agrees(p, i)
  {
    BomOfConcat(p.str1, p.str2);
    Decimal.ValueOfText(i);
    var m1, m2 := i % p.int1 == 0, i % p.int2 == 0;
    var s12 := p.str1 + p.str2;
    assert s12 != p.str1 && s12 != p.str2 && |StripBom(s12)| <= |s12|;
    if m1 && m2 {
      assert Element(p, i) == s12 && Want(p, i) == 3;
    } else if m1 {
      assert Element(p, i) == p.str1 && Want(p, i) == 1;
    } else if m2 {
      assert Element(p, i) == p.str2 && Want(p, i) == 2;
    } else {
      assert Element(p, i) == Decimal.Text(i) && Want(p, i) == 0;
    }
  }

  // The page counts as wrong exactly the elements at which the request does not
  // agree.
  lemma WrongAreDisagreements(p: Params, n: nat, limit: nat)
    requires HasDivisors(p) && HasText(p) && n <= limit
    ensures Feed(p, n, START, Response(p, limit)).wrong == |set i | 1 <= i <= n && !Agrees(p, i)|
    ensures !Feed(p, n, START, Response(p, limit)).thrown
  {
    ReadsResponse(p, n, limit);
    OutcomeMeans(p, n);
    forall i: nat | 1 <= i <= n
      ensures Category(p, i) == Want(p, i) <==> Agrees(p, i)
    {
      CategoryIsRight(p, i);
    }
    assert WrongUpTo(p, n) == set i | 1 <= i <= n && !Agrees(p, i);
    hide Feed, Response, Agrees, Category, Want, Reference, Element, Outcome;
  }

  // It finds no wrong element exactly when the request agrees everywhere.
  lemma NoneWrongIffAgrees(p: Params, n: nat, limit: nat)
    requires HasDivisors(p) && HasText(p) && n <= limit
    ensures Feed(p, n, START, Response(p, limit)).wrong == 0 <==> forall i :: 1 <= i <= n ==> Agrees(p, i)
    ensures !Feed(p, n, START, Response(p, limit)).thrown
  {
    hide Feed, Response, Agrees;
    WrongAreDisagreements(p, n, limit);
    var wrong := set i | 1 <= i <= n && !Agrees(p, i);
    if wrong != {} {
      var i :| i in wrong;
      assert |wrong| >= |{i}|;
    }
    assert |wrong| == 0 <==> wrong == {};
    assert wrong == {} <==> forall i :: 1 <= i <= n ==> Agrees(p, i) by {
      assert forall i :: 1 <= i <= n && !Agrees(p, i) ==> i in wrong;
    }
  }

  lemma Misread(p: Params, i: nat, limit: nat)
    requires HasDivisors(p) && HasText(p) && 1 <= i <= limit && !Agrees(p, i)
    ensures Feed(p, limit, START, Response(p, limit)).wrong > 0
  {
    hide Feed, Response, Agrees;
    NoneWrongIffAgrees(p, limit, limit);
  }

  // A string that is the number it replaces.
  lemma DigitStringMisread()
    ensures var p := Params(2, 3, 3, [50], [98]); Feed(p, 3, START, Response(p, 3)).wrong > 0
  {
    hide Feed, Response;
    assert [50][..0] == [];
    Misread(Params(2, 3, 3, [50], [98]), 2, 3);
  }

  // The same string twice.
  lemma EqualStringsMisread()
    ensures var p := Params(2, 3, 3, [97], [97]); Feed(p, 3, START, Response(p, 3)).wrong > 0
  {
    hide Feed, Response;
    Misread(Params(2, 3, 3, [97], [97]), 3, 3);
  }

  // A byte order mark in front.
  lemma MarkMisread()
    ensures var p := Params(2, 3, 3, [0xef, 0xbb, 0xbf, 97], [98]); Feed(p, 3, START, Response(p, 3)).wrong > 0
  {
    hide Feed, Response;
    assert [0xef, 0xbb, 0xbf, 97][3..] == [97];
    Misread(Params(2, 3, 3, [0xef, 0xbb, 0xbf, 97], [98]), 2, 3);
  }

  predicate Ordinary(p: Params) {
    p.str1 != p.str2 && !AllDigits(p.str1) && !AllDigits(p.str2) && !(BOM <= p.str1) && !(BOM <= p.str2)
  }

  lemma OrdinaryAgrees(p: Params, i: nat)
    requires HasDivisors(p) && Ordinary(p)
    ensures Agrees(p, i)
  {
    var k :| 0 <= k < |p.str1| && !IsDigit(p.str1[k]);
    assert !IsDigit((p.str1 + p.str2)[k]);
  }

  lemma CatsAreWanted(p: Params, n: nat, limit: nat)
    requires HasDivisors(p) && HasText(p) && n <= limit && Ordinary(p)
    ensures var t := Feed(p, n, START, Response(p, limit));
      t.wrong == 0 && !t.thrown && |t.cats| == n && forall j :: 0 <= j < n ==> t.cats[j] == Want(p, j + 1)
  {
    ReadsResponse(p, n, limit);
    NoneWrongIffAgrees(p, n, limit);
    OutcomeMeans(p, n);
    forall i: nat | 1 <= i <= n
      ensures Category(p, i) == Want(p, i) && Agrees(p, i)
    {
      OrdinaryAgrees(p, i);
      CategoryIsRight(p, i);
    }
    hide Feed, Response, Agrees, Category, Want, Reference, Element, Outcome;
  }

  // Different strings, each with a non-digit and no mark in front, always agree:
  // then the printer and the reader fit together.
  lemma OrdinaryStringsAgree(p: Params, n: nat, limit: nat, chunks: seq<seq<byte>>)
    requires HasDivisors(p) && HasText(p) && n <= limit && Flatten(chunks) == Response(p, limit)
    requires p.str1 != p.str2 && !AllDigits(p.str1) && !AllDigits(p.str2) && !(BOM <= p.str1) && !(BOM <= p.str2)
    ensures var t := FeedChunks(p, n, START, chunks);
      && t.wrong == 0 && !t.thrown && |t.cats| == n
      && forall i :: 1 <= i <= n ==>
           t.cats[i - 1] == if i % p.int1 == 0 && i % p.int2 == 0 then 3 else if i % p.int1 == 0 then 1 else if i % p.int2 == 0 then 2 else 0
  {
    hide Feed, FeedChunks, Flatten, Response, AllDigits, HasText;
    ChunkingIsIrrelevant(p, n, START, chunks);
    CatsAreWanted(p, n, limit);
    var t := Feed(p, n, START, Response(p, limit));
    forall i: nat | 1 <= i <= n
      ensures t.cats[i - 1] == Want(p, i)
    {
      assert t.cats[i - 1] == Want(p, i - 1 + 1);
    }
  }

  // The closure of the page, with its growing buffer and the map that it fills.
  class Reader {
    const p: Params
    const n: nat
    var buf: array<byte>
    var len: nat
    var inStr: bool
    var esc: bool
    var digits: bool
    var num: nat
    var cats: array<nat>
    var count: nat
    var counts: array<nat>
    var wrong: nat
    var thrown: bool

    ghost predicate Valid()
      reads this, cats, counts
    {
      HasDivisors(p) && buf.Length > 0 && len <= buf.Length && cats.Length == n && count <= n && counts.Length == 5
      && cats != counts
    }

    ghost function View(): Tok
      requires Valid()
      reads this, buf, cats, counts
    {
      Tok(buf[..len], inStr, esc, digits, num, cats[..count], counts[..], wrong, thrown)
    }

    constructor (p: Params, n: nat)
      requires HasDivisors(p)
      ensures Valid() && fresh(buf) && fresh(cats) && fresh(counts) && View() == START && this.p == p && this.n == n
    {
      this.p, this.n := p, n;
      buf := new byte[16384];
      cats := new nat[n];
      counts := new nat[5](_ => 0);
      len, inStr, esc, digits, num := 0, false, false, true, 0;
      count, wrong, thrown := 0, 0, false;
    }

    // push: appends one byte, and doubles a full buffer first.
    method PushByte(c: byte)
      requires Valid()
      modifies this`buf, this`len, this`digits, this`num, buf
      ensures Valid() && View() == Push(old(View()), c) && (buf == old(buf) || fresh(buf))
    {
      ghost var before := buf[..len];
      if len == buf.Length {
        var g := new byte[len * 2];
        forall k | 0 <= k < len {
          g[k] := buf[k];
        }
        buf := g;
        assert buf[..len] == before;
      }
      buf[len] := c;
      len := len + 1;
      assert buf[..len] == before + [c];
      if digits {
        if ZERO <= c <= NINE {
          num := num * 10 + (c - ZERO);
        } else {
          digits := false;
        }
      }
    }

    // end: classifies the element in the buffer.
    method EndElement()
      requires Valid() && count < n
      modifies this`thrown, this`wrong, this`count, cats, counts
      ensures Valid() && View() == End(p, old(View()))
    {
      hide Unescape, StripBom, Compare, Want;
      var i := count + 1;
      var cat := 0;
      if !(digits && len > 0 && num == i) {
        var s := Unescape(StripBom(buf[..len]));
        if s.None? {
          thrown := true;
          return;
        }
        cat := Compare(p, s.value);
      }
      NoteCategory(i, cat);
    }

    method NoteCategory(i: nat, cat: nat)
      requires Valid() && count < n && cat < 5
      modifies this`wrong, this`count, cats, counts
      ensures Valid() && View() == Note(p, old(View()), i, cat)
    {
      hide Want;
      if cat != Want(p, i) {
        wrong := wrong + 1;
      }
      cats[count] := cat;
      count := count + 1;
      counts[cat] := counts[cat] + 1;
      assert cats[..count] == old(cats[..count]) + [cat];
      assert counts[..] == Bump(old(counts[..]), cat);
    }

    // One turn of the loop over a chunk.
    method Take(c: byte)
      requires Valid() && count < n && !thrown
      modifies this, buf, cats, counts
      ensures Valid() && View() == Step(p, n, old(View()), c)
      ensures cats == old(cats) && counts == old(counts) && (buf == old(buf) || fresh(buf))
    {
      if !inStr {
        if c == QUOTE {
          inStr, len, digits, num := true, 0, true, 0;
        }
      } else if esc {
        esc := false;
        PushByte(c);
      } else if c == BACKSLASH {
        esc, digits := true, false;
        PushByte(c);
      } else if c == QUOTE {
        inStr := false;
        EndElement();
      } else {
        PushByte(c);
      }
    }

    // A chunk of the response. It stops after n elements, or at an exception.
    method Chunk(bytes: seq<byte>)
      requires Valid()
      modifies this, buf, cats, counts
      ensures Valid() && View() == Feed(p, n, old(View()), bytes)
      ensures cats == old(cats) && counts == old(counts) && (buf == old(buf) || fresh(buf))
    {
      var k := 0;
      while k < |bytes| && count < n && !thrown
        invariant 0 <= k <= |bytes| && Valid()
        invariant cats == old(cats) && counts == old(counts) && (buf == old(buf) || fresh(buf))
        invariant Feed(p, n, View(), bytes[k..]) == Feed(p, n, old(View()), bytes)
        decreases |bytes| - k
      {
        assert bytes[k..][0] == bytes[k] && bytes[k..][1..] == bytes[k + 1..];
        Take(bytes[k]);
        k := k + 1;
      }
      FeedStops(p, n, View(), bytes[k..]);
    }
  }
}
