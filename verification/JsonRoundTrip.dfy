/** Parsing printed text gives back the tree that was printed. */
module JsonRoundTrip {
  import opened Bytes
  import opened JsonTree
  import opened JsonGrammar

  /** What may stand behind a printed value: input that is not part of a number. */
  predicate Follow(k: Text)
  {
    Terminated(k) && !NumberByte(k[0])
  }

  // ---- space ----

  lemma {:induction false} SkipSpaceOver(w: Text, s: Text)
    requires s != [] && forall i :: 0 <= i < |w| ==> w[i] <= 32
    ensures SkipSpace(w + s) == SkipSpace(s)
  {
    if w != [] {
      assert (w + s)[1..] == w[1..] + s;
      SkipSpaceOver(w[1..], s);
    } else {
      assert w + s == s;
    }
  }

  // ---- numbers ----

  lemma {:induction false} DigitsAreDigits(n: nat)
    ensures forall i :: 0 <= i < |Digits(n)| ==> IsDigit(Digits(n)[i])
    ensures |Digits(n)| >= 1
  {
    if n >= 10 {
      DigitsAreDigits(n / 10);
    }
  }

  lemma {:induction false} DigitsValueOfDigits(n: nat)
    requires forall i :: 0 <= i < |Digits(n)| ==> IsDigit(Digits(n)[i])
    ensures DigitsValue(Digits(n)) == n
  {
    if n >= 10 {
      DigitsAreDigits(n / 10);
      DigitsValueOfDigits(n / 10);
      assert Digits(n)[..|Digits(n)| - 1] == Digits(n / 10);
    } else {
      assert Digits(n)[..0] == [];
    }
  }

  lemma {:induction false} DigitsLength(n: nat, bound: nat, width: nat)
    requires n < bound && bound == Pow10(width) && width >= 1
    ensures |Digits(n)| <= width
    decreases width
  {
    if n >= 10 {
      DigitsLength(n / 10, Pow10(width - 1), width - 1);
    }
  }

  function Pow10(n: nat): nat { if n == 0 then 1 else 10 * Pow10(n - 1) }

  lemma {:induction false} DigitSpanAll(d: Text, k: Text)
    requires forall i :: 0 <= i < |d| ==> IsDigit(d[i])
    requires k == [] || !IsDigit(k[0])
    ensures DigitSpan(d + k) == |d|
  {
    if d != [] {
      assert (d + k)[1..] == d[1..] + k;
      DigitSpanAll(d[1..], k);
    } else {
      assert d + k == k;
    }
  }

  lemma {:induction false} NumberSpanAll(w: Text, k: Text, limit: nat)
    requires forall i :: 0 <= i < |w| ==> NumberByte(w[i])
    requires |w| <= limit && k != [] && !NumberByte(k[0])
    ensures NumberSpan(w + k, limit) == |w|
  {
    if w != [] {
      assert (w + k)[1..] == w[1..] + k;
      NumberSpanAll(w[1..], k, limit - 1);
    } else {
      assert w + k == k;
    }
  }

  /** strtod undoes "%1.15g" on integers. */
  lemma StrtodOfDecimal(n: int)
    ensures StringToDouble(Decimal(n)) == Strtod(n as real, |Decimal(n)|)
  {
    hide Digits;
    hide DigitSpan;
    hide DigitsValue;
    hide Scale;
    var m := if n < 0 then -n else n;
    var d := Digits(m);
    NoDigits();
    DigitsAreDigits(m);
    DigitsValueOfDigits(m);
    DigitSpanAll(d, []);
    assert d + [] == d;
    var s := Decimal(n);
    var sign := if n < 0 then 1 else 0;
    assert s[sign..] == d;
    assert s[sign..|s|] == d;
    assert s[|s|..|s|] == [] && s[|s|..] == [];
  }

  lemma NoDigits()
    ensures DigitsValue([]) == 0 && DigitSpan([]) == 0 && forall r :: Scale(r, 0) == r
  {
  }

  lemma ParseRenderedNumber(r: real, k: Text)
    requires PlainNumber(r) && Follow(k)
    ensures ParseNumber(Decimal(r.Floor) + k) == Accept(Number(r), k)
  {
    var n := r.Floor;
    var m := if n < 0 then -n else n;
    DigitsAreDigits(m);
    assert Pow10(15) == 1_000_000_000_000_000;
    DigitsLength(m, Pow10(15), 15);
    var w := Decimal(n);
    NumberSpanAll(w, k, 63);
    assert (w + k)[..|w|] == w && (w + k)[|w|..] == k;
    StrtodOfDecimal(n);
  }

  // ---- strings ----

  lemma HexOfHexDigit(n: nat)
    requires n < 16
    ensures HexValue(HexDigit(n)) == Some(n)
  {
  }

  /** One printed byte: the scan steps over it, and the decoder restores it. */
  lemma StringUnit(pre: Text, b: byte, post: Text, end: nat)
    requires b != 0
    requires |pre| + |EscapeByte(b)| <= end < |pre| + |EscapeByte(b)| + |post|
    ensures var s := pre + EscapeByte(b) + post; var next := |pre| + |EscapeByte(b)|;
            ClosingQuote(s, |pre|) == ClosingQuote(s, next)
            && Decode(s, |pre|, end) == Prepend([b], Decode(s, next, end))
  {
    var e := EscapeByte(b);
    var s := pre + e + post;
    var p := |pre|;
    assert forall i :: 0 <= i < |e| ==> s[p + i] == e[i];
    if |e| == 6 {
      assert s[p + 0] == e[0];
      SixByteUnit(s, p, b, end);
    }
  }

  /** The six bytes of a control character's escape stand at `p`. */
  predicate SixAt(s: Text, p: nat, b: byte) {
    && p + 6 <= |s| && 0 < b < 32
    && s[p] == BACKSLASH && s[p + 1] == 117 && s[p + 2] == 48 && s[p + 3] == 48
    && s[p + 4] == HexDigit(b / 16) && s[p + 5] == HexDigit(b % 16)
  }

  lemma SixByteUnit(s: Text, p: nat, b: byte, end: nat)
    requires SixAt(s, p, b) && p + 6 <= end < |s|
    ensures ClosingQuote(s, p) == ClosingQuote(s, p + 6)
    ensures Decode(s, p, end) == Prepend([b], Decode(s, p + 6, end))
  {
    UnicodeUnit(s, p, b, end);
    assert Utf8(b) == [b];
    hide UnicodeEscape;
    assert ClosingQuote(s, p + 2) == ClosingQuote(s, p + 3);
    assert ClosingQuote(s, p + 4) == ClosingQuote(s, p + 5);
  }

  lemma UnicodeUnit(s: Text, p: nat, b: byte, end: nat)
    requires SixAt(s, p, b) && p + 6 <= end < |s|
    ensures UnicodeEscape(s, p, end) == Unicode(b, 6)
  {
    HexOfHexDigit(b / 16);
    HexOfHexDigit(b % 16);
    assert HexDigits(s, p + 2, 1) == Some(0);
    assert HexDigits(s, p + 2, 2) == Some(0);
    assert HexDigits(s, p + 2, 3) == Some(b / 16);
  }

  lemma {:induction false} StringBody(s: Text, pre: Text, t: Text, post: Text, end: nat)
    requires NulFree(t) && post != [] && post[0] == QUOTE
    requires s == pre + Escape(t) + post && end == |pre| + |Escape(t)|
    ensures ClosingQuote(s, |pre|) == Some(end) && Decode(s, |pre|, end) == Some(t)
    decreases |t|
  {
    hide Escape;
    hide EscapeByte;
    hide ClosingQuote;
    hide Decode;
    EscapeStep(t);
    if t != [] {
      var e := EscapeByte(t[0]);
      var rest := Escape(t[1..]);
      Assoc(pre, e, rest);
      Assoc(pre + e, rest, post);
      StringUnit(pre, t[0], rest + post, end);
      StringBody(s, pre + e, t[1..], post, end);
      assert [t[0]] + t[1..] == t;
    } else {
      assert s[end] == post[0];
      BodyEnds(s, end);
    }
  }

  lemma EscapeStep(t: Text)
    ensures Escape(t) == if t == [] then [] else EscapeByte(t[0]) + Escape(t[1..])
  {
  }

  lemma BodyEnds(s: Text, end: nat)
    requires end < |s| && s[end] == QUOTE
    ensures ClosingQuote(s, end) == Some(end) && Decode(s, end, end) == Some([])
  {
  }

  /** parse_string undoes print_string_ptr on every NUL-free text. */
  lemma ParseQuoted(t: Text, k: Text)
    requires NulFree(t) && Terminated(k)
    ensures Terminated(Quoted(t) + k)
    ensures ParseString(Quoted(t) + k) == Accept(t, k)
  {
    hide Escape;
    hide ClosingQuote;
    hide Decode;
    hide CString;
    hide NulFree;
    var s := Quoted(t) + k;
    Assoc([QUOTE] + Escape(t), [QUOTE], k);
    StringBody(s, [QUOTE], t, [QUOTE] + k, 1 + |Escape(t)|);
    assert s[1 + |Escape(t)| + 1..] == k;
    CStringOfNulFree(t);
  }

  // ---- values ----

  /** A printed value starts with a byte that is neither space nor closing punctuation. */
  lemma FirstByte(t: Json, format: bool, depth: nat)
    requires Printable(t)
    ensures var s := Render(t, format, depth);
            s != [] && 32 < s[0] < 128 && s[0] != RBRACKET && s[0] != RBRACE
            && (t.Array? ==> s[0] == LBRACKET) && (t.Object? ==> s[0] == LBRACE)
            && (t.String? ==> s[0] == QUOTE) && (t.Number? ==> s[0] == MINUS || IsDigit(s[0]))
  {
    if t.Number? {
      var n := t.value.Floor;
      DigitsAreDigits(if n < 0 then -n else n);
    }
  }

  // One unfolding of each grammar function, on input that is not yet known to be printed text.

  lemma LiteralStep(s: Text, k: Text, nest: nat)
    requires Terminated(s)
    ensures s == NULL_TEXT + k ==> ParseValue(s, nest) == Accept(Null, k)
    ensures s == FALSE_TEXT + k ==> ParseValue(s, nest) == Accept(False, k)
    ensures s == TRUE_TEXT + k ==> ParseValue(s, nest) == Accept(True, k)
  {
    if s == NULL_TEXT + k {
      assert s[..4] == NULL_TEXT && s[4..] == k;
    } else if s == FALSE_TEXT + k {
      assert s[..5] == FALSE_TEXT && s[5..] == k && s[0] == 102;
    } else if s == TRUE_TEXT + k {
      assert s[..4] == TRUE_TEXT && s[4..] == k && s[0] == 116;
    }
  }

  lemma NotLiteral(s: Text, word: Text)
    requires s != [] && word != [] && s[0] != word[0]
    ensures !StartsWith(s, word)
  {
    if |word| <= |s| {
      assert s[..|word|][0] == s[0];
    }
  }

  lemma DispatchStep(s: Text, nest: nat)
    requires Terminated(s)
    ensures s[0] == QUOTE && ParseString(s).Accept?
            ==> ParseValue(s, nest) == Accept(String(ParseString(s).value), ParseString(s).rest)
    ensures s[0] == MINUS || IsDigit(s[0]) ==> ParseValue(s, nest) == ParseNumber(s)
    ensures s[0] == LBRACKET ==> ParseValue(s, nest) == ParseArray(s, nest)
    ensures s[0] == LBRACE ==> ParseValue(s, nest) == ParseObject(s, nest)
  {
    if s[0] < 97 || s[0] == LBRACE {
      NotLiteral(s, NULL_TEXT);
      NotLiteral(s, FALSE_TEXT);
      NotLiteral(s, TRUE_TEXT);
    }
  }

  lemma ArrayStep(s: Text, nest: nat, es: Elements, first: Text, rest: Text, k: Text)
    requires Terminated(s) && s[0] == LBRACKET && nest < NESTING_LIMIT
    requires Advance(s) == first && first[0] != RBRACKET && ParseElements(first, nest + 1) == Accept(es, rest)
    requires rest[0] == RBRACKET && rest[1..] == k
    ensures ParseArray(s, nest) == Accept(Array(es), k)
  {
  }

  lemma EmptyArrayStep(s: Text, nest: nat, first: Text, k: Text)
    requires Terminated(s) && s[0] == LBRACKET && nest < NESTING_LIMIT
    requires Advance(s) == first && first[0] == RBRACKET && first[1..] == k
    ensures ParseArray(s, nest) == Accept(Array(NoElement), k)
  {
  }

  lemma ObjectStep(s: Text, nest: nat, ms: Members, first: Text, rest: Text, k: Text)
    requires Terminated(s) && s[0] == LBRACE && nest < NESTING_LIMIT
    requires Advance(s) == first && first[0] != RBRACE && ParseMembers(first, nest + 1) == Accept(ms, rest)
    requires rest[0] == RBRACE && rest[1..] == k
    ensures ParseObject(s, nest) == Accept(Object(ms), k)
  {
  }

  lemma EmptyObjectStep(s: Text, nest: nat, first: Text, k: Text)
    requires Terminated(s) && s[0] == LBRACE && nest < NESTING_LIMIT
    requires Advance(s) == first && first[0] == RBRACE && first[1..] == k
    ensures ParseObject(s, nest) == Accept(Object(NoMember), k)
  {
  }

  lemma ElementsStep(s: Text, nest: nat, item: Json, after: Text, es: Elements, rest: Text)
    requires Terminated(s) && ParseValue(s, nest) == Accept(item, after) && SkipSpace(after)[0] == COMMA
    requires ParseElements(Advance(SkipSpace(after)), nest) == Accept(es, rest)
    ensures ParseElements(s, nest) == Accept(Element(item, es), rest)
  {
  }

  lemma LastElementStep(s: Text, nest: nat, item: Json, after: Text)
    requires Terminated(s) && ParseValue(s, nest) == Accept(item, after) && after[0] > 32 && after[0] != COMMA
    ensures ParseElements(s, nest) == Accept(Element(item, NoElement), after)
  {
  }

  lemma MembersStep(s: Text, nest: nat, member: Members, after: Text, ms: Members, rest: Text)
    requires Terminated(s) && ParseMember(s, nest) == Accept(member, after) && SkipSpace(after)[0] == COMMA
    requires ParseMembers(Advance(SkipSpace(after)), nest) == Accept(ms, rest)
    ensures ParseMembers(s, nest) == Accept(member.(next := ms), rest)
  {
  }

  lemma LastMemberStep(s: Text, nest: nat, member: Members, after: Text)
    requires Terminated(s) && ParseMember(s, nest) == Accept(member, after) && SkipSpace(after)[0] != COMMA
    ensures ParseMembers(s, nest) == Accept(member, SkipSpace(after))
  {
  }

  lemma MemberStep(s: Text, nest: nat, key: Text, colon: Text, item: Json, rest: Text)
    requires Terminated(s) && ParseString(s) == Accept(key, colon) && SkipSpace(colon)[0] == COLON
    requires ParseValue(Advance(SkipSpace(colon)), nest) == Accept(item, rest)
    ensures ParseMember(s, nest) == Accept(Member(key, item, NoMember), rest)
  {
  }

  /** The parser reads back exactly the printed value and stops right behind it. */
  lemma {:induction false} ParseRendered(s: Text, t: Json, format: bool, depth: nat, nest: nat, k: Text)
    requires Printable(t) && nest + Nesting(t) <= NESTING_LIMIT && Follow(k)
    requires s == Render(t, format, depth) + k
    ensures ParseValue(s, nest) == Accept(t, k)
    decreases t, 1
  {
    FirstByte(t, format, depth);
    assert s[0] == Render(t, format, depth)[0];
    match t {
      case Number(r) => ParseRenderedNumber(r, k); DispatchStep(s, nest);
      case String(str) => ParseQuoted(str, k); DispatchStep(s, nest);
      case Array(es) =>
        assert ParseArray(s, nest) == Accept(t, k) by {
          hide RenderElements;
          var tail := [RBRACKET] + k;
          var inner := RenderElements(es, format, depth + 1) + tail;
          ArrayStart(s, es, format, depth, k, tail, inner);
          ParseRenderedArray(s, es, format, depth, nest, k, tail, inner);
        }
        DispatchStep(s, nest);
      case Object(ms) =>
        assert ParseObject(s, nest) == Accept(t, k) by {
          hide RenderMembers;
          var brace := [RBRACE] + k;
          var tail := Indent(format, depth) + brace;
          Behind(Indent(format, depth), brace);
          var first := SkipSpace(RenderMembers(ms, format, depth + 1) + tail);
          ObjectStart(s, ms, format, depth, k, tail, brace, first);
          ParseRenderedObject(s, ms, format, depth, nest, k, tail, brace, first);
        }
        DispatchStep(s, nest);
      case _ => LiteralStep(s, k, nest);
    }
  }

  lemma Behind(a: Text, k: Text)
    requires Terminated(k)
    ensures Terminated(a + k) && (a + k)[0] == (if a == [] then k[0] else a[0])
  {
  }

  /** A punctuation byte, then space `w`, then `s`. */
  lemma AdvanceOver(punctuation: byte, w: Text, s: Text)
    requires punctuation > 32 && Terminated(s) && forall i :: 0 <= i < |w| ==> w[i] <= 32
    ensures Terminated([punctuation] + w + s) && Advance([punctuation] + w + s) == SkipSpace(s)
  {
    assert ([punctuation] + w + s)[1..] == w + s;
    SkipSpaceOver(w, s);
  }

  lemma {:induction false} ParseRenderedArray(
      s: Text, es: Elements, format: bool, depth: nat, nest: nat, k: Text, tail: Text, inner: Text)
    requires PrintableElements(es) && nest + 1 + ElementsNesting(es) <= NESTING_LIMIT
    requires Terminated(s) && s[0] == LBRACKET && Advance(s) == inner
    requires Terminated(tail) && tail[0] == RBRACKET && tail[1..] == k
    requires inner == RenderElements(es, format, depth + 1) + tail && Terminated(inner)
    requires if es.Element? then inner[0] != RBRACKET else inner == tail
    ensures ParseArray(s, nest) == Accept(Array(es), k)
    decreases es, 1
  {
    hide RenderElements;
    if es.Element? {
      assert ParseElements(inner, nest + 1) == Accept(es, tail) by {
        ParseRenderedElements(inner, es, format, depth + 1, nest + 1, tail);
      }
      ArrayStep(s, nest, es, inner, tail, k);
    } else {
      EmptyArrayStep(s, nest, tail, k);
    }
  }

  lemma ArrayStart(s: Text, es: Elements, format: bool, depth: nat, k: Text, tail: Text, inner: Text)
    requires PrintableElements(es) && s == Render(Array(es), format, depth) + k && Follow(k)
    requires tail == [RBRACKET] + k && inner == RenderElements(es, format, depth + 1) + tail
    ensures Terminated(s) && s[0] == LBRACKET && Terminated(tail) && tail[0] == RBRACKET && tail[1..] == k
    ensures Terminated(inner) && Advance(s) == inner
    ensures if es.Element? then inner[0] != RBRACKET else inner == tail
  {
    var body := RenderElements(es, format, depth + 1);
    ArrayShape(es, format, depth, k);
    Behind(body, tail);
    assert [LBRACKET] + [] + inner == [LBRACKET] + inner;
    AdvanceOver(LBRACKET, [], inner);
    if es.Element? {
      ElementsFirstByte(es, format, depth + 1);
    }
  }

  lemma ElementsFirstByte(es: Elements, format: bool, depth: nat)
    requires es.Element? && PrintableElements(es)
    ensures var s := RenderElements(es, format, depth); s != [] && 32 < s[0] && s[0] != RBRACKET
  {
    FirstByte(es.item, format, depth);
  }

  lemma {:induction false} ParseRenderedElements(
      s: Text, es: Elements, format: bool, depth: nat, nest: nat, k: Text)
    requires es.Element? && PrintableElements(es) && nest + ElementsNesting(es) <= NESTING_LIMIT
    requires Terminated(k) && k[0] == RBRACKET
    requires s == RenderElements(es, format, depth) + k
    ensures ParseElements(s, nest) == Accept(es, k)
    decreases es, 0
  {
    hide Render;
    hide RenderElements;
    hide ParseElements;
    hide ParseValue;
    hide SkipSpace;
    hide Advance;
    hide ElementSeparator;
    ElementsShape(es, format, depth, k);
    if es.next.NoElement? {
      ParseRendered(s, es.item, format, depth, nest, k);
      LastElementStep(s, nest, es.item, k);
    } else {
      var after := RenderElements(es.next, format, depth) + k;
      var rest := ElementSeparator(format) + after;
      ElementsStart(es.next, format, depth, k, after, rest);
      ParseRendered(s, es.item, format, depth, nest, rest);
      ParseRenderedElements(after, es.next, format, depth, nest, k);
      ElementsStep(s, nest, es.item, rest, es.next, k);
    }
  }

  /** The separator in front of the next element, and the element itself. */
  lemma ElementsStart(es: Elements, format: bool, depth: nat, k: Text, after: Text, rest: Text)
    requires es.Element? && PrintableElements(es) && Terminated(k)
    requires after == RenderElements(es, format, depth) + k && rest == ElementSeparator(format) + after
    ensures Follow(rest) && SkipSpace(rest)[0] == COMMA && Advance(SkipSpace(rest)) == after
  {
    ElementsFirstByte(es, format, depth);
    Behind(RenderElements(es, format, depth), k);
    AdvanceOver(COMMA, Spacer(SPACE, format), after);
  }

  lemma {:induction false} ParseRenderedObject(
      s: Text, ms: Members, format: bool, depth: nat, nest: nat, k: Text, tail: Text, brace: Text, first: Text)
    requires PrintableMembers(ms) && nest + 1 + MembersNesting(ms) <= NESTING_LIMIT
    requires Terminated(s) && s[0] == LBRACE && Advance(s) == first
    requires Follow(tail) && SkipSpace(tail) == brace && brace[0] == RBRACE && brace[1..] == k
    requires first == SkipSpace(RenderMembers(ms, format, depth + 1) + tail)
    requires ms.NoMember? ==> first == brace
    ensures ParseObject(s, nest) == Accept(Object(ms), k)
    decreases ms, 1
  {
    hide RenderMembers;
    if ms.Member? {
      assert ParseMembers(first, nest + 1) == Accept(ms, brace) && first[0] == QUOTE by {
        ParseRenderedMembers(first, ms, format, depth + 1, nest + 1, tail);
      }
      ObjectStep(s, nest, ms, first, brace, k);
    } else {
      EmptyObjectStep(s, nest, brace, k);
    }
  }

  lemma ObjectStart(
      s: Text, ms: Members, format: bool, depth: nat, k: Text, tail: Text, brace: Text, first: Text)
    requires s == Render(Object(ms), format, depth) + k && Follow(k)
    requires brace == [RBRACE] + k && tail == Indent(format, depth) + brace && Terminated(tail)
    requires first == SkipSpace(RenderMembers(ms, format, depth + 1) + tail)
    ensures Terminated(s) && s[0] == LBRACE && Advance(s) == first
    ensures Follow(tail) && SkipSpace(tail) == brace && brace[0] == RBRACE && brace[1..] == k
    ensures ms.NoMember? ==> Advance(s) == brace
  {
    var body := RenderMembers(ms, format, depth + 1);
    ObjectShape(ms, format, depth, k);
    ObjectSpace(body, format, depth, brace);
    if ms.NoMember? {
      assert body + tail == tail;
    }
  }

  lemma ObjectSpace(body: Text, format: bool, depth: nat, brace: Text)
    requires Terminated(brace) && brace[0] == RBRACE
    ensures var tail := Indent(format, depth) + brace; var s := ObjectOpening(format) + (body + tail);
            Follow(tail) && SkipSpace(tail) == brace
            && Terminated(s) && Advance(s) == SkipSpace(body + tail)
  {
    var tail := Indent(format, depth) + brace;
    SkipSpaceOver(Indent(format, depth), brace);
    Behind(Indent(format, depth), brace);
    Behind(body, tail);
    AdvanceOver(LBRACE, Spacer(NEWLINE, format), body + tail);
  }

  lemma {:induction false} ParseRenderedMembers(
      s: Text, ms: Members, format: bool, depth: nat, nest: nat, k: Text)
    requires ms.Member? && PrintableMembers(ms) && nest + MembersNesting(ms) <= NESTING_LIMIT
    requires Follow(k) && SkipSpace(k)[0] == RBRACE
    requires s == SkipSpace(RenderMembers(ms, format, depth) + k)
    ensures s[0] == QUOTE && Terminated(s) && ParseMembers(s, nest) == Accept(ms, SkipSpace(k))
    decreases ms, 0
  {
    hide Render;
    hide RenderMembers;
    var after := RenderMembers(ms.next, format, depth) + k;
    var rest := MemberEnd(format, ms.next.NoMember?) + after;
    var end := SkipSpace(k);
    MembersStart(ms, format, depth, k, after, rest);
    assert ParseMember(s, nest) == Accept(Member(ms.key, ms.item, NoMember), rest) by {
      ParseRenderedMember(s, ms.key, ms.item, format, depth, nest, rest);
    }
    assert ms.next.Member? ==> ParseMembers(SkipSpace(after), nest) == Accept(ms.next, end) by {
      if ms.next.Member? {
        ParseRenderedMembers(SkipSpace(after), ms.next, format, depth, nest, k);
      }
    }
    assert ParseMembers(s, nest) == Accept(ms, end) by {
      LinkMember(s, ms, nest, rest, SkipSpace(after), end);
    }
  }

  /** The first member and what follows it, put together. */
  lemma LinkMember(s: Text, ms: Members, nest: nat, rest: Text, next: Text, end: Text)
    requires ms.Member? && Terminated(s) && ParseMember(s, nest) == Accept(Member(ms.key, ms.item, NoMember), rest)
    requires ms.next.NoMember? ==> SkipSpace(rest) == end && end[0] != COMMA
    requires ms.next.Member? ==> SkipSpace(rest) == rest && rest[0] == COMMA && Advance(rest) == next
    requires ms.next.Member? ==> ParseMembers(next, nest) == Accept(ms.next, end)
    ensures ParseMembers(s, nest) == Accept(ms, end)
  {
    var member := Member(ms.key, ms.item, NoMember);
    if ms.next.NoMember? {
      LastMemberStep(s, nest, member, rest);
    } else {
      MembersStep(s, nest, member, rest, ms.next, end);
    }
  }

  lemma MembersStart(ms: Members, format: bool, depth: nat, k: Text, after: Text, rest: Text)
    requires ms.Member? && Follow(k)
    requires after == RenderMembers(ms.next, format, depth) + k
    requires rest == MemberEnd(format, ms.next.NoMember?) + after
    ensures var s := SkipSpace(RenderMembers(ms, format, depth) + k);
            s == MemberText(ms.key, ms.item, format, depth) + rest && Terminated(s) && s[0] == QUOTE
    ensures Follow(rest) && Terminated(after)
    ensures ms.next.NoMember? ==> SkipSpace(rest) == SkipSpace(k)
    ensures ms.next.Member? ==> SkipSpace(rest) == rest && rest[0] == COMMA && Advance(rest) == SkipSpace(after)
  {
    MembersShape(ms, format, depth, k);
    Behind(RenderMembers(ms.next, format, depth), k);
    MembersSpace(MemberText(ms.key, ms.item, format, depth), format, depth, ms.next.NoMember?, after);
  }

  lemma MembersSpace(text: Text, format: bool, depth: nat, last: bool, after: Text)
    requires text != [] && text[0] == QUOTE && Terminated(after) && (last ==> Follow(after))
    ensures var rest := MemberEnd(format, last) + after;
            SkipSpace(Indent(format, depth) + (text + rest)) == text + rest
            && Terminated(text + rest) && (text + rest)[0] == QUOTE && Follow(rest)
            && (last ==> SkipSpace(rest) == SkipSpace(after))
            && (!last ==> rest[0] == COMMA && SkipSpace(rest) == rest && Advance(rest) == SkipSpace(after))
  {
    var rest := MemberEnd(format, last) + after;
    MemberEndSpace(format, last, after);
    Behind(text, rest);
    SkipSpaceOver(Indent(format, depth), text + rest);
  }

  lemma MemberEndSpace(format: bool, last: bool, after: Text)
    requires Terminated(after) && (last ==> Follow(after))
    ensures var rest := MemberEnd(format, last) + after;
            Follow(rest)
            && (last ==> SkipSpace(rest) == SkipSpace(after))
            && (!last ==> rest[0] == COMMA && SkipSpace(rest) == rest && Advance(rest) == SkipSpace(after))
  {
    Behind(MemberEnd(format, last), after);
    if last {
      assert MemberEnd(format, last) == Spacer(NEWLINE, format);
      SkipSpaceOver(Spacer(NEWLINE, format), after);
    } else {
      assert MemberEnd(format, last) == [COMMA] + Spacer(NEWLINE, format);
      AdvanceOver(COMMA, Spacer(NEWLINE, format), after);
    }
  }

  lemma {:induction false} ParseRenderedMember(
      s: Text, key: Text, item: Json, format: bool, depth: nat, nest: nat, k: Text)
    requires NulFree(key) && Printable(item) && nest + Nesting(item) <= NESTING_LIMIT && Follow(k)
    requires s == MemberText(key, item, format, depth) + k
    ensures ParseMember(s, nest) == Accept(Member(key, item, NoMember), k)
    decreases item, 2
  {
    var value := Render(item, format, depth) + k;
    var colon := KeySeparator(format) + value;
    MemberStart(s, key, item, format, depth, k, value, colon);
    assert ParseValue(value, nest) == Accept(item, k) by {
      ParseRendered(value, item, format, depth, nest, k);
    }
    assert ParseMember(s, nest) == Accept(Member(key, item, NoMember), k) by {
      MemberStep(s, nest, key, colon, item, k);
    }
  }

  lemma MemberStart(
      s: Text, key: Text, item: Json, format: bool, depth: nat, k: Text, value: Text, colon: Text)
    requires s == MemberText(key, item, format, depth) + k && NulFree(key) && Printable(item) && Follow(k)
    requires value == Render(item, format, depth) + k && colon == KeySeparator(format) + value
    ensures Terminated(s) && ParseString(s) == Accept(key, colon)
    ensures Terminated(colon) && SkipSpace(colon) == colon && colon[0] == COLON && Advance(colon) == value
  {
    MemberSplit(s, key, Render(item, format, depth), format, k, value, colon);
    hide Render;
    ColonStart(item, format, depth, k, value, colon);
    hide SkipSpace;
    ParseQuoted(key, colon);
  }

  lemma MemberSplit(s: Text, key: Text, text: Text, format: bool, k: Text, value: Text, colon: Text)
    requires s == Quoted(key) + KeySeparator(format) + text + k
    requires value == text + k && colon == KeySeparator(format) + value
    ensures s == Quoted(key) + colon
  {
    hide Quoted;
    hide KeySeparator;
    Assoc(Quoted(key) + KeySeparator(format), text, k);
    Assoc(Quoted(key), KeySeparator(format), value);
  }

  lemma ColonStart(item: Json, format: bool, depth: nat, k: Text, value: Text, colon: Text)
    requires Printable(item) && Follow(k)
    requires value == Render(item, format, depth) + k && colon == KeySeparator(format) + value
    ensures Terminated(colon) && SkipSpace(colon) == colon && colon[0] == COLON && Advance(colon) == value
  {
    FirstByte(item, format, depth);
    hide Render;
    Behind(Render(item, format, depth), k);
    AdvanceOver(COLON, Spacer(TAB, format), value);
  }

  /**
    Print then parse is the identity: the whole text is consumed up to the
    terminator, with or without formatting and whether or not the caller asks
    for the end of input to be checked.
   */
  lemma PrintThenParse(t: Json, format: bool, requireEnd: bool)
    requires Printable(t) && Nesting(t) <= NESTING_LIMIT
    ensures ParseDocument(Render(t, format, 0) + [0], requireEnd) == Accept(t, [0])
  {
    var s := Render(t, format, 0) + [0];
    FirstByte(t, format, 0);
    assert s[0] == Render(t, format, 0)[0];
    NotLiteral(s, [0xEF, 0xBB, 0xBF]);
    assert SkipSpace(s) == s;
    ParseRendered(s, t, format, 0, 0, [0]);
  }
}
