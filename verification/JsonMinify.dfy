/** cJSON_Minify: removing space and comments from a text in place. */
module JsonMinify {
  import opened Bytes
  import opened JsonTree
  import opened JsonGrammar
  import opened JsonRoundTrip

  const CARRIAGE_RETURN: byte := 13
  const SLASH: byte := 47
  const STAR: byte := 42

  predicate IsBlank(b: byte)
  {
    b == SPACE || b == TAB || b == CARRIAGE_RETURN || b == NEWLINE
  }

  /** The text from the next newline on, or nothing. */
  function AfterLine(s: Text): (r: Text)
    ensures |r| <= |s|
  {
    if s == [] || s[0] == NEWLINE then s else AfterLine(s[1..])
  }

  /** The text behind the next star and slash, or None when they never come. */
  function AfterComment(s: Text): (r: Option<Text>)
    ensures r.Some? ==> |r.value| + 2 <= |s|
  {
    if s == [] then None
    else if s[0] == STAR && |s| > 1 && s[1] == SLASH then Some(s[2..])
    else AfterComment(s[1..])
  }

  /**
    The minified text.  None when a string or block comment is left open: the
    source then reads on behind the terminator (MinifiedExactly).
   */
  function Minified(s: Text): Option<Text>
    decreases |s|
  {
    if s == [] then Some([])
    else if IsBlank(s[0]) then Minified(s[1..])
    else if s[0] == SLASH && |s| > 1 && s[1] == SLASH then Minified(AfterLine(s[1..]))
    else if s[0] == SLASH && |s| > 1 && s[1] == STAR then
      var rest := AfterComment(s[1..]);
      if rest.None? then None else Minified(rest.value)
    else if s[0] == QUOTE then
      var end := ClosingQuote(s, 1);
      if end.None? then None else Prepend(s[..end.value + 1], Minified(s[end.value + 1..]))
    else Prepend([s[0]], Minified(s[1..]))
  }

  /** One unfolding of Minified. */
  lemma MinifiedStep(s: Text)
    requires s != []
    ensures IsBlank(s[0]) ==> Minified(s) == Minified(s[1..])
    ensures s[0] == SLASH && |s| > 1 && s[1] == SLASH ==> Minified(s) == Minified(AfterLine(s[1..]))
    ensures s[0] == SLASH && |s| > 1 && s[1] == STAR
            ==> Minified(s) == if AfterComment(s[1..]).None? then None else Minified(AfterComment(s[1..]).value)
    ensures s[0] == QUOTE
            ==> Minified(s) == if ClosingQuote(s, 1).None? then None
                               else var end := ClosingQuote(s, 1).value + 1; Prepend(s[..end], Minified(s[end..]))
    ensures !IsBlank(s[0]) && s[0] != QUOTE && !(s[0] == SLASH && |s| > 1 && (s[1] == SLASH || s[1] == STAR))
            ==> Minified(s) == Prepend([s[0]], Minified(s[1..]))
  {
  }

  // ---- texts that end every string and block comment ----

  datatype Mode = Outside | InLine | InBlock | InString | Escaped

  /** The scan of a caller who wants to know whether `s`, read from `m` on, ends outside strings and block comments. */
  predicate Ends(s: Text, m: Mode)
    decreases |s|
  {
    if s == [] then m.Outside? || m.InLine?
    else
      match m
      case Outside =>
        if s[0] == QUOTE then Ends(s[1..], InString)
        else if s[0] == SLASH && |s| > 1 && s[1] == SLASH then Ends(s[1..], InLine)
        else if s[0] == SLASH && |s| > 1 && s[1] == STAR then Ends(s[1..], InBlock)
        else Ends(s[1..], Outside)
      case InLine => Ends(s[1..], if s[0] == NEWLINE then Outside else InLine)
      case InBlock =>
        if s[0] == STAR && |s| > 1 && s[1] == SLASH then Ends(s[2..], Outside) else Ends(s[1..], InBlock)
      case InString =>
        Ends(s[1..], if s[0] == QUOTE then Outside else if s[0] == BACKSLASH then Escaped else InString)
      case Escaped => Ends(s[1..], InString)
  }

  /** Every string and every block comment of the text ends. */
  predicate Closed(s: Text)
  {
    Ends(s, Outside)
  }

  lemma {:induction false} LineEnds(s: Text)
    ensures Ends(s, InLine) == Ends(AfterLine(s), Outside)
  {
    if s != [] && s[0] != NEWLINE {
      LineEnds(s[1..]);
    }
  }

  lemma {:induction false} BlockEnds(s: Text)
    ensures Ends(s, InBlock) == (AfterComment(s).Some? && Ends(AfterComment(s).value, Outside))
  {
    if s != [] && !(s[0] == STAR && |s| > 1 && s[1] == SLASH) {
      BlockEnds(s[1..]);
    }
  }

  lemma {:induction false} StringEnds(s: Text, i: nat)
    requires i <= |s|
    ensures Ends(s[i..], InString)
         == (ClosingQuote(s, i).Some? && Ends(s[ClosingQuote(s, i).value + 1..], Outside))
    decreases |s| - i
  {
    if i < |s| {
      assert s[i..][1..] == s[i + 1..];
      if s[i] == BACKSLASH {
        if i + 1 < |s| {
          assert s[i + 1..][1..] == s[i + 2..];
          StringEnds(s, i + 2);
        }
      } else if s[i] != QUOTE {
        StringEnds(s, i + 1);
      }
    }
  }

  /** Exactly the closed texts have a minified text. */
  lemma {:induction false} MinifiedExactly(s: Text)
    ensures Minified(s).Some? <==> Closed(s)
    decreases |s|
  {
    if s != [] {
      if s[0] == SLASH && |s| > 1 && s[1] == SLASH {
        LineEnds(s[1..]);
        MinifiedExactly(AfterLine(s[1..]));
      } else if s[0] == SLASH && |s| > 1 && s[1] == STAR {
        BlockEnds(s[1..]);
        if AfterComment(s[1..]).Some? {
          MinifiedExactly(AfterComment(s[1..]).value);
        }
      } else if s[0] == QUOTE {
        StringEnds(s, 1);
        if ClosingQuote(s, 1).Some? {
          MinifiedExactly(s[ClosingQuote(s, 1).value + 1..]);
        }
      } else {
        MinifiedExactly(s[1..]);
      }
    }
  }

  /** A lone quote, and the start of a block comment, leave no minified text behind. */
  lemma LeftOpen()
    ensures Minified([QUOTE]) == None && Minified([SLASH, STAR]) == None
  {
    MinifiedExactly([QUOTE]);
    MinifiedExactly([SLASH, STAR]);
    assert [SLASH, STAR][1..] == [STAR];
  }

  // ---- minifying printed text ----

  predicate PlainByte(b: byte)
  {
    !IsBlank(b) && b != SLASH && b != QUOTE
  }

  lemma {:induction false} MinifyPlain(w: Text, k: Text)
    requires forall i :: 0 <= i < |w| ==> PlainByte(w[i])
    ensures Minified(w + k) == Prepend(w, Minified(k))
  {
    if w == [] {
      assert w + k == k;
      PrependNothing(Minified(k));
    } else {
      assert (w + k)[1..] == w[1..] + k;
      MinifyPlain(w[1..], k);
      PrependTwice([w[0]], w[1..], Minified(k));
      assert [w[0]] + w[1..] == w;
    }
  }

  lemma {:induction false} MinifyBlank(w: Text, k: Text)
    requires forall i :: 0 <= i < |w| ==> IsBlank(w[i])
    ensures Minified(w + k) == Minified(k)
  {
    if w == [] {
      assert w + k == k;
    } else {
      assert (w + k)[1..] == w[1..] + k;
      MinifyBlank(w[1..], k);
    }
  }

  lemma MinifyQuoted(t: Text, k: Text)
    requires NulFree(t)
    ensures Minified(Quoted(t) + k) == Prepend(Quoted(t), Minified(k))
  {
    var s := Quoted(t) + k;
    var end := 1 + |Escape(t)|;
    assert s == [QUOTE] + Escape(t) + ([QUOTE] + k);
    StringBody(s, [QUOTE], t, [QUOTE] + k, end);
    assert s[..end + 1] == Quoted(t) && s[end + 1..] == k;
  }

  /** Punctuation and the spacer that only formatted output has. */
  lemma MinifyPunctuation(b: byte, space: byte, format: bool, k: Text)
    requires PlainByte(b) && IsBlank(space)
    ensures Minified([b] + Spacer(space, format) + k) == Prepend([b], Minified(k))
  {
    Assoc([b], Spacer(space, format), k);
    MinifyPlain([b], Spacer(space, format) + k);
    MinifyBlank(Spacer(space, format), k);
  }

  /** Minifying drops the formatting of a printed value and nothing else. */
  lemma {:induction false} MinifyRendered(t: Json, format: bool, depth: nat, k: Text)
    requires Printable(t)
    ensures Minified(Render(t, format, depth) + k) == Prepend(Render(t, false, 0), Minified(k))
    decreases t, 1
  {
    match t {
      case Number(r) =>
        DigitsAreDigits(if r.Floor < 0 then -r.Floor else r.Floor);
        MinifyPlain(Render(t, format, depth), k);
      case String(s) => MinifyQuoted(s, k);
      case Array(es) => MinifyArray(es, format, depth, k);
      case Object(ms) => MinifyObject(ms, format, depth, k);
      case _ => MinifyPlain(Render(t, format, depth), k);
    }
  }

  lemma {:induction false} MinifyArray(es: Elements, format: bool, depth: nat, k: Text)
    requires PrintableElements(es)
    ensures Minified(Render(Array(es), format, depth) + k) == Prepend(Render(Array(es), false, 0), Minified(k))
    decreases es, 1
  {
    var body, plain := RenderElements(es, format, depth + 1), RenderElements(es, false, 1);
    ArrayShape(es, format, depth, k);
    MinifyPlain([LBRACKET], body + ([RBRACKET] + k));
    MinifyElements(es, format, depth + 1, [RBRACKET] + k);
    MinifyPlain([RBRACKET], k);
    PrependTwice(plain, [RBRACKET], Minified(k));
    PrependTwice([LBRACKET], plain + [RBRACKET], Minified(k));
    Assoc([LBRACKET], plain, [RBRACKET]);
  }

  lemma {:induction false} MinifyElements(es: Elements, format: bool, depth: nat, k: Text)
    requires PrintableElements(es)
    ensures Minified(RenderElements(es, format, depth) + k) == Prepend(RenderElements(es, false, 1), Minified(k))
    decreases es, 0
  {
    if es.NoElement? {
      assert RenderElements(es, format, depth) + k == k;
      PrependNothing(Minified(k));
    } else {
      var head, rest := Render(es.item, false, 0), RenderElements(es.next, false, 1);
      UnformattedDepth(es.item, 1);
      ElementsShape(es, format, depth, k);
      ElementsShape(es, false, 1, []);
      if es.next.NoElement? {
        MinifyRendered(es.item, format, depth, k);
        assert RenderElements(es, false, 1) == head + [] + [] == head;
      } else {
        var after := RenderElements(es.next, format, depth) + k;
        MinifyRendered(es.item, format, depth, ElementSeparator(format) + after);
        MinifyPunctuation(COMMA, SPACE, format, after);
        MinifyElements(es.next, format, depth, k);
        PrependTwice([COMMA], rest, Minified(k));
        PrependTwice(head, [COMMA] + rest, Minified(k));
        assert ElementSeparator(false) == [COMMA];
        Assoc(head, [COMMA], rest);
      }
    }
  }

  lemma {:induction false} MinifyObject(ms: Members, format: bool, depth: nat, k: Text)
    requires PrintableMembers(ms)
    ensures Minified(Render(Object(ms), format, depth) + k) == Prepend(Render(Object(ms), false, 0), Minified(k))
    decreases ms, 1
  {
    hide Minified;
    hide RenderMembers;
    var body, plain := RenderMembers(ms, format, depth + 1), RenderMembers(ms, false, 1);
    var tail := Indent(format, depth) + ([RBRACE] + k);
    ObjectShape(ms, format, depth, k);
    MinifyPunctuation(LBRACE, NEWLINE, format, body + tail);
    MinifyMembers(ms, format, depth + 1, tail);
    MinifyBlank(Indent(format, depth), [RBRACE] + k);
    MinifyPlain([RBRACE], k);
    PrependTwice(plain, [RBRACE], Minified(k));
    PrependTwice([LBRACE], plain + [RBRACE], Minified(k));
    Assoc([LBRACE], plain, [RBRACE]);
    assert ObjectOpening(false) == [LBRACE] && ObjectClosing(false, 0) == [RBRACE];
  }

  lemma {:induction false} MinifyMembers(ms: Members, format: bool, depth: nat, k: Text)
    requires PrintableMembers(ms)
    ensures Minified(RenderMembers(ms, format, depth) + k) == Prepend(RenderMembers(ms, false, 1), Minified(k))
    decreases ms, 0
  {
    if ms.NoMember? {
      assert RenderMembers(ms, format, depth) + k == k;
      PrependNothing(Minified(k));
    } else {
      var last := ms.next.NoMember?;
      var after := RenderMembers(ms.next, format, depth) + k;
      var end := MemberEnd(false, last);
      var plain := RenderMembers(ms.next, false, 1);
      MembersShape(ms, format, depth, k);
      MinifyBlank(Indent(format, depth), MemberText(ms.key, ms.item, format, depth) + (MemberEnd(format, last) + after));
      MinifyMember(ms.key, ms.item, format, depth, MemberEnd(format, last) + after);
      MinifyMemberEnd(format, last, after);
      MinifyMembers(ms.next, format, depth, k);
      PrependTwice(end, plain, Minified(k));
      PrependTwice(MemberText(ms.key, ms.item, false, 0), end + plain, Minified(k));
      PlainMembers(ms);
    }
  }

  /** Without formatting there is no indentation, at any depth. */
  lemma PlainMembers(ms: Members)
    requires ms.Member?
    ensures RenderMembers(ms, false, 1)
            == MemberText(ms.key, ms.item, false, 0)
               + (MemberEnd(false, ms.next.NoMember?) + RenderMembers(ms.next, false, 1))
  {
    UnformattedDepth(ms.item, 1);
    assert [] + Quoted(ms.key) == Quoted(ms.key);
    Assoc(MemberText(ms.key, ms.item, false, 0), MemberEnd(false, ms.next.NoMember?), RenderMembers(ms.next, false, 1));
  }

  lemma MinifyMemberEnd(format: bool, last: bool, k: Text)
    ensures Minified(MemberEnd(format, last) + k) == Prepend(MemberEnd(false, last), Minified(k))
  {
    if last {
      assert MemberEnd(format, last) == Spacer(NEWLINE, format);
      MinifyBlank(Spacer(NEWLINE, format), k);
      PrependNothing(Minified(k));
      assert MemberEnd(false, last) == [];
    } else {
      MinifyPunctuation(COMMA, NEWLINE, format, k);
      assert MemberEnd(false, last) == [COMMA];
    }
  }

  lemma {:induction false} MinifyMember(key: Text, item: Json, format: bool, depth: nat, k: Text)
    requires NulFree(key) && Printable(item)
    ensures Minified(MemberText(key, item, format, depth) + k) == Prepend(MemberText(key, item, false, 0), Minified(k))
    decreases item, 2
  {
    var value, plain := Render(item, format, depth) + k, Render(item, false, 0);
    Assoc(Quoted(key) + KeySeparator(format), Render(item, format, depth), k);
    Assoc(Quoted(key), KeySeparator(format), value);
    MinifyQuoted(key, KeySeparator(format) + value);
    MinifyPunctuation(COLON, TAB, format, value);
    MinifyRendered(item, format, depth, k);
    PrependTwice([COLON], plain, Minified(k));
    PrependTwice(Quoted(key), [COLON] + plain, Minified(k));
    Assoc(Quoted(key), [COLON], plain);
    assert KeySeparator(false) == [COLON];
  }

  lemma {:induction false} UnformattedDepth(t: Json, depth: nat)
    ensures Render(t, false, depth) == Render(t, false, 0)
  {
    match t
    case Array(es) => UnformattedElements(es, depth + 1);
    case Object(ms) => UnformattedMembers(ms, depth + 1);
    case _ =>
  }

  lemma {:induction false} UnformattedElements(es: Elements, depth: nat)
    requires depth >= 1
    ensures RenderElements(es, false, depth) == RenderElements(es, false, 1)
  {
    if es.Element? {
      UnformattedDepth(es.item, depth);
      UnformattedDepth(es.item, 1);
      UnformattedElements(es.next, depth);
    }
  }

  lemma {:induction false} UnformattedMembers(ms: Members, depth: nat)
    requires depth >= 1
    ensures RenderMembers(ms, false, depth) == RenderMembers(ms, false, 1)
  {
    if ms.Member? {
      UnformattedDepth(ms.item, depth);
      UnformattedDepth(ms.item, 1);
      UnformattedMembers(ms.next, depth);
    }
  }

  /** Minifying the formatted text of a tree gives its unformatted text. */
  lemma MinifyFormatted(t: Json, format: bool)
    requires Printable(t)
    ensures Minified(Render(t, format, 0)) == Some(Render(t, false, 0))
  {
    MinifyRendered(t, format, 0, []);
    assert Render(t, format, 0) + [] == Render(t, format, 0);
    assert Render(t, false, 0) + [] == Render(t, false, 0);
  }

  // ---- the in-place pass ----

  /** `a` from `from` on still holds the end of `text` and its terminator. */
  ghost predicate Holds(a: array<byte>, from: nat, text: Text)
    reads a
  {
    from <= |text| < a.Length && NulFree(text) && a[|text|] == 0 && a[from..|text|] == text[from..]
  }

  /** The read cursor moves to the newline that ends a line comment, or to the terminator. */
  method SkipLine(a: array<byte>, start: nat, ghost text: Text) returns (json: nat)
    requires Holds(a, start, text)
    ensures start <= json <= |text| && text[json..] == AfterLine(text[start..])
  {
    json := start;
    while a[json] != 0 && a[json] != NEWLINE
      invariant start <= json <= |text|
      invariant AfterLine(text[start..]) == AfterLine(text[json..])
      decreases |text| - json
    {
      Later(a, start, json, text);
      Unread(a, json, text);
      assert text[json..][1..] == text[json + 1..];
      json := json + 1;
    }
    Later(a, start, json, text);
    Unread(a, json, text);
  }

  /** The read cursor moves behind the mark that ends a block comment, and behind the terminator if there is none. */
  method SkipComment(a: array<byte>, start: nat, ghost text: Text) returns (json: nat)
    requires Holds(a, start, text)
    ensures start < json
    ensures if json <= |text| then AfterComment(text[start..]) == Some(text[json..])
            else json == |text| + 2 && AfterComment(text[start..]).None?
  {
    json := start;
    while a[json] != 0 && !(a[json] == STAR && a[json + 1] == SLASH)
      invariant start <= json <= |text|
      invariant AfterComment(text[start..]) == AfterComment(text[json..])
      decreases |text| - json
    {
      Later(a, start, json, text);
      Unread(a, json, text);
      assert text[json..][1..] == text[json + 1..];
      json := json + 1;
    }
    Later(a, start, json, text);
    Unread(a, json, text);
    assert json + 2 <= |text| ==> text[json..][2..] == text[json + 2..];
    json := json + 2;
  }

  /** The write cursor is never in front of the read cursor, so what is unread stays; the terminator may be copied too. */
  method CopyByte(a: array<byte>, json: nat, into: nat, ghost text: Text)
    requires into <= json <= |text| && Holds(a, json, text)
    modifies a
    ensures a[|text| + 1..] == old(a[|text| + 1..])
    ensures json < |text| ==> Holds(a, json + 1, text) && a[..into + 1] == old(a[..into]) + [text[json]]
  {
    Unread(a, json, text);
    if json < |text| {
      assert a[json + 1..|text|] == a[json..|text|][1..] == text[json + 1..];
    }
    a[into] := a[json];
  }

  lemma Unread(a: array<byte>, json: nat, text: Text)
    requires Holds(a, json, text)
    ensures |text| < a.Length && (a[json] == 0 <==> json == |text|)
    ensures json < |text| ==> a[json] == text[json]
    ensures json + 1 < |text| ==> a[json + 1] == text[json + 1]
  {
    if json < |text| {
      assert a[json] == a[json..|text|][0] == text[json];
      assert json + 1 < |text| ==> a[json + 1] == a[json..|text|][1] == text[json + 1];
    }
  }

  /** One byte of the literal at `start`, or a backslash and the byte behind it, even if that is the terminator. */
  method CopyUnit(a: array<byte>, json: nat, into: nat, ghost text: Text, ghost start: nat, ghost before: Text)
    returns (n: nat)
    requires into <= json < |text| && Holds(a, json, text)
    requires start <= json && a[..into] == before + text[start..json]
    modifies a
    ensures n == (if text[json] == BACKSLASH then 2 else 1)
    ensures a[|text| + 1..] == old(a[|text| + 1..])
    ensures json + n <= |text| ==> Holds(a, json + n, text) && a[..into + n] == before + text[start..json + n]
  {
    Unread(a, json, text);
    n := 0;
    if a[json] == BACKSLASH {
      CopyByte(a, json, into, text);
      Grow(before, text, start, json);
      n := 1;
    }
    CopyByte(a, json + n, into + n, text);
    if json + n < |text| {
      Grow(before, text, start, json + n);
    }
    n := n + 1;
  }

  /**
    A string literal is copied as it is, an escaped quote not ending it.  One
    that never ends takes the read cursor behind the terminator at `n`.
   */
  method CopyLiteral(a: array<byte>, n: nat, start: nat, out: nat, ghost text: Text) returns (json: nat, into: nat)
    requires n == |text| && out <= start < n && Holds(a, start, text) && text[start] == QUOTE
    modifies a
    ensures start < json <= n + 1 && into - out == json - start
    ensures a[n + 1..] == old(a[n + 1..])
    ensures ClosingQuote(text[start..], 1) == if json <= n then Some(json - 1 - start) else None
    ensures json <= n ==> Holds(a, json, text) && a[..into] == old(a[..out]) + text[start..json]
  {
    hide ClosingQuote, NulFree, Holds;
    Unread(a, start, text);
    ghost var before := a[..out];
    assert before + text[start..start] == before;
    var k := CopyUnit(a, start, out, text, start, before);
    json, into := CopyToQuote(a, n, start + 1, out + 1, text, start, before);
    if json <= n {
      Unread(a, json, text);
      CopyByte(a, json, into, text);
      if json < n {
        Grow(before, text, start, json);
      }
      json, into := json + 1, into + 1;
    }
  }

  /** The inside of the string literal that starts at `start`. */
  method CopyToQuote(a: array<byte>, n: nat, from: nat, out: nat, ghost text: Text, ghost start: nat, ghost before: Text)
    returns (json: nat, into: nat)
    requires n == |text| && out <= from <= n && Holds(a, from, text) && start < from
    requires a[..out] == before + text[start..from]
    modifies a
    ensures from <= json <= n + 1 && into - out == json - from
    ensures a[n + 1..] == old(a[n + 1..])
    ensures ClosingQuote(text[start..], from - start) == if json < n then Some(json - start) else None
    ensures json <= n ==> Holds(a, json, text) && a[..into] == before + text[start..json]
  {
    hide ClosingQuote, NulFree;
    json, into := from, out;
    while json <= n && a[json] != 0 && a[json] != QUOTE
      invariant from <= json <= n + 1 && into - out == json - from
      invariant a[n + 1..] == old(a[n + 1..])
      invariant json <= n ==> Holds(a, json, text) && a[..into] == before + text[start..json]
      invariant ClosingQuote(text[start..], from - start) == ClosingQuote(text[start..], json - start)
      decreases n + 1 - json
    {
      Unread(a, json, text);
      ScanUnit(text, start, json);
      var k := CopyUnit(a, json, into, text, start, before);
      json, into := json + k, into + k;
    }
    if json <= n {
      Unread(a, json, text);
    }
    ScanUnit(text, start, json);
  }

  /** The scan for the closing quote, one unit of the literal at `start` further. */
  lemma ScanUnit(text: Text, start: nat, json: nat)
    requires start < json && start <= |text|
    ensures ClosingQuote(text[start..], json - start)
         == if json >= |text| then None
            else if text[json] == QUOTE then Some(json - start)
            else ClosingQuote(text[start..], json + (if text[json] == BACKSLASH then 2 else 1) - start)
  {
    assert json < |text| ==> text[start..][json - start] == text[json];
  }

  lemma Grow(before: Text, s: Text, i: nat, j: nat)
    requires i <= j < |s|
    ensures before + s[i..j] + [s[j]] == before + s[i..j + 1]
  {
    assert s[i..j] + [s[j]] == s[i..j + 1];
  }

  /**
    `json` reads, `into` writes behind it in the same array; the text ends at
    the NUL at `n`.  The pass stays in front of the NUL exactly on closed texts.
    On any other the model stops, and `inside` is false, where the source goes
    on reading behind the NUL.
   */
  method Minify(a: array<byte>, n: nat) returns (into: nat, inside: bool)
    requires n < a.Length && a[n] == 0 && NulFree(a[..n])
    modifies a
    ensures inside <==> Closed(old(a[..n]))
    ensures inside ==> into <= n && Minified(old(a[..n])) == Some(a[..into]) && a[into] == 0
    ensures a[n + 1..] == old(a[n + 1..])
  {
    ghost var text := a[..n];
    var json := 0;
    into := 0;
    PrependNothing(Minified(text));
    assert text[0..] == text && a[..0] == [];
    while json <= n && a[json] != 0
      invariant into <= json && a[n + 1..] == old(a[n + 1..])
      invariant json <= n ==> Holds(a, json, text) && Minified(text) == Prepend(a[..into], Minified(text[json..]))
      invariant json > n ==> Minified(text).None?
      decreases n + 2 - json
    {
      Unread(a, json, text);
      ghost var done, token := a[..into], [];
      json, into, token := MinifyToken(a, n, json, into, text);
      if json <= n {
        PrependTwice(done, token, Minified(text[json..]));
      }
    }
    MinifiedExactly(text);
    inside := json <= n;
    if inside {
      Unread(a, json, text);
      assert a[..into] + [] == a[..into];
      assert forall i :: n < i < a.Length ==> a[i] == a[n + 1..][i - n - 1];
      a[into] := 0;
    }
  }

  /** One round of the main loop: a blank, a comment, a string literal or any other byte. */
  method MinifyToken(a: array<byte>, n: nat, start: nat, out: nat, ghost text: Text)
    returns (json: nat, into: nat, ghost token: Text)
    requires n == |text| && out <= start < n && Holds(a, start, text)
    modifies a
    ensures start < json <= n + 2 && into <= json
    ensures a[n + 1..] == old(a[n + 1..])
    ensures json > n ==> Minified(text[start..]).None?
    ensures json <= n ==> Holds(a, json, text) && into == out + |token| && a[..into] == old(a[..out]) + token
    ensures json <= n ==> Minified(text[start..]) == Prepend(token, Minified(text[json..]))
  {
    hide Minified, ClosingQuote, AfterComment, AfterLine, NulFree;
    json, into, token := start, out, [];
    ghost var s := text[start..];
    MinifiedStep(s);
    Unread(a, json, text);
    if a[json] == SPACE || a[json] == TAB || a[json] == CARRIAGE_RETURN || a[json] == NEWLINE {
      json := json + 1;
      PrependNothing(Minified(text[json..]));
      Later(a, start, json, text);
    } else if a[json] == SLASH && a[json + 1] == SLASH {
      Later(a, start, start + 1, text);
      json := SkipLine(a, json + 1, text);
      PrependNothing(Minified(text[json..]));
      Later(a, start, json, text);
    } else if a[json] == SLASH && a[json + 1] == STAR {
      Later(a, start, start + 1, text);
      json := SkipComment(a, json + 1, text);
      if json <= n {
        PrependNothing(Minified(text[json..]));
        Later(a, start, json, text);
      }
    } else if a[json] == QUOTE {
      json, into := CopyLiteral(a, n, json, into, text);
      if json <= n {
        token := text[start..json];
        assert s[..json - start] == token && s[json - start..] == text[json..];
      }
    } else {
      CopyByte(a, json, into, text);
      json, into, token := json + 1, into + 1, [text[start]];
    }
  }

  lemma Later(a: array<byte>, from: nat, to: nat, text: Text)
    requires Holds(a, from, text) && from <= to <= |text|
    ensures Holds(a, to, text) && text[from..][to - from..] == text[to..]
  {
    assert a[to..|text|] == a[from..|text|][to - from..];
  }
}
