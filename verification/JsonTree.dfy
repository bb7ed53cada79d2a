/**
  The JSON values of cjson.c and the text its printer is meant to produce.

  A cJSON node keeps its children in a list threaded through `next`; the lists
  below have the same shape.  Numbers carry `valuedouble` as an exact real.
 */
module JsonTree {
  import opened Bytes

  datatype Json =
    | Null
    | False
    | True
    | Number(value: real)
    | String(text: Text)
    | Array(elements: Elements)
    | Object(members: Members)

  datatype Elements = NoElement | Element(item: Json, next: Elements)

  datatype Members = NoMember | Member(key: Text, item: Json, next: Members)

  const NULL_TEXT: Text := [110, 117, 108, 108]
  const FALSE_TEXT: Text := [102, 97, 108, 115, 101]
  const TRUE_TEXT: Text := [116, 114, 117, 101]

  const TAB: byte := 9
  const NEWLINE: byte := 10
  const SPACE: byte := 32
  const QUOTE: byte := 34
  const COMMA: byte := 44
  const MINUS: byte := 45
  const COLON: byte := 58
  const LBRACKET: byte := 91
  const BACKSLASH: byte := 92
  const RBRACKET: byte := 93
  const LBRACE: byte := 123
  const RBRACE: byte := 125

  const NESTING_LIMIT: nat := 1000

  /** An integral number of at most 15 digits, which "%1.15g" prints digit by digit. */
  predicate PlainNumber(r: real)
  {
    r == r.Floor as real && -1_000_000_000_000_000 < r.Floor < 1_000_000_000_000_000
  }

  /** Trees the printer model covers: plain numbers, and text a C string can hold. */
  predicate Printable(t: Json)
  {
    match t
    case Number(r) => PlainNumber(r)
    case String(s) => NulFree(s)
    case Array(es) => PrintableElements(es)
    case Object(ms) => PrintableMembers(ms)
    case _ => true
  }

  predicate PrintableElements(es: Elements)
  {
    es.Element? ==> Printable(es.item) && PrintableElements(es.next)
  }

  predicate PrintableMembers(ms: Members)
  {
    ms.Member? ==> NulFree(ms.key) && Printable(ms.item) && PrintableMembers(ms.next)
  }

  /** Number of nested arrays and objects on the deepest path. */
  function Nesting(t: Json): nat
  {
    match t
    case Array(es) => 1 + ElementsNesting(es)
    case Object(ms) => 1 + MembersNesting(ms)
    case _ => 0
  }

  function ElementsNesting(es: Elements): nat
  {
    if es.NoElement? then 0 else Max(Nesting(es.item), ElementsNesting(es.next))
  }

  function MembersNesting(ms: Members): nat
  {
    if ms.NoMember? then 0 else Max(Nesting(ms.item), MembersNesting(ms.next))
  }

  function Max(a: nat, b: nat): nat { if a < b then b else a }

  /** Number of nodes, the termination measure of every walk over a tree. */
  function Size(t: Json): nat
  {
    match t
    case Array(es) => 1 + ElementsSize(es)
    case Object(ms) => 1 + MembersSize(ms)
    case _ => 1
  }

  function ElementsSize(es: Elements): nat
  {
    if es.NoElement? then 0 else 1 + Size(es.item) + ElementsSize(es.next)
  }

  function MembersSize(ms: Members): nat
  {
    if ms.NoMember? then 0 else 1 + Size(ms.item) + MembersSize(ms.next)
  }

  // ---- the printed text ----

  function Digits(n: nat): Text
  {
    if n < 10 then [48 + n] else Digits(n / 10) + [48 + n % 10]
  }

  function Decimal(n: int): Text
  {
    if n < 0 then [MINUS] + Digits(-n) else Digits(n)
  }

  function HexDigit(n: nat): byte
    requires n < 16
  {
    if n < 10 then 48 + n else 87 + n
  }

  /** The letter after the backslash in a two-character escape, or 0 when there is none. */
  function EscapeLetter(b: byte): byte
  {
    match b
    case 34 => 34
    case 92 => 92
    case 8 => 98
    case 12 => 102
    case 10 => 110
    case 13 => 114
    case 9 => 116
    case _ => 0
  }

  function EscapeByte(b: byte): Text
  {
    if EscapeLetter(b) != 0 then [BACKSLASH, EscapeLetter(b)]
    else if b < 32 then [BACKSLASH, 117, 48, 48, HexDigit(b / 16), HexDigit(b % 16)]
    else [b]
  }

  function Escape(s: Text): Text
  {
    if s == [] then [] else EscapeByte(s[0]) + Escape(s[1..])
  }

  function Quoted(s: Text): Text
  {
    [QUOTE] + Escape(s) + [QUOTE]
  }

  function Tabs(n: nat): Text
  {
    seq(n, _ => TAB)
  }

  /** The text of `t` printed at nesting `depth`, with or without formatting. */
  function Render(t: Json, format: bool, depth: nat): Text
  {
    match t
    case Null => NULL_TEXT
    case False => FALSE_TEXT
    case True => TRUE_TEXT
    case Number(r) => Decimal(r.Floor)
    case String(s) => Quoted(s)
    case Array(es) => [LBRACKET] + RenderElements(es, format, depth + 1) + [RBRACKET]
    case Object(ms) =>
      ObjectOpening(format) + RenderMembers(ms, format, depth + 1) + ObjectClosing(format, depth)
  }

  /** A byte that only formatted output has. */
  function Spacer(b: byte, format: bool): Text
  {
    if format then [b] else []
  }

  function ElementSeparator(format: bool): Text
  {
    [COMMA] + Spacer(SPACE, format)
  }

  function RenderElements(es: Elements, format: bool, depth: nat): Text
  {
    match es
    case NoElement => []
    case Element(item, next) =>
      Render(item, format, depth)
      + (if next.NoElement? then [] else ElementSeparator(format))
      + RenderElements(next, format, depth)
  }

  function ObjectOpening(format: bool): Text
  {
    [LBRACE] + Spacer(NEWLINE, format)
  }

  function ObjectClosing(format: bool, depth: nat): Text
  {
    Indent(format, depth) + [RBRACE]
  }

  function Indent(format: bool, depth: nat): Text
  {
    if format then Tabs(depth) else []
  }

  function KeySeparator(format: bool): Text
  {
    [COLON] + Spacer(TAB, format)
  }

  function MemberEnd(format: bool, last: bool): Text
  {
    (if last then [] else [COMMA]) + Spacer(NEWLINE, format)
  }

  function RenderMembers(ms: Members, format: bool, depth: nat): Text
  {
    match ms
    case NoMember => []
    case Member(key, item, next) =>
      Indent(format, depth) + Quoted(key) + KeySeparator(format)
      + Render(item, format, depth)
      + MemberEnd(format, next.NoMember?)
      + RenderMembers(next, format, depth)
  }

  /** The layout of formatted text, character by character; without formatting only the punctuation is left. */
  lemma Layout(depth: nat, last: bool)
    ensures ObjectOpening(true) == ['{' as int, '\n' as int] && ObjectOpening(false) == ['{' as int]
    ensures KeySeparator(true) == [':' as int, '\t' as int] && KeySeparator(false) == [':' as int]
    ensures ElementSeparator(true) == [',' as int, ' ' as int] && ElementSeparator(false) == [',' as int]
    ensures MemberEnd(true, last) == if last then ['\n' as int] else [',' as int, '\n' as int]
    ensures MemberEnd(false, last) == if last then [] else [',' as int]
    ensures |Indent(true, depth)| == depth && forall i :: 0 <= i < depth ==> Indent(true, depth)[i] == '\t' as int
    ensures Indent(false, depth) == []
  {
  }

  lemma {:induction false} EscapeSnoc(s: Text, b: byte)
    ensures Escape(s + [b]) == Escape(s) + EscapeByte(b)
  {
    if s != [] {
      assert (s + [b])[1..] == s[1..] + [b];
      EscapeSnoc(s[1..], b);
    } else {
      assert s + [b] == [b] && Escape([b][1..]) == [];
    }
  }

  lemma EscapeAt(s: Text, i: nat)
    requires i < |s|
    ensures Escape(s[..i + 1]) == Escape(s[..i]) + EscapeByte(s[i])
    ensures |Escape(s[i..])| == |EscapeByte(s[i])| + |Escape(s[i + 1..])|
  {
    assert s[..i + 1] == s[..i] + [s[i]];
    EscapeSnoc(s[..i], s[i]);
    assert s[i..][1..] == s[i + 1..];
  }

  /** Escaping only ever lengthens, so a text of unchanged length is unchanged. */
  lemma {:induction false} EscapeNothing(s: Text)
    ensures |Escape(s)| >= |s|
    ensures |Escape(s)| == |s| ==> Escape(s) == s
  {
    if s != [] {
      EscapeNothing(s[1..]);
      assert [s[0]] + s[1..] == s;
    }
  }

  // ---- the printed text, cut where the printer and the parser cut it ----

  lemma ArrayShape(es: Elements, format: bool, depth: nat, k: Text)
    ensures Render(Array(es), format, depth) + k
            == [LBRACKET] + (RenderElements(es, format, depth + 1) + ([RBRACKET] + k))
  {
    var body := RenderElements(es, format, depth + 1);
    Assoc([LBRACKET] + body, [RBRACKET], k);
    Assoc([LBRACKET], body, [RBRACKET] + k);
  }

  lemma ElementsShape(es: Elements, format: bool, depth: nat, k: Text)
    requires es.Element?
    ensures es.next.NoElement? ==> RenderElements(es, format, depth) + k == Render(es.item, format, depth) + k
    ensures es.next.Element? ==>
              RenderElements(es, format, depth) + k
              == Render(es.item, format, depth)
                 + (ElementSeparator(format) + (RenderElements(es.next, format, depth) + k))
  {
    var head := Render(es.item, format, depth);
    var rest := RenderElements(es.next, format, depth);
    if es.next.Element? {
      Assoc(head + ElementSeparator(format), rest, k);
      Assoc(head, ElementSeparator(format), rest + k);
    } else {
      assert head + [] + rest == head;
    }
  }

  lemma ObjectShape(ms: Members, format: bool, depth: nat, k: Text)
    ensures Render(Object(ms), format, depth) + k
            == ObjectOpening(format)
               + (RenderMembers(ms, format, depth + 1) + (Indent(format, depth) + ([RBRACE] + k)))
  {
    var body := RenderMembers(ms, format, depth + 1);
    Assoc(Indent(format, depth), [RBRACE], k);
    Assoc(ObjectOpening(format) + body, ObjectClosing(format, depth), k);
    Assoc(ObjectOpening(format), body, ObjectClosing(format, depth) + k);
  }

  function MemberText(key: Text, item: Json, format: bool, depth: nat): (r: Text)
    ensures r != [] && r[0] == QUOTE
  {
    Quoted(key) + KeySeparator(format) + Render(item, format, depth)
  }

  lemma MembersShape(ms: Members, format: bool, depth: nat, k: Text)
    requires ms.Member?
    ensures RenderMembers(ms, format, depth) + k
            == Indent(format, depth)
               + (MemberText(ms.key, ms.item, format, depth)
                  + (MemberEnd(format, ms.next.NoMember?) + (RenderMembers(ms.next, format, depth) + k)))
    ensures ms.next.NoMember? ==> RenderMembers(ms.next, format, depth) + k == k
  {
    var indent := Indent(format, depth);
    var text := MemberText(ms.key, ms.item, format, depth);
    var end := MemberEnd(format, ms.next.NoMember?);
    var rest := RenderMembers(ms.next, format, depth);
    Assoc(indent, Quoted(ms.key), KeySeparator(format));
    Assoc(indent, Quoted(ms.key) + KeySeparator(format), Render(ms.item, format, depth));
    Assoc(indent + text + end, rest, k);
    Assoc(indent + text, end, rest + k);
    Assoc(indent, text, end + (rest + k));
  }

  function MemberHead(key: Text, format: bool, depth: nat): Text
  {
    Indent(format, depth) + Quoted(key) + KeySeparator(format)
  }

  function MemberTail(item: Json, last: bool, format: bool, depth: nat): Text
  {
    Render(item, format, depth) + MemberEnd(format, last)
  }

  lemma MembersHeadShape(ms: Members, format: bool, depth: nat, k: Text)
    requires ms.Member?
    ensures RenderMembers(ms, format, depth) + k
            == MemberHead(ms.key, format, depth)
               + (MemberTail(ms.item, ms.next.NoMember?, format, depth)
                  + (RenderMembers(ms.next, format, depth) + k))
  {
    var head := MemberHead(ms.key, format, depth);
    var end := MemberEnd(format, ms.next.NoMember?);
    var rest := RenderMembers(ms.next, format, depth);
    Assoc(head, Render(ms.item, format, depth), end);
    Assoc(head + (Render(ms.item, format, depth) + end), rest, k);
    Assoc(head, Render(ms.item, format, depth) + end, rest + k);
  }

  // ---- no NUL byte ever appears in the printed text ----

  lemma DigitsNulFree(n: nat)
    ensures NulFree(Digits(n)) && |Digits(n)| >= 1
  {
  }

  lemma EscapeNulFree(s: Text)
    requires NulFree(s)
    ensures NulFree(Escape(s))
  {
    if s != [] {
      EscapeNulFree(s[1..]);
      assert NulFree(EscapeByte(s[0]));
      NulFreeConcat(EscapeByte(s[0]), Escape(s[1..]));
    }
  }

  lemma QuotedNulFree(s: Text)
    requires NulFree(s)
    ensures NulFree(Quoted(s))
  {
    EscapeNulFree(s);
  }

  /** The printed text holds no NUL, so scanning for one always finds its end. */
  lemma {:induction false} RenderNulFree(t: Json, format: bool, depth: nat)
    requires Printable(t)
    ensures NulFree(Render(t, format, depth))
    ensures |Render(t, format, depth)| >= 1
  {
    hide Digits;
    hide Escape;
    hide RenderElements;
    hide RenderMembers;
    match t
    case Number(r) => DigitsNulFree(if r.Floor < 0 then -r.Floor else r.Floor);
    case String(s) => QuotedNulFree(s);
    case Array(es) => RenderElementsNulFree(es, format, depth + 1);
    case Object(ms) => RenderMembersNulFree(ms, format, depth + 1);
    case _ =>
  }

  lemma {:induction false} RenderElementsNulFree(es: Elements, format: bool, depth: nat)
    requires PrintableElements(es)
    ensures NulFree(RenderElements(es, format, depth))
  {
    if es.Element? {
      RenderNulFree(es.item, format, depth);
      RenderElementsNulFree(es.next, format, depth);
    }
  }

  lemma {:induction false} RenderMembersNulFree(ms: Members, format: bool, depth: nat)
    requires PrintableMembers(ms)
    ensures NulFree(RenderMembers(ms, format, depth))
  {
    if ms.Member? {
      var head := Indent(format, depth) + Quoted(ms.key) + KeySeparator(format);
      var value, end := Render(ms.item, format, depth), MemberEnd(format, ms.next.NoMember?);
      QuotedNulFree(ms.key);
      NulFreeConcat(Indent(format, depth), Quoted(ms.key));
      NulFreeConcat(Indent(format, depth) + Quoted(ms.key), KeySeparator(format));
      RenderNulFree(ms.item, format, depth);
      NulFreeConcat(head, value);
      NulFreeConcat(head + value, end);
      RenderMembersNulFree(ms.next, format, depth);
      NulFreeConcat(head + value + end, RenderMembers(ms.next, format, depth));
    }
  }
}
