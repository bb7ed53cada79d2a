/**
  What cjson.c's parser accepts and the value it yields, stated on the unread
  suffix of the input.  The suffix always ends in the NUL terminator that
  cJSON_ParseWithOpts counts as part of the buffer.
 */
module JsonGrammar {
  import opened Bytes
  import opened JsonTree

  datatype Parsed<+T> = Reject | Accept(value: T, rest: Text)

  /** A non-empty suffix of a NUL-terminated buffer. */
  predicate Terminated(s: Text)
  {
    s != [] && s[|s| - 1] == 0
  }

  /** buffer_skip_whitespace: every byte up to 32 counts as space; the last byte is never passed. */
  function SkipSpace(s: Text): (r: Text)
    requires s != []
    ensures r != [] && |r| <= |s|
    ensures |r| == 1 || r[0] > 32
    ensures Terminated(s) ==> Terminated(r)
  {
    if |s| > 1 && s[0] <= 32 then SkipSpace(s[1..]) else s
  }

  /** Step over one punctuation byte and the space behind it. */
  function Advance(s: Text): (r: Text)
    requires Terminated(s) && s[0] != 0
    ensures Terminated(r) && |r| < |s|
  {
    SkipSpace(s[1..])
  }

  predicate StartsWith(s: Text, prefix: Text)
  {
    |prefix| <= |s| && s[..|prefix|] == prefix
  }

  // ---- numbers ----

  predicate IsDigit(b: byte) { 48 <= b <= 57 }

  predicate NumberByte(b: byte)
  {
    IsDigit(b) || b == 43 || b == 45 || b == 69 || b == 101 || b == 46
  }

  /** Leading bytes that satisfy NumberByte, at most `limit` of them. */
  function NumberSpan(s: Text, limit: nat): (n: nat)
    ensures n <= |s| && n <= limit
  {
    if s == [] || limit == 0 || !NumberByte(s[0]) then 0 else 1 + NumberSpan(s[1..], limit - 1)
  }

  function DigitSpan(s: Text): (n: nat)
    ensures n <= |s|
    ensures forall i :: 0 <= i < n ==> IsDigit(s[i])
  {
    if s == [] || !IsDigit(s[0]) then 0 else 1 + DigitSpan(s[1..])
  }

  /** Value of a digit string, most significant digit first. */
  function DigitsValue(s: Text): nat
    requires forall i :: 0 <= i < |s| ==> IsDigit(s[i])
  {
    if s == [] then 0 else assert IsDigit(s[|s| - 1]); 10 * DigitsValue(s[..|s| - 1]) + (s[|s| - 1] as int - 48)
  }

  function Scale(r: real, e: int): real
    decreases if e < 0 then -e else e
  {
    if e == 0 then r else if e > 0 then Scale(r * 10.0, e - 1) else Scale(r / 10.0, e + 1)
  }

  datatype Strtod = Strtod(value: real, length: nat)

  /**
    strtod on text made of number bytes: the longest prefix of the form
    [sign] digits [. digits] [e [sign] digits]; length 0 when there is none.
    The value is exact.
   */
  function StringToDouble(s: Text): (r: Strtod)
    ensures r.length <= |s|
  {
    var sign := if s != [] && (s[0] == 45 || s[0] == 43) then 1 else 0;
    var whole := DigitSpan(s[sign..]);
    var afterWhole := sign + whole;
    var fraction := if afterWhole < |s| && s[afterWhole] == 46 then DigitSpan(s[afterWhole + 1..]) else 0;
    if whole == 0 && fraction == 0 then Strtod(0.0, 0)
    else
      var dot := if afterWhole < |s| && s[afterWhole] == 46 then 1 else 0;
      var mantissaEnd := afterWhole + dot + fraction;
      var mantissa :=
        DigitsValue(s[sign..afterWhole]) as real
        + Scale(DigitsValue(s[afterWhole + dot..mantissaEnd]) as real, -fraction);
      var signed := if sign == 1 && s[0] == 45 then -mantissa else mantissa;
      var exponent := Exponent(s[mantissaEnd..]);
      Strtod(Scale(signed, exponent.0), mantissaEnd + exponent.1)
  }

  /** Exponent value and the number of bytes it takes, (0, 0) when there is none. */
  function Exponent(s: Text): (r: (int, nat))
    ensures r.1 <= |s|
  {
    if s == [] || (s[0] != 69 && s[0] != 101) then (0, 0)
    else
      var sign := if |s| > 1 && (s[1] == 45 || s[1] == 43) then 1 else 0;
      var digits := DigitSpan(s[1 + sign..]);
      if digits == 0 then (0, 0)
      else
        var value: int := DigitsValue(s[1 + sign..1 + sign + digits]);
        (if sign == 1 && s[1] == 45 then -value else value, 1 + sign + digits)
  }

  /** The text parse_number hands to strtod: its scratch buffer holds 63 bytes and a NUL. */
  function NumberText(s: Text): Text
  {
    s[..NumberSpan(s, 63)]
  }

  function ParseNumber(s: Text): (r: Parsed<Json>)
    requires Terminated(s)
    ensures r.Accept? ==> Terminated(r.rest) && |r.rest| < |s|
  {
    var number := StringToDouble(NumberText(s));
    if number.length == 0 then Reject
    else
      NumberTextEndsEarly(s, 63);
      Accept(Number(number.value), s[number.length..])
  }

  lemma NumberTextEndsEarly(s: Text, limit: nat)
    requires Terminated(s)
    ensures NumberSpan(s, limit) < |s|
  {
  }

  /** `valueint`: the number truncated towards zero, saturated to the range of int. */
  function ValueInt(r: real): (n: int)
    ensures INT_MIN <= n <= INT_MAX
  {
    if r >= INT_MAX as real then INT_MAX
    else if r <= INT_MIN as real then INT_MIN
    else if r >= 0.0 then r.Floor
    else -((-r).Floor)
  }

  // ---- strings ----

  /** Index of the closing quote at or after `i`, stepping over escaped bytes. */
  function ClosingQuote(s: Text, i: nat): (r: Option<nat>)
    ensures r.Some? ==> i <= r.value < |s| && s[r.value] == QUOTE
    decreases |s| - i
  {
    if i >= |s| then None
    else if s[i] == QUOTE then Some(i)
    else if s[i] == BACKSLASH then ClosingQuote(s, i + 2)
    else ClosingQuote(s, i + 1)
  }

  function HexValue(b: byte): (r: Option<nat>)
    ensures r.Some? ==> r.value < 16
  {
    if 48 <= b <= 57 then Some(b - 48)
    else if 65 <= b <= 70 then Some(b - 55)
    else if 97 <= b <= 102 then Some(b - 87)
    else None
  }

  /** Value of `n` hexadecimal digits, or None when one of them is not a digit. */
  function HexDigits(s: Text, i: nat, n: nat): (r: Option<nat>)
    requires i + n <= |s|
    ensures r.Some? && n <= 4 ==> r.value < [1, 16, 256, 4096, 65536][n]
  {
    if n == 0 then Some(0)
    else
      var front, last := HexDigits(s, i, n - 1), HexValue(s[i + n - 1]);
      if front.None? || last.None? then None else Some(16 * front.value + last.value)
  }

  /** parse_hex4: four hexadecimal digits, or 0 when one of them is not a digit. */
  function Hex4(s: Text, i: nat): (h: nat)
    requires i + 4 <= |s|
    ensures h < 0x10000
  {
    var digits := HexDigits(s, i, 4);
    if digits.None? then 0 else digits.value
  }

  /** UTF-8 encoding of a code point (RFC 3629, section 3). */
  function Utf8(c: nat): (r: Text)
    requires c <= 0x10FFFF
    ensures 1 <= |r| <= 4
    ensures c < 0x10000 ==> |r| <= 3
  {
    if c < 0x80 then [c]
    else if c < 0x800 then [0xC0 + c / 64, 0x80 + c % 64]
    else if c < 0x10000 then [0xE0 + c / 4096, 0x80 + c / 64 % 64, 0x80 + c % 64]
    else [0xF0 + c / 262144, 0x80 + c / 4096 % 64, 0x80 + c / 64 % 64, 0x80 + c % 64]
  }

  datatype Unicode = Malformed | Unicode(codepoint: nat, length: nat)

  /** The escape or surrogate pair of escapes at `p`, which must end at or before `end`. */
  function UnicodeEscape(s: Text, p: nat, end: nat): (r: Unicode)
    requires p <= end <= |s|
    ensures r.Unicode? ==> r.codepoint <= 0x10FFFF && p + r.length <= end
    ensures r.Unicode? ==> (r.length == 6 && r.codepoint < 0x10000) || r.length == 12
  {
    if end - p < 6 then Malformed
    else
      var first := Hex4(s, p + 2);
      if 0xDC00 <= first <= 0xDFFF then Malformed
      else if !(0xD800 <= first <= 0xDBFF) then Unicode(first, 6)
      else if end - p < 12 || s[p + 6] != BACKSLASH || s[p + 7] != 117 then Malformed
      else
        var second := Hex4(s, p + 8);
        if !(0xDC00 <= second <= 0xDFFF) then Malformed
        else Unicode(0x10000 + (first - 0xD800) * 1024 + (second - 0xDC00), 12)
  }

  /** The byte a two-character escape stands for, or None when it is not one. */
  function UnescapeLetter(b: byte): Option<byte>
  {
    match b
    case 98 => Some(8)
    case 102 => Some(12)
    case 110 => Some(10)
    case 114 => Some(13)
    case 116 => Some(9)
    case 34 => Some(34)
    case 92 => Some(92)
    case 47 => Some(47)
    case _ => None
  }

  /** The bytes written by the decode pass over s[p..end]. */
  function Decode(s: Text, p: nat, end: nat): (r: Option<Text>)
    requires end < |s|
    decreases |s| + 1 - p
  {
    if p >= end then Some([])
    else if s[p] != BACKSLASH then Prepend([s[p]], Decode(s, p + 1, end))
    else if s[p + 1] == 117 then
      var u := UnicodeEscape(s, p, end);
      if u.Malformed? then None else Prepend(Utf8(u.codepoint), Decode(s, p + u.length, end))
    else
      var letter := UnescapeLetter(s[p + 1]);
      if letter.None? then None else Prepend([letter.value], Decode(s, p + 2, end))
  }

  function Prepend(head: Text, tail: Option<Text>): Option<Text>
  {
    if tail.None? then None else Some(head + tail.value)
  }

  lemma PrependNothing(tail: Option<Text>)
    ensures Prepend([], tail) == tail
  {
    if tail.Some? {
      assert [] + tail.value == tail.value;
    }
  }

  lemma PrependTwice(a: Text, b: Text, tail: Option<Text>)
    ensures Prepend(a, Prepend(b, tail)) == Prepend(a + b, tail)
  {
    if tail.Some? {
      Assoc(a, b, tail.value);
    }
  }

  function ParseString(s: Text): (r: Parsed<Text>)
    requires Terminated(s)
    ensures r.Accept? ==> Terminated(r.rest) && |r.rest| < |s|
  {
    if s[0] != QUOTE then Reject
    else
      var end := ClosingQuote(s, 1);
      if end.None? then Reject
      else
        var decoded := Decode(s, 1, end.value);
        if decoded.None? then Reject else Accept(CString(decoded.value), s[end.value + 1..])
  }

  // ---- values ----

  function ParseValue(s: Text, depth: nat): (r: Parsed<Json>)
    requires Terminated(s)
    ensures r.Accept? ==> Terminated(r.rest) && |r.rest| < |s|
    decreases |s|, 2
  {
    if StartsWith(s, NULL_TEXT) then Accept(Null, s[4..])
    else if StartsWith(s, FALSE_TEXT) then Accept(False, s[5..])
    else if StartsWith(s, TRUE_TEXT) then Accept(True, s[4..])
    else if s[0] == QUOTE then
      var r := ParseString(s);
      if r.Reject? then Reject else Accept(String(r.value), r.rest)
    else if s[0] == MINUS || IsDigit(s[0]) then ParseNumber(s)
    else if s[0] == LBRACKET then ParseArray(s, depth)
    else if s[0] == LBRACE then ParseObject(s, depth)
    else Reject
  }

  function ParseArray(s: Text, depth: nat): (r: Parsed<Json>)
    requires Terminated(s) && s[0] == LBRACKET
    ensures r.Accept? ==> Terminated(r.rest) && |r.rest| < |s|
    decreases |s|, 1
  {
    if depth >= NESTING_LIMIT then Reject
    else
      var first := Advance(s);
      if first[0] == RBRACKET then Accept(Array(NoElement), first[1..])
      else CloseArray(ParseElements(first, depth + 1))
  }

  /** The closing bracket behind the children. */
  function CloseArray(r: Parsed<Elements>): (closed: Parsed<Json>)
    requires r.Accept? ==> Terminated(r.rest)
    ensures closed.Accept? ==> r.Accept? && Terminated(closed.rest) && |closed.rest| < |r.rest|
  {
    if r.Reject? || r.rest[0] != RBRACKET then Reject else Accept(Array(r.value), r.rest[1..])
  }

  /** One or more elements; `rest` is what follows the last one, past any space. */
  function ParseElements(s: Text, depth: nat): (r: Parsed<Elements>)
    requires Terminated(s)
    ensures r.Accept? ==> Terminated(r.rest) && |r.rest| < |s|
    decreases |s|, 3
  {
    var item := ParseValue(s, depth);
    if item.Reject? then Reject
    else
      var after := SkipSpace(item.rest);
      if after[0] != COMMA then Accept(Element(item.value, NoElement), after)
      else
        var r := ParseElements(Advance(after), depth);
        if r.Reject? then Reject else Accept(Element(item.value, r.value), r.rest)
  }

  function ParseObject(s: Text, depth: nat): (r: Parsed<Json>)
    requires Terminated(s) && s[0] == LBRACE
    ensures r.Accept? ==> Terminated(r.rest) && |r.rest| < |s|
    decreases |s|, 1
  {
    if depth >= NESTING_LIMIT then Reject
    else
      var first := Advance(s);
      if first[0] == RBRACE then Accept(Object(NoMember), first[1..])
      else CloseObject(ParseMembers(first, depth + 1))
  }

  /** The closing bracket behind the children. */
  function CloseObject(r: Parsed<Members>): (closed: Parsed<Json>)
    requires r.Accept? ==> Terminated(r.rest)
    ensures closed.Accept? ==> r.Accept? && Terminated(closed.rest) && |closed.rest| < |r.rest|
  {
    if r.Reject? || r.rest[0] != RBRACE then Reject else Accept(Object(r.value), r.rest[1..])
  }

  function ParseMembers(s: Text, depth: nat): (r: Parsed<Members>)
    requires Terminated(s)
    ensures r.Accept? ==> Terminated(r.rest) && |r.rest| < |s|
    decreases |s|, 4
  {
    var member := ParseMember(s, depth);
    if member.Reject? then Reject
    else
      var after := SkipSpace(member.rest);
      if after[0] != COMMA then Accept(member.value, after)
      else
        var r := ParseMembers(Advance(after), depth);
        if r.Reject? then Reject else Accept(member.value.(next := r.value), r.rest)
  }

  /** A key, a colon and a value: one list node with nothing linked behind it. */
  function ParseMember(s: Text, depth: nat): (r: Parsed<Members>)
    requires Terminated(s)
    ensures r.Accept? ==> Terminated(r.rest) && |r.rest| < |s| && r.value.Member? && r.value.next.NoMember?
    decreases |s|, 3
  {
    var key := ParseString(s);
    if key.Reject? then Reject
    else
      var colon := SkipSpace(key.rest);
      if colon[0] != COLON then Reject
      else
        var item := ParseValue(Advance(colon), depth);
        if item.Reject? then Reject else Accept(Member(key.value, item.value, NoMember), item.rest)
  }

  /** skip_utf8_bom, which wants at least two more bytes behind the mark. */
  function WithoutBom(s: Text): (r: Text)
    requires Terminated(s)
    ensures Terminated(r)
  {
    if |s| > 4 && StartsWith(s, [0xEF, 0xBB, 0xBF]) then s[3..] else s
  }

  /** cJSON_ParseWithOpts on the bytes of a C string and its terminator. */
  function ParseDocument(s: Text, requireEnd: bool): (r: Parsed<Json>)
    requires Terminated(s)
    ensures r.Accept? ==> Terminated(r.rest)
  {
    var r := ParseValue(SkipSpace(WithoutBom(s)), 0);
    if r.Reject? then Reject
    else if !requireEnd then r
    else
      var end := SkipSpace(r.rest);
      if end[0] == 0 then Accept(r.value, end) else Reject
  }
}
