/**
  The words of JSON text as cjson.c takes them: string literals and numerals, each
  with the value it has. Every literal and numeral described here is read with that
  value, and nothing else is.
 */
module JsonTokens {
  import opened Bytes
  import opened JsonTree
  import opened JsonGrammar
  import opened JsonRoundTrip

  // ---------- Code points ----------

  predicate Tail(b: byte) {
    0x80 <= b <= 0xBF
  }

  /** The code point that bytes stand for, by the ranges of RFC 3629, section 4; None for anything else. */
  function FromUtf8(b: Text): Option<nat> {
    if |b| == 1 && b[0] <= 0x7F then Some(b[0])
    else if |b| == 2 && 0xC2 <= b[0] <= 0xDF && Tail(b[1]) then Some(Join(b[0] - 0xC0, b[1]))
    else if |b| == 3 && ThreeStart(b[0], b[1]) && Tail(b[2]) then Some(Join(Join(b[0] - 0xE0, b[1]), b[2]))
    else if |b| == 4 && FourStart(b[0], b[1]) && Tail(b[2]) && Tail(b[3])
    then Some(Join(Join(Join(b[0] - 0xF0, b[1]), b[2]), b[3]))
    else None
  }

  /** Six more bits. */
  function Join(bits: nat, tail: byte): nat
    requires Tail(tail)
  {
    64 * bits + (tail - 0x80)
  }

  predicate ThreeStart(a: byte, b: byte) {
    || (a == 0xE0 && 0xA0 <= b <= 0xBF)
    || (0xE1 <= a <= 0xEC && Tail(b))
    || (a == 0xED && 0x80 <= b <= 0x9F)
    || (0xEE <= a <= 0xEF && Tail(b))
  }

  predicate FourStart(a: byte, b: byte) {
    || (a == 0xF0 && 0x90 <= b <= 0xBF)
    || (0xF1 <= a <= 0xF3 && Tail(b))
    || (a == 0xF4 && 0x80 <= b <= 0x8F)
  }

  /** What is written for a code point reads back as that code point; halves of surrogate pairs are none. */
  lemma Utf8Reads(c: nat)
    requires c <= 0x10FFFF
    ensures FromUtf8(Utf8(c)) == if 0xD800 <= c <= 0xDFFF then None else Some(c)
  {
    SixBits(c);
    if c >= 0x10000 {
      FourReads(c);
    } else if c >= 0x800 {
      ThreeReads(c);
    }
  }

  lemma ThreeReads(c: nat)
    requires 0x800 <= c < 0x10000
    ensures FromUtf8(Utf8(c)) == if 0xD800 <= c <= 0xDFFF then None else Some(c)
  {
    var a, b := c / 4096, c / 64 % 64;
    SixBits(c);
    SixBits(c / 64);
    assert c / 4096 == c / 64 / 64;
    assert Utf8(c) == [0xE0 + a, 0x80 + b, 0x80 + c % 64];
    hide Utf8;
  }

  lemma FourReads(c: nat)
    requires 0x10000 <= c <= 0x10FFFF
    ensures FromUtf8(Utf8(c)) == Some(c)
  {
    var a, b, d := c / 262144, c / 4096 % 64, c / 64 % 64;
    SixBits(c);
    SixBits(c / 64);
    SixBits(c / 4096);
    assert c / 4096 == c / 64 / 64 && c / 262144 == c / 4096 / 64;
    assert Utf8(c) == [0xF0 + a, 0x80 + b, 0x80 + d, 0x80 + c % 64];
    hide Utf8;
  }

  lemma SixBits(c: nat)
    ensures c == 64 * (c / 64) + c % 64 && c % 64 < 64
  {
  }

  lemma JoinedBits(bits: nat, tail: byte)
    requires Tail(tail)
    ensures Join(bits, tail) / 64 == bits && Join(bits, tail) % 64 == tail - 0x80
  {
  }

  /** And no other bytes do. */
  lemma Utf8Only(b: Text)
    requires FromUtf8(b).Some?
    ensures FromUtf8(b).value <= 0x10FFFF && !(0xD800 <= FromUtf8(b).value <= 0xDFFF) && b == Utf8(FromUtf8(b).value)
  {
    if |b| == 2 {
      JoinedBits(b[0] - 0xC0, b[1]);
    } else if |b| == 3 {
      ThreeOnly(b);
    } else if |b| == 4 {
      FourOnly(b);
    }
  }

  lemma ThreeOnly(b: Text)
    requires FromUtf8(b).Some? && |b| == 3
    ensures FromUtf8(b).value <= 0x10FFFF && !(0xD800 <= FromUtf8(b).value <= 0xDFFF) && b == Utf8(FromUtf8(b).value)
  {
    ThreeBits(b[0] - 0xE0, b[1], b[2]);
  }

  lemma ThreeBits(bits: nat, x: byte, y: byte)
    requires Tail(x) && Tail(y)
    ensures var c := Join(Join(bits, x), y); c / 4096 == bits && c / 64 % 64 == x - 0x80 && c % 64 == y - 0x80
  {
    hide Join;
    JoinedBits(bits, x);
    JoinedBits(Join(bits, x), y);
    var c := Join(Join(bits, x), y);
    assert c / 4096 == c / 64 / 64;
  }

  lemma FourOnly(b: Text)
    requires FromUtf8(b).Some? && |b| == 4
    ensures FromUtf8(b).value <= 0x10FFFF && !(0xD800 <= FromUtf8(b).value <= 0xDFFF) && b == Utf8(FromUtf8(b).value)
  {
    FourBits(b[0] - 0xF0, b[1], b[2], b[3]);
  }

  lemma FourBits(bits: nat, x: byte, y: byte, z: byte)
    requires Tail(x) && Tail(y) && Tail(z)
    ensures var c := Join(Join(Join(bits, x), y), z);
            c / 262144 == bits && c / 4096 % 64 == x - 0x80 && c / 64 % 64 == y - 0x80 && c % 64 == z - 0x80
  {
    hide Join;
    JoinedBits(bits, x);
    JoinedBits(Join(bits, x), y);
    JoinedBits(Join(Join(bits, x), y), z);
    var c := Join(Join(Join(bits, x), y), z);
    assert c / 4096 == c / 64 / 64 && c / 262144 == c / 4096 / 64;
  }

  // ---------- Hexadecimal digits ----------

  /** A digit stands for its place in the alphabet, in either case. */
  lemma HexValueExactly(b: byte, d: nat)
    ensures HexValue(b) == Some(d) <==>
              d < 16 && (b == "0123456789abcdef"[d] as int || b == "0123456789ABCDEF"[d] as int)
  {
  }

  /** Four digits, most significant first; zero if one of them is no digit. */
  lemma Hex4Exactly(h: Text)
    requires |h| == 4
    ensures var a, b, c, d := HexValue(h[0]), HexValue(h[1]), HexValue(h[2]), HexValue(h[3]);
            Hex4(h, 0) == if a.Some? && b.Some? && c.Some? && d.Some?
                          then 4096 * a.value + 256 * b.value + 16 * c.value + d.value
                          else 0
  {
    hide HexValue;
    HexStep(h, 0);
    HexStep(h, 1);
    HexStep(h, 2);
    HexStep(h, 3);
    hide HexDigits;
  }

  lemma HexStep(h: Text, n: nat)
    requires n < |h|
    ensures n == 0 ==> HexDigits(h, 0, n) == Some(0)
    ensures var front, last := HexDigits(h, 0, n), HexValue(h[n]);
            HexDigits(h, 0, n + 1) == if front.None? || last.None? then None else Some(16 * front.value + last.value)
  {
    hide HexValue;
  }

  lemma Hex4Of(s: Text, p: nat, h: Text)
    requires |h| == 4 && p + 4 <= |s| && s[p..p + 4] == h
    ensures Hex4(s, p) == Hex4(h, 0)
  {
    HexDigitsOf(s, p, h, 4);
  }

  lemma {:induction false} HexDigitsOf(s: Text, p: nat, h: Text, n: nat)
    requires n <= |h| && p + |h| <= |s| && s[p..p + |h|] == h
    ensures HexDigits(s, p, n) == HexDigits(h, 0, n)
  {
    if n > 0 {
      assert s[p + n - 1] == s[p..p + |h|][n - 1];
      HexDigitsOf(s, p, h, n - 1);
    }
  }

  // ---------- String literals ----------

  datatype Unit = Plain(b: byte) | Pair(letter: byte) | Code(h: Text) | Surrogates(high: Text, low: Text)

  /** A unit of a literal and the bytes it stands for. */
  datatype Piece = Piece(unit: Unit, bytes: Text)

  function Spell(u: Unit): (r: Text)
    ensures r != []
  {
    match u
    case Plain(b) => [b]
    case Pair(letter) => ['\\' as int, letter]
    case Code(h) => ['\\' as int, 'u' as int] + h
    case Surrogates(high, low) => ['\\' as int, 'u' as int] + high + ['\\' as int, 'u' as int] + low
  }

  /** The two-character escapes. */
  predicate StandsFor(letter: byte, b: byte) {
    || (letter == '"' as int && b == 34)
    || (letter == '\\' as int && b == 92)
    || (letter == '/' as int && b == 47)
    || (letter == 'b' as int && b == 8)
    || (letter == 'f' as int && b == 12)
    || (letter == 'n' as int && b == 10)
    || (letter == 'r' as int && b == 13)
    || (letter == 't' as int && b == 9)
  }

  /**
    A code escape stands for the UTF-8 of its number, and so does a pair of escapes
    that split a number beyond the first 65536 as RFC 8259, section 7, says.
   */
  predicate Means(u: Unit, bytes: Text) {
    match u
    case Plain(b) => b != '\\' as int && bytes == [b]
    case Pair(letter) => |bytes| == 1 && StandsFor(letter, bytes[0])
    case Code(h) => |h| == 4 && FromUtf8(bytes) == Some(Hex4(h, 0))
    case Surrogates(high, low) =>
      && |high| == 4 && |low| == 4
      && FromUtf8(bytes).Some? && FromUtf8(bytes).value >= 0x10000
      && var c := FromUtf8(bytes).value - 0x10000;
         Hex4(high, 0) == 0xD800 + c / 1024 && Hex4(low, 0) == 0xDC00 + c % 1024
  }

  lemma LetterExactly(letter: byte, b: byte)
    ensures UnescapeLetter(letter) == Some(b) <==> StandsFor(letter, b)
  {
  }

  /** The pair of numbers that a number beyond the first 65536 is split into, put together again. */
  lemma Split(c: nat)
    requires c < 0x100000
    ensures 0xD800 <= 0xD800 + c / 1024 <= 0xDBFF && 0xDC00 <= 0xDC00 + c % 1024 <= 0xDFFF
    ensures (c / 1024) * 1024 + c % 1024 == c
  {
  }

  lemma Whole(high: nat, low: nat)
    requires 0xD800 <= high <= 0xDBFF && 0xDC00 <= low <= 0xDFFF
    ensures var c := (high - 0xD800) * 1024 + (low - 0xDC00);
            c < 0x100000 && high == 0xD800 + c / 1024 && low == 0xDC00 + c % 1024
  {
  }

  /** The unit stands at `p`; only the second byte of a pair may lie on the closing quote. */
  predicate StandsAt(s: Text, p: nat, end: nat, u: Unit) {
    && p < end < |s| && p + |Spell(u)| <= end + (if u.Pair? then 1 else 0)
    && s[p..p + |Spell(u)|] == Spell(u)
  }

  lemma UnitDecodes(s: Text, p: nat, end: nat, u: Unit, bytes: Text)
    requires StandsAt(s, p, end, u) && Means(u, bytes)
    ensures Decode(s, p, end) == Prepend(bytes, Decode(s, p + |Spell(u)|, end))
  {
    DecodeStep(s, p, end);
    hide Decode;
    var w := s[p..p + |Spell(u)|];
    assert s[p] == w[0];
    match u
    case Plain(b) =>
    case Pair(letter) =>
      assert s[p + 1] == w[1] && bytes == [bytes[0]];
      LetterExactly(letter, bytes[0]);
    case Code(h) =>
      assert s[p + 1] == w[1];
      CodeRead(s, p, end, h, bytes);
    case Surrogates(high, low) =>
      assert s[p + 1] == w[1];
      SurrogatesRead(s, p, end, high, low, bytes);
  }

  /** One unfolding of Decode. */
  lemma DecodeStep(s: Text, p: nat, end: nat)
    requires p < end < |s|
    ensures s[p] != BACKSLASH ==> Decode(s, p, end) == Prepend([s[p]], Decode(s, p + 1, end))
    ensures s[p] == BACKSLASH && s[p + 1] == 'u' as int ==>
              var u := UnicodeEscape(s, p, end);
              Decode(s, p, end)
              == if u.Malformed? then None else Prepend(Utf8(u.codepoint), Decode(s, p + u.length, end))
    ensures s[p] == BACKSLASH && s[p + 1] != 'u' as int ==>
              var letter := UnescapeLetter(s[p + 1]);
              Decode(s, p, end) == if letter.None? then None else Prepend([letter.value], Decode(s, p + 2, end))
  {
    hide UnicodeEscape;
    hide Utf8;
    hide UnescapeLetter;
  }

  lemma CodeRead(s: Text, p: nat, end: nat, h: Text, bytes: Text)
    requires StandsAt(s, p, end, Code(h)) && Means(Code(h), bytes)
    ensures UnicodeEscape(s, p, end) == Unicode(Hex4(h, 0), 6) && Hex4(h, 0) <= 0x10FFFF && bytes == Utf8(Hex4(h, 0))
  {
    assert s[p + 2..p + 6] == s[p..p + 6][2..] == h;
    Hex4Of(s, p + 2, h);
    Utf8Only(bytes);
    hide Hex4;
    hide FromUtf8;
    hide Utf8;
  }

  lemma SurrogatesRead(s: Text, p: nat, end: nat, high: Text, low: Text, bytes: Text)
    requires StandsAt(s, p, end, Surrogates(high, low)) && Means(Surrogates(high, low), bytes)
    ensures var c := FromUtf8(bytes).value;
            UnicodeEscape(s, p, end) == Unicode(c, 12) && c <= 0x10FFFF && bytes == Utf8(c)
  {
    var w := s[p..p + 12];
    assert w == Spell(Surrogates(high, low));
    assert s[p + 2..p + 6] == w[2..6] == high && s[p + 8..p + 12] == w[8..] == low;
    assert s[p + 6] == w[6] && s[p + 7] == w[7];
    Hex4Of(s, p + 2, high);
    Hex4Of(s, p + 8, low);
    Utf8Only(bytes);
    Split(FromUtf8(bytes).value - 0x10000);
    hide Hex4;
    hide FromUtf8;
    hide Utf8;
  }

  /** Whatever the decoder takes in one turn is such a unit. */
  lemma UnitFound(s: Text, p: nat, end: nat) returns (u: Unit, bytes: Text)
    requires p < end < |s| && Decode(s, p, end).Some?
    ensures StandsAt(s, p, end, u) && Means(u, bytes)
    ensures u.Pair? ==> u.letter == s[p + 1] && |Spell(u)| == 2
    ensures Decode(s, p, end) == Prepend(bytes, Decode(s, p + |Spell(u)|, end))
  {
    DecodeStep(s, p, end);
    hide Decode;
    if s[p] != BACKSLASH {
      u, bytes := Plain(s[p]), [s[p]];
      assert s[p..p + 1] == [s[p]];
    } else if s[p + 1] != 'u' as int {
      u, bytes := Pair(s[p + 1]), [UnescapeLetter(s[p + 1]).value];
      LetterExactly(s[p + 1], bytes[0]);
      assert s[p..p + 2] == [BACKSLASH, s[p + 1]];
    } else {
      u, bytes := CodeFound(s, p, end);
    }
  }

  lemma CodeFound(s: Text, p: nat, end: nat) returns (u: Unit, bytes: Text)
    requires p < end < |s| && s[p] == BACKSLASH && s[p + 1] == 'u' as int && UnicodeEscape(s, p, end).Unicode?
    ensures StandsAt(s, p, end, u) && Means(u, bytes) && !u.Pair?
    ensures |Spell(u)| == UnicodeEscape(s, p, end).length && bytes == Utf8(UnicodeEscape(s, p, end).codepoint)
  {
    hide Hex4;
    hide Utf8;
    hide FromUtf8;
    var high := s[p + 2..p + 6];
    Hex4Of(s, p + 2, high);
    var found := UnicodeEscape(s, p, end);
    bytes := Utf8(found.codepoint);
    if found.length == 6 {
      u := Code(high);
      Utf8Reads(found.codepoint);
      assert s[p..p + 6] == [BACKSLASH, 'u' as int] + high;
    } else {
      var low := s[p + 8..p + 12];
      Hex4Of(s, p + 8, low);
      u := Surrogates(high, low);
      Whole(Hex4(high, 0), Hex4(low, 0));
      Utf8Reads(found.codepoint);
      assert s[p..p + 12] == Spell(u);
    }
  }

  function SpellAll(ps: seq<Piece>): Text {
    if ps == [] then [] else Spell(ps[0].unit) + SpellAll(ps[1..])
  }

  function BytesOf(ps: seq<Piece>): Text {
    if ps == [] then [] else ps[0].bytes + BytesOf(ps[1..])
  }

  predicate AllMean(ps: seq<Piece>) {
    forall i :: 0 <= i < |ps| ==> Means(ps[i].unit, ps[i].bytes)
  }

  predicate EndsOnQuote(ps: seq<Piece>) {
    ps != [] && ps[|ps| - 1].unit == Pair('"' as int)
  }

  /** No quote in the text but behind a backslash, when bytes behind backslashes are passed over. */
  predicate Paired(body: Text)
    decreases |body|
  {
    body == []
    || (body[0] == '\\' as int && |body| > 1 && Paired(body[2..]))
    || (body[0] != '\\' as int && body[0] != '"' as int && Paired(body[1..]))
  }

  /** What stands between two quotes, and the pieces it is made of. */
  datatype Literal = Literal(body: Text, pieces: seq<Piece>)

  /**
    The pieces make up the body. The one exception: when a code escape has other bytes
    than digits, the pieces can be out of step with the backslashes, and then the last
    of them may be an escaped quote whose quote is the closing one.
   */
  predicate WellSpelled(l: Literal) {
    && Paired(l.body) && AllMean(l.pieces)
    && (SpellAll(l.pieces) == l.body || (EndsOnQuote(l.pieces) && SpellAll(l.pieces) == l.body + ['"' as int]))
  }

  function LiteralText(l: Literal): Text {
    ['"' as int] + l.body + ['"' as int]
  }

  /** The value is a C string: it ends at the first zero byte. */
  function LiteralValue(l: Literal): Text {
    CString(BytesOf(l.pieces))
  }

  lemma {:induction false} PairedCloses(s: Text, i: nat, body: Text)
    requires Paired(body) && i + |body| < |s| && s[i..i + |body|] == body && s[i + |body|] == QUOTE
    ensures ClosingQuote(s, i) == Some(i + |body|)
    decreases |body|
  {
    if body != [] {
      assert s[i] == s[i..i + |body|][0];
      var n := if body[0] == BACKSLASH then 2 else 1;
      assert s[i + n..i + |body|] == body[n..];
      PairedCloses(s, i + n, body[n..]);
    }
  }

  lemma {:induction false} ClosedPaired(s: Text, i: nat)
    requires ClosingQuote(s, i).Some?
    ensures Paired(s[i..ClosingQuote(s, i).value])
    decreases |s| - i
  {
    var end := ClosingQuote(s, i).value;
    if i < end {
      var n := if s[i] == BACKSLASH then 2 else 1;
      ClosedPaired(s, i + n);
      assert s[i..end][n..] == s[i + n..end];
    }
  }

  lemma {:induction false} PiecesDecode(s: Text, p: nat, end: nat, ps: seq<Piece>)
    requires AllMean(ps) && end < |s| && p + |SpellAll(ps)| <= |s| && s[p..p + |SpellAll(ps)|] == SpellAll(ps)
    requires p + |SpellAll(ps)| == end || (p + |SpellAll(ps)| == end + 1 && (ps == [] || EndsOnQuote(ps)))
    ensures Decode(s, p, end) == Some(BytesOf(ps))
    decreases |ps|
  {
    hide SpellAll;
    hide BytesOf;
    hide Spell;
    hide Means;
    hide Decode;
    PiecesStep(ps);
    if ps == [] {
      DecodesNothing(s, p, end);
    } else {
      var u, w, rest := ps[0].unit, Spell(ps[0].unit), SpellAll(ps[1..]);
      Separate(s, p, w, rest);
      RestNotEmpty(ps);
      UnitDecodes(s, p, end, u, ps[0].bytes);
      PiecesDecode(s, p + |w|, end, ps[1..]);
    }
  }

  lemma DecodesNothing(s: Text, p: nat, end: nat)
    requires end <= p && end < |s|
    ensures Decode(s, p, end) == Some([])
  {
  }

  lemma Separate(s: Text, p: nat, a: Text, b: Text)
    requires p + |a + b| <= |s| && s[p..p + |a + b|] == a + b
    ensures s[p..p + |a|] == a && s[p + |a|..p + |a| + |b|] == b
  {
    assert s[p..p + |a|] == s[p..p + |a + b|][..|a|];
    assert s[p + |a|..p + |a| + |b|] == s[p..p + |a + b|][|a|..];
  }

  lemma PiecesStep(ps: seq<Piece>)
    ensures ps == [] ==> SpellAll(ps) == [] && BytesOf(ps) == []
    ensures ps != [] ==> SpellAll(ps) == Spell(ps[0].unit) + SpellAll(ps[1..])
    ensures ps != [] ==> BytesOf(ps) == ps[0].bytes + BytesOf(ps[1..])
  {
  }

  /** Pieces that end on an escaped quote and are more than it have two bytes behind the first piece. */
  lemma {:induction false} RestNotEmpty(ps: seq<Piece>)
    requires ps != []
    ensures |ps| == 1 ==> SpellAll(ps) == Spell(ps[0].unit)
    ensures EndsOnQuote(ps) ==> |SpellAll(ps)| >= 2 && (|ps| > 1 ==> |SpellAll(ps[1..])| >= 2)
    decreases |ps|
  {
    if |ps| > 1 {
      RestNotEmpty(ps[1..]);
    }
  }

  lemma {:induction false} PiecesFound(s: Text, p: nat, end: nat) returns (ps: seq<Piece>)
    requires p <= end + 1 <= |s| && s[end] == QUOTE && Decode(s, p, end).Some?
    ensures AllMean(ps) && Decode(s, p, end) == Some(BytesOf(ps)) && p + |SpellAll(ps)| <= |s|
    ensures s[p..p + |SpellAll(ps)|] == SpellAll(ps)
    ensures p + |SpellAll(ps)| == end || (p + |SpellAll(ps)| == end + 1 && (ps == [] || EndsOnQuote(ps)))
    decreases |s| + 1 - p
  {
    hide Decode;
    hide SpellAll;
    hide BytesOf;
    hide Spell;
    hide Means;
    if p >= end {
      ps := [];
      assert s[p..p] == [];
      DecodesNothing(s, p, end);
      PiecesStep(ps);
    } else {
      var u, bytes := UnitFound(s, p, end);
      var w := Spell(u);
      var rest := PiecesFound(s, p + |w|, end);
      ps := [Piece(u, bytes)] + rest;
      assert ps[1..] == rest;
      PiecesStep(ps);
      PiecesStep(rest);
      assert rest != [] ==> ps[|ps| - 1] == rest[|rest| - 1];
      Adjacent(s, p, w, SpellAll(rest));
    }
  }

  lemma Adjacent(s: Text, p: nat, a: Text, b: Text)
    requires p + |a| + |b| <= |s| && s[p..p + |a|] == a && s[p + |a|..p + |a| + |b|] == b
    ensures s[p..p + |a + b|] == a + b
  {
  }

  /** Every literal is read, with its value. */
  lemma LiteralReads(l: Literal, k: Text)
    requires WellSpelled(l) && Terminated(k)
    ensures Terminated(LiteralText(l) + k) && ParseString(LiteralText(l) + k) == Accept(LiteralValue(l), k)
  {
    hide ClosingQuote;
    hide Decode;
    hide Paired;
    hide SpellAll;
    hide BytesOf;
    hide CString;
    hide AllMean;
    var s, end := LiteralText(l) + k, 1 + |l.body|;
    assert s[1..1 + |l.body|] == l.body && s[end] == QUOTE && s[end + 1..] == k;
    PairedCloses(s, 1, l.body);
    var text := SpellAll(l.pieces);
    assert s[1..1 + |text|] == text;
    PiecesDecode(s, 1, end, l.pieces);
  }

  /** Only literals are. */
  lemma LiteralFound(s: Text) returns (l: Literal)
    requires Terminated(s) && ParseString(s).Accept?
    ensures WellSpelled(l) && s == LiteralText(l) + ParseString(s).rest && ParseString(s).value == LiteralValue(l)
  {
    hide *;
    StringAccepted(s);
    var end := ClosingQuote(s, 1).value;
    ClosedPaired(s, 1);
    var ps := PiecesFound(s, 1, end);
    l := Literal(s[1..end], ps);
    PiecesStep(ps);
    Between(s, end);
    LiteralOf(l);
  }

  lemma StringAccepted(s: Text)
    requires Terminated(s) && ParseString(s).Accept?
    ensures ClosingQuote(s, 1).Some? && s[0] == QUOTE && s[ClosingQuote(s, 1).value] == QUOTE
    ensures var end := ClosingQuote(s, 1).value;
            && Decode(s, 1, end).Some?
            && ParseString(s) == Accept(CString(Decode(s, 1, end).value), s[end + 1..])
  {
    hide ClosingQuote;
    hide Decode;
    hide CString;
  }

  lemma Between(s: Text, end: nat)
    requires 1 <= end < |s| && s[0] == QUOTE && s[end] == QUOTE
    ensures s == [QUOTE] + s[1..end] + [QUOTE] + s[end + 1..]
    ensures s[1..end + 1] == s[1..end] + [QUOTE]
  {
  }

  lemma LiteralOf(l: Literal)
    ensures LiteralText(l) == [QUOTE] + l.body + [QUOTE] && LiteralValue(l) == CString(BytesOf(l.pieces))
    ensures WellSpelled(l) <==>
              && Paired(l.body) && AllMean(l.pieces)
              && (SpellAll(l.pieces) == l.body || (EndsOnQuote(l.pieces) && SpellAll(l.pieces) == l.body + [QUOTE]))
  {
  }

  // ---------- Each kind of escape by itself ----------

  /** The byte is the digit `d` of the alphabet, in either case. */
  predicate HexSpells(b: byte, d: nat) {
    d < 16 && (b == "0123456789abcdef"[d] as int || b == "0123456789ABCDEF"[d] as int)
  }

  predicate Hex4Spells(h: Text, n: nat) {
    && |h| == 4 && n < 0x10000
    && HexSpells(h[0], n / 4096) && HexSpells(h[1], n / 256 % 16)
    && HexSpells(h[2], n / 16 % 16) && HexSpells(h[3], n % 16)
  }

  lemma Hex4SpellsValue(h: Text, n: nat)
    requires Hex4Spells(h, n)
    ensures Hex4(h, 0) == n && |h| == 4 && forall i :: 0 <= i < 4 ==> h[i] != '"' as int && h[i] != '\\' as int
  {
    hide HexValue;
    hide Hex4;
    hide HexSpells;
    HexSpelled(h[0], n / 4096);
    HexSpelled(h[1], n / 256 % 16);
    HexSpelled(h[2], n / 16 % 16);
    HexSpelled(h[3], n % 16);
    Hex4Exactly(h);
    FourDigits(n);
  }

  lemma HexSpelled(b: byte, d: nat)
    requires HexSpells(b, d)
    ensures HexValue(b) == Some(d) && b != '"' as int && b != '\\' as int
  {
    HexValueExactly(b, d);
  }

  lemma FourDigits(n: nat)
    requires n < 0x10000
    ensures n == 4096 * (n / 4096) + 256 * (n / 256 % 16) + 16 * (n / 16 % 16) + n % 16
  {
    assert n / 256 == n / 16 / 16 && n / 4096 == n / 256 / 16;
  }

  /** A literal of one unit. */
  lemma UnitReads(u: Unit, bytes: Text, k: Text)
    requires Means(u, bytes) && Paired(Spell(u)) && Terminated(k)
    ensures var s := (['"' as int] + Spell(u) + ['"' as int]) + k;
            Terminated(s) && ParseString(s) == Accept(CString(bytes), k)
  {
    hide Means;
    hide Paired;
    hide Spell;
    hide ParseString;
    hide CString;
    var l := Literal(Spell(u), [Piece(u, bytes)]);
    OnePiece(Piece(u, bytes));
    LiteralReads(l, k);
  }

  lemma OnePiece(p: Piece)
    ensures SpellAll([p]) == Spell(p.unit) && BytesOf([p]) == p.bytes
  {
    assert [p][1..] == [];
    assert p.bytes + [] == p.bytes;
  }

  /** The escape of a letter yields its byte. */
  lemma LetterEscape(letter: byte, b: byte, k: Text)
    requires StandsFor(letter, b) && Terminated(k)
    ensures var s := ['"' as int, '\\' as int, letter, '"' as int] + k;
            Terminated(s) && ParseString(s) == Accept([b], k)
  {
    var u := Pair(letter);
    assert Spell(u)[2..] == [];
    UnitReads(u, [b], k);
    CStringOfNulFree([b]);
    assert ['"' as int] + Spell(u) + ['"' as int] == ['"' as int, '\\' as int, letter, '"' as int];
  }

  /** The escape of a code point of at most four digits, in either case, yields bytes that read back as it. */
  lemma CodeEscape(c: nat, h: Text, k: Text) returns (bytes: Text)
    requires c < 0x10000 && !(0xD800 <= c <= 0xDFFF) && Hex4Spells(h, c) && Terminated(k)
    ensures FromUtf8(bytes) == Some(c)
    ensures var s := (['"' as int] + (['\\' as int, 'u' as int] + h) + ['"' as int]) + k;
            Terminated(s) && ParseString(s) == Accept(CString(bytes), k)
  {
    hide Hex4;
    hide Utf8;
    hide FromUtf8;
    hide CString;
    hide ParseString;
    Hex4SpellsValue(h, c);
    Utf8Reads(c);
    bytes := Utf8(c);
    HexPaired(h, []);
    hide Paired;
    assert h + [] == h;
    UnitReads(Code(h), bytes, k);
  }

  /** The two escapes of any other code point do. */
  lemma PairEscape(c: nat, high: Text, low: Text, k: Text) returns (bytes: Text)
    requires 0x10000 <= c <= 0x10FFFF && Terminated(k)
    requires Hex4Spells(high, 0xD800 + (c - 0x10000) / 1024) && Hex4Spells(low, 0xDC00 + (c - 0x10000) % 1024)
    ensures FromUtf8(bytes) == Some(c)
    ensures var pair := ['\\' as int, 'u' as int] + high + ['\\' as int, 'u' as int] + low;
            var s := (['"' as int] + pair + ['"' as int]) + k;
            Terminated(s) && ParseString(s) == Accept(CString(bytes), k)
  {
    hide Hex4;
    hide Hex4Spells;
    hide Utf8;
    hide FromUtf8;
    hide CString;
    hide ParseString;
    hide Paired;
    Hex4SpellsValue(high, 0xD800 + (c - 0x10000) / 1024);
    Hex4SpellsValue(low, 0xDC00 + (c - 0x10000) % 1024);
    Utf8Reads(c);
    bytes := Utf8(c);
    var u := Surrogates(high, low);
    PairPaired(high, low);
    UnitReads(u, bytes, k);
  }

  lemma PairPaired(high: Text, low: Text)
    requires |high| == 4 && (forall i :: 0 <= i < 4 ==> high[i] != '"' as int && high[i] != '\\' as int)
    requires |low| == 4 && (forall i :: 0 <= i < 4 ==> low[i] != '"' as int && low[i] != '\\' as int)
    ensures var s := ['\\' as int, 'u' as int] + high + ['\\' as int, 'u' as int] + low;
            Spell(Surrogates(high, low)) == s && Paired(s)
  {
    var tail := ['\\' as int, 'u' as int] + low;
    HexPaired(low, []);
    assert low + [] == low;
    HexPaired(high, tail);
    hide Paired;
    assert ['\\' as int, 'u' as int] + (high + tail) == Spell(Surrogates(high, low));
  }

  /** Digits hide no quote. */
  lemma HexPaired(h: Text, tail: Text)
    requires |h| == 4 && (forall i :: 0 <= i < 4 ==> h[i] != '"' as int && h[i] != '\\' as int) && Paired(tail)
    ensures Paired(['\\' as int, 'u' as int] + (h + tail))
  {
    var s := h + tail;
    assert s[1..][1..][1..][1..] == tail;
    assert Paired(s[1..][1..][1..]);
    assert Paired(s[1..][1..]);
    assert Paired(s[1..]);
    assert (['\\' as int, 'u' as int] + s)[2..] == s;
  }

  /** What the printer writes for a byte: its own escape, a code escape with small digits, or itself. */
  lemma EscapeExactly(b: byte, letter: byte)
    ensures StandsFor(letter, b) && letter != '/' as int ==> EscapeByte(b) == ['\\' as int, letter]
    ensures b < 32 && b !in {8, 9, 10, 12, 13} ==>
              var digits := "0123456789abcdef";
              EscapeByte(b)
              == ['\\' as int, 'u' as int, '0' as int, '0' as int, digits[b / 16] as int, digits[b % 16] as int]
    ensures b >= 32 && b != '"' as int && b != '\\' as int ==> EscapeByte(b) == [b]
  {
  }

  // ---------- Numerals ----------

  /** A digit stands for its place in the alphabet. */
  lemma DigitExactly(b: byte, d: nat)
    ensures IsDigit(b) && DigitsValue([b]) == d <==> d < 10 && b == "0123456789"[d] as int
  {
    if IsDigit(b) {
      LastDigit([b]);
    }
  }

  datatype Power = NoPower | Power(mark: byte, sign: Text, digits: Text)

  datatype Numeral = Numeral(minus: bool, whole: Text, point: bool, fraction: Text, power: Power)

  predicate AllDigits(d: Text) {
    forall i :: 0 <= i < |d| ==> IsDigit(d[i])
  }

  predicate WellPower(p: Power) {
    p.Power? ==>
      && (p.mark == 'e' as int || p.mark == 'E' as int)
      && (p.sign == [] || p.sign == ['+' as int] || p.sign == ['-' as int])
      && p.digits != [] && AllDigits(p.digits)
  }

  /** A minus sign or a digit comes first; there is at least one digit in front of a power; at most 63 bytes. */
  predicate WellFormed(n: Numeral) {
    && AllDigits(n.whole) && AllDigits(n.fraction) && WellPower(n.power)
    && (n.whole != [] || (n.minus && n.fraction != [])) && (n.point || n.fraction == [])
    && |NumeralText(n)| <= 63
  }

  function PowerText(p: Power): Text {
    match p
    case NoPower => []
    case Power(mark, sign, digits) => [mark] + sign + digits
  }

  function NumeralText(n: Numeral): Text {
    Minus(n) + (n.whole + (Point(n) + (n.fraction + PowerText(n.power))))
  }

  function Minus(n: Numeral): Text {
    if n.minus then ['-' as int] else []
  }

  function Point(n: Numeral): Text {
    if n.point then ['.' as int] else []
  }

  function Raised(p: Power): int
    requires WellPower(p)
  {
    match p
    case NoPower => 0
    case Power(_, sign, digits) =>
      var value: int := DigitsValue(digits);
      if sign == ['-' as int] then -value else value
  }

  /**
    All digits read as one number, moved by the places behind the point and by the
    power of ten. Both sides are multiplied so that no division is left.
   */
  predicate NumeralMeans(n: Numeral, r: real)
    requires WellFormed(n)
  {
    var digits, e := DigitsValue(n.whole + n.fraction) as real, Raised(n.power);
    r * Ten(|n.fraction|) * Ten(Down(e)) == (if n.minus then -digits else digits) * Ten(Up(e))
  }

  function Up(e: int): nat {
    if e > 0 then e else 0
  }

  function Down(e: int): nat {
    if e < 0 then -e else 0
  }

  function Ten(n: nat): (r: real)
    ensures r >= 1.0 && (n == 0 ==> r == 1.0)
  {
    if n == 0 then 1.0 else 10.0 * Ten(n - 1)
  }

  lemma {:induction false} ScaleUp(r: real, n: int)
    requires n >= 0
    ensures Scale(r, n) == r * Ten(n)
    decreases n
  {
    if n > 0 {
      ScaleUp(r * 10.0, n - 1);
    }
  }

  lemma {:induction false} ScaleDown(r: real, n: int)
    requires n >= 0
    ensures Scale(r, -n) * Ten(n) == r
    decreases n
  {
    if n > 0 {
      ScaleDown(r / 10.0, n - 1);
      var x := Scale(r, -n);
      assert x == Scale(r / 10.0, -(n - 1));
      assert x * (10.0 * Ten(n - 1)) == 10.0 * (x * Ten(n - 1));
    }
  }

  lemma {:induction false} DigitsBehind(a: Text, b: Text)
    requires AllDigits(a) && AllDigits(b)
    ensures AllDigits(a + b) && DigitsValue(a + b) as real == DigitsValue(a) as real * Ten(|b|) + DigitsValue(b) as real
    decreases |b|
  {
    hide DigitsValue;
    hide Ten;
    if b == [] {
      assert a + b == a;
      NoDigits();
    } else {
      var front := b[..|b| - 1];
      assert (a + b)[..|a + b| - 1] == a + front && (a + b)[|a + b| - 1] == b[|b| - 1];
      DigitsBehind(a, front);
      LastDigit(a + b);
      LastDigit(b);
      TenStep(|b|);
      TenTimes(DigitsValue(a) as real, Ten(|front|));
    }
  }

  lemma LastDigit(d: Text)
    requires d != [] && AllDigits(d)
    ensures DigitsValue(d) as real == 10.0 * DigitsValue(d[..|d| - 1]) as real + (d[|d| - 1] as int - 48) as real
  {
  }

  lemma TenStep(n: nat)
    ensures n > 0 ==> Ten(n) == 10.0 * Ten(n - 1)
  {
  }

  lemma TenTimes(x: real, p: real)
    ensures x * (10.0 * p) == 10.0 * (x * p)
  {
  }

  /** What strtod computes of the parts: the digits in front of the power, and then the power. */
  function Mantissa(n: Numeral): real
    requires WellFormed(n)
  {
    var m := DigitsValue(n.whole) as real + Scale(DigitsValue(n.fraction) as real, -|n.fraction|);
    if n.minus then -m else m
  }

  function ValueOf(n: Numeral): real
    requires WellFormed(n)
  {
    Scale(Mantissa(n), Raised(n.power))
  }

  /** All digits as one number, with the sign. */
  function SignedDigits(n: Numeral): real
    requires WellFormed(n)
  {
    DigitsTogether(n);
    var digits := DigitsValue(n.whole + n.fraction) as real;
    if n.minus then -digits else digits
  }

  lemma DigitsTogether(n: Numeral)
    requires WellFormed(n)
    ensures AllDigits(n.whole + n.fraction)
  {
  }

  lemma MantissaMeans(n: Numeral)
    requires WellFormed(n)
    ensures Mantissa(n) * Ten(|n.fraction|) == SignedDigits(n)
  {
    hide DigitsValue;
    hide Scale;
    hide Ten;
    var f, w, d := |n.fraction|, DigitsValue(n.whole) as real, DigitsValue(n.fraction) as real;
    DigitsBehind(n.whole, n.fraction);
    ScaleDown(d, f);
    Distribute(w, Scale(d, -f), Ten(f));
  }

  lemma ValueMeans(n: Numeral)
    requires WellFormed(n)
    ensures NumeralMeans(n, ValueOf(n))
  {
    hide *;
    PowerFormed(n);
    var e, f := Raised(n.power), |n.fraction|;
    MantissaMeans(n);
    ValueStep(n, ValueOf(n));
    if e >= 0 {
      ScaleUp(Mantissa(n), e);
      Exchange(Mantissa(n), Ten(e), Ten(f));
    } else {
      ScaleDown(Mantissa(n), -e);
      Exchange(ValueOf(n), Ten(f), Ten(-e));
    }
  }

  lemma PowerFormed(n: Numeral)
    requires WellFormed(n)
    ensures WellPower(n.power)
  {
  }

  /** The definitions for powers of either sign. */
  lemma ValueStep(n: Numeral, r: real)
    requires WellFormed(n)
    ensures ValueOf(n) == Scale(Mantissa(n), Raised(n.power))
    ensures var e, f := Raised(n.power), |n.fraction|;
            && (e >= 0 ==> (NumeralMeans(n, r) <==> r * Ten(f) == SignedDigits(n) * Ten(e)))
            && (e < 0 ==> (NumeralMeans(n, r) <==> r * Ten(f) * Ten(-e) == SignedDigits(n)))
  {
    hide Mantissa;
    hide DigitsValue;
    hide Ten;
  }

  lemma Distribute(a: real, b: real, c: real)
    ensures (a + b) * c == a * c + b * c && (-(a + b)) * c == -(a * c + b * c)
  {
  }

  lemma Exchange(a: real, b: real, c: real)
    ensures a * b * c == a * c * b
  {
  }

  /** The value is determined. */
  lemma OneMeaning(n: Numeral, r: real)
    requires WellFormed(n) && NumeralMeans(n, r)
    ensures r == ValueOf(n)
  {
    hide *;
    PowerFormed(n);
    ValueMeans(n);
    var v, e, f := ValueOf(n), Raised(n.power), Ten(|n.fraction|);
    ValueStep(n, r);
    ValueStep(n, v);
    if e >= 0 {
      CancelOne(r, v, f);
    } else {
      Cancel(r, v, f, Ten(-e));
    }
  }

  lemma Cancel(x: real, y: real, a: real, b: real)
    requires a >= 1.0 && b >= 1.0 && x * a * b == y * a * b
    ensures x == y
  {
    CancelOne(x * a, y * a, b);
    CancelOne(x, y, a);
  }

  lemma CancelOne(x: real, y: real, a: real)
    requires a >= 1.0 && x * a == y * a
    ensures x == y
  {
    assert (x - y) * a == 0.0;
  }

  /** One unfolding of Exponent. */
  lemma ExponentStep(s: Text, sign: nat)
    requires s != [] && (s[0] == 'e' as int || s[0] == 'E' as int)
    requires sign == if |s| > 1 && (s[1] == '-' as int || s[1] == '+' as int) then 1 else 0
    ensures var n := DigitSpan(s[1 + sign..]);
            && (n == 0 ==> Exponent(s) == (0, 0))
            && (n > 0 ==>
                  var digits := s[1 + sign..1 + sign + n];
                  && AllDigits(digits)
                  && var value: int := DigitsValue(digits);
                     Exponent(s) == (if sign == 1 && s[1] == '-' as int then -value else value, 1 + sign + n))
  {
    var n := DigitSpan(s[1 + sign..]);
    hide DigitSpan;
    hide DigitsValue;
    assert s[1 + sign..1 + sign + n] == s[1 + sign..][..n];
  }

  lemma NoExponent(s: Text)
    ensures s == [] || (s[0] != 'e' as int && s[0] != 'E' as int) ==> Exponent(s) == (0, 0)
  {
  }

  lemma PowerReads(p: Power)
    requires WellPower(p)
    ensures Exponent(PowerText(p)) == (Raised(p), |PowerText(p)|)
    ensures p.Power? ==> PowerText(p) != [] && PowerText(p)[0] == p.mark
  {
    hide Exponent;
    hide DigitSpan;
    hide DigitsValue;
    NoExponent([]);
    if p.Power? {
      var s, d := PowerText(p), p.digits;
      var sign := |p.sign|;
      assert s[1 + sign..] == d && s[1 + sign..1 + sign + |d|] == d;
      assert sign == 1 ==> s[1] == p.sign[0];
      assert sign == 0 ==> s[1] == d[0];
      DigitSpanAll(d, []);
      assert d + [] == d;
      ExponentStep(s, sign);
    }
  }

  lemma PowerFound(s: Text) returns (p: Power)
    ensures WellPower(p) && Exponent(s) == (Raised(p), |PowerText(p)|) && s[..|PowerText(p)|] == PowerText(p)
  {
    hide *;
    p := NoPower;
    NoExponent(s);
    PowerOf(p);
    if s != [] && (s[0] == 'e' as int || s[0] == 'E' as int) {
      var sign := if |s| > 1 && (s[1] == '-' as int || s[1] == '+' as int) then 1 else 0;
      ExponentStep(s, sign);
      var n := DigitSpan(s[1 + sign..]);
      if n > 0 {
        var d := s[1 + sign..1 + sign + n];
        p := Power(s[0], s[1..1 + sign], d);
        PowerSlices(s, sign, n);
        PowerOf(p);
      }
    }
  }

  /** One unfolding of the definitions. */
  lemma PowerOf(p: Power)
    ensures p.NoPower? ==> WellPower(p) && PowerText(p) == [] && Raised(p) == 0
    ensures p.Power? ==> PowerText(p) == [p.mark] + p.sign + p.digits
    ensures p.Power? ==>
              (WellPower(p) <==>
                && (p.mark == 'e' as int || p.mark == 'E' as int)
                && (p.sign == [] || p.sign == ['+' as int] || p.sign == ['-' as int])
                && p.digits != [] && AllDigits(p.digits))
    ensures p.Power? && WellPower(p) ==>
              var value: int := DigitsValue(p.digits);
              Raised(p) == if p.sign == ['-' as int] then -value else value
  {
    hide DigitsValue;
  }

  lemma PowerSlices(s: Text, sign: nat, n: nat)
    requires sign <= 1 && 1 + sign + n <= |s|
    ensures s[..1 + sign + n] == [s[0]] + s[1..1 + sign] + s[1 + sign..1 + sign + n]
    ensures s[1..1 + sign] == if sign == 1 then [s[1]] else []
  {
  }

  lemma {:induction false} AfterDigits(s: Text)
    ensures var n := DigitSpan(s); AllDigits(s[..n]) && (n < |s| ==> !IsDigit(s[n]))
  {
    if s != [] && IsDigit(s[0]) {
      AfterDigits(s[1..]);
    }
  }

  /** A numeral up to its power, and what stands behind it. */
  function Front(n: Numeral, tail: Text): Text {
    Minus(n) + (n.whole + (Point(n) + (n.fraction + tail)))
  }

  predicate FrontFormed(n: Numeral, tail: Text) {
    && AllDigits(n.whole) && AllDigits(n.fraction)
    && (n.whole != [] || (n.minus && n.fraction != [])) && (n.point || n.fraction == [])
    && (tail != [] ==> !IsDigit(tail[0]) && (n.point || tail[0] != '.' as int))
  }

  /** What strtod makes of it. */
  lemma FrontReads(n: Numeral, tail: Text)
    requires FrontFormed(n, tail)
    ensures var mantissa := DigitsValue(n.whole) as real + Scale(DigitsValue(n.fraction) as real, -|n.fraction|);
            StringToDouble(Front(n, tail))
            == Strtod(Scale(if n.minus then -mantissa else mantissa, Exponent(tail).0),
                      |Front(n, tail)| - |tail| + Exponent(tail).1)
  {
    hide DigitsValue;
    hide Scale;
    hide Exponent;
    hide DigitSpan;
    hide StringToDouble;
    hide Front;
    hide Minus;
    hide Point;
    FrontSlices(n, tail);
    FrontBytes(n, tail);
    FrontSpans(n, tail);
    StrtodStep(Front(n, tail), |Minus(n)|, |n.whole|, |Point(n)|, |n.fraction|);
  }

  lemma FrontSlices(n: Numeral, tail: Text)
    ensures var s, i, j := Front(n, tail), |Minus(n)|, |Minus(n)| + |n.whole|;
            var k := j + |Point(n)|;
            && |s| == k + |n.fraction| + |tail|
            && s[i..j] == n.whole && s[k..k + |n.fraction|] == n.fraction && s[k + |n.fraction|..] == tail
  {
    hide Minus;
    hide Point;
    Slices(Minus(n), n.whole, Point(n), n.fraction, tail);
  }

  /** The first byte, and the one behind the whole part. */
  lemma FrontBytes(n: Numeral, tail: Text)
    requires FrontFormed(n, tail)
    ensures var s, end := Front(n, tail), |Minus(n)| + |n.whole|;
            && |s| > 0 && |Minus(n)| == (if s[0] == 45 || s[0] == 43 then 1 else 0) && (n.minus <==> s[0] == 45)
            && |Point(n)| == (if end < |s| && s[end] == 46 then 1 else 0) && (|Point(n)| == 0 ==> n.fraction == [])
  {
    var s, behind := Front(n, tail), Point(n) + (n.fraction + tail);
    assert s[|Minus(n)|..] == n.whole + behind;
    assert !n.minus ==> s[0] == n.whole[0] && IsDigit(n.whole[0]);
    assert behind != [] ==> s[|Minus(n)| + |n.whole|] == behind[0];
    assert !n.point ==> n.fraction + tail == tail;
  }

  lemma FrontSpans(n: Numeral, tail: Text)
    requires FrontFormed(n, tail)
    ensures var s, end := Front(n, tail), |Minus(n)| + |n.whole|;
            && |s| >= end + |Point(n)| && DigitSpan(s[|Minus(n)|..]) == |n.whole|
            && DigitSpan(s[end + |Point(n)|..]) == |n.fraction|
  {
    hide DigitSpan;
    var s, behind := Front(n, tail), Point(n) + (n.fraction + tail);
    assert s[|Minus(n)|..] == n.whole + behind;
    DigitSpanAll(n.whole, behind);
    assert s[|Minus(n)| + |n.whole| + |Point(n)|..] == n.fraction + tail;
    DigitSpanAll(n.fraction, tail);
  }

  lemma Slices(a: Text, b: Text, c: Text, d: Text, e: Text)
    ensures var s, i := a + (b + (c + (d + e))), |a|;
            var j := i + |b|;
            var k := j + |c|;
            && |s| == k + |d| + |e| && s[..i] == a && s[i..j] == b && s[j..k] == c
            && s[k..k + |d|] == d && s[k + |d|..] == e
  {
  }

  /** One unfolding of strtod. */
  lemma StrtodStep(s: Text, sign: nat, w: nat, dot: nat, f: int)
    requires f >= 0 && sign + w + dot + f <= |s| && s != [] && w + f > 0
    requires sign == (if s[0] == 45 || s[0] == 43 then 1 else 0)
    requires dot == (if sign + w < |s| && s[sign + w] == 46 then 1 else 0) && (dot == 0 ==> f == 0)
    requires DigitSpan(s[sign..]) == w && DigitSpan(s[sign + w + dot..]) == f
    requires AllDigits(s[sign..sign + w]) && AllDigits(s[sign + w + dot..sign + w + dot + f])
    ensures var end := sign + w + dot + f;
            var mantissa :=
              DigitsValue(s[sign..sign + w]) as real + Scale(DigitsValue(s[sign + w + dot..end]) as real, -f);
            var exponent := Exponent(s[end..]);
            StringToDouble(s)
            == Strtod(Scale(if sign == 1 && s[0] == 45 then -mantissa else mantissa, exponent.0), end + exponent.1)
  {
    hide DigitsValue;
    hide Scale;
    hide Exponent;
    hide DigitSpan;
  }

  /** Every numeral is read, with its value, when no byte of a number follows. */
  lemma NumeralReads(n: Numeral, r: real, k: Text)
    requires WellFormed(n) && NumeralMeans(n, r) && Follow(k)
    ensures Terminated(NumeralText(n) + k) && ParseNumber(NumeralText(n) + k) == Accept(Number(r), k)
  {
    hide *;
    var w := NumeralText(n);
    NumeralParts(n);
    PowerReads(n.power);
    FrontReads(n, PowerText(n.power));
    OneMeaning(n, r);
    FollowStep(k);
    NumberSpanAll(w, k, 63);
    Behind(w, k);
    NumberStep(w + k, w);
    assert (w + k)[|w|..] == k;
  }

  lemma NumeralParts(n: Numeral)
    requires WellFormed(n)
    ensures NumeralText(n) == Front(n, PowerText(n.power)) && FrontFormed(n, PowerText(n.power)) && WellPower(n.power)
    ensures 0 < |NumeralText(n)| <= 63
    ensures forall i :: 0 <= i < |NumeralText(n)| ==> NumberByte(NumeralText(n)[i])
    ensures var mantissa := DigitsValue(n.whole) as real + Scale(DigitsValue(n.fraction) as real, -|n.fraction|);
            ValueOf(n) == Scale(if n.minus then -mantissa else mantissa, Raised(n.power))
  {
    hide DigitsValue;
    hide Scale;
  }

  lemma NumberStep(s: Text, w: Text)
    requires Terminated(s) && w <= s && NumberSpan(s, 63) == |w|
    ensures var number := StringToDouble(w);
            ParseNumber(s) == if number.length == 0 then Reject else Accept(Number(number.value), s[number.length..])
  {
    hide StringToDouble;
    hide NumberSpan;
    assert s[..|w|] == w;
  }

  lemma FollowStep(k: Text)
    ensures Follow(k) <==> Terminated(k) && k != [] && !NumberByte(k[0])
  {
  }

  /** Only numerals are. */
  lemma NumeralFound(s: Text) returns (n: Numeral)
    requires Terminated(s) && (s[0] == '-' as int || IsDigit(s[0])) && ParseNumber(s).Accept?
    ensures WellFormed(n) && s == NumeralText(n) + ParseNumber(s).rest
    ensures ParseNumber(s).value.Number? && NumeralMeans(n, ParseNumber(s).value.value)
  {
    hide *;
    var w := NumberText(s);
    NumberTextStep(s);
    NumberStep(s, w);
    var front, tail := FrontFound(w);
    FrontReads(front, tail);
    var p := PowerFound(tail);
    n := front.(power := p);
    PowerBehind(front, tail, p);
    NumeralParts(n);
    ValueMeans(n);
    assert s == w[..|NumeralText(n)|] + s[|NumeralText(n)|..];
  }

  lemma NumberTextStep(s: Text)
    requires Terminated(s) && (s[0] == '-' as int || IsDigit(s[0]))
    ensures var w := NumberText(s);
            w <= s && NumberSpan(s, 63) == |w| && 0 < |w| <= 63 && (w[0] == '-' as int || IsDigit(w[0]))
  {
  }

  /** The text of a number, taken apart in front of its power. */
  lemma FrontFound(w: Text) returns (n: Numeral, tail: Text)
    requires w != [] && (w[0] == '-' as int || IsDigit(w[0])) && StringToDouble(w).length > 0
    ensures n.power == NoPower && FrontFormed(n, tail) && w == Front(n, tail)
  {
    hide *;
    var sign, end, start, stop := Ends(w);
    n, tail := Numeral(sign == 1, w[sign..end], start > end, w[start..stop], NoPower), w[stop..];
    TakenApart(w, sign, end, start, stop);
    FrontStep(n, tail);
  }

  /** Where the sign, the whole part, the point and the fraction end. */
  lemma Ends(w: Text) returns (sign: nat, end: nat, start: nat, stop: nat)
    requires w != [] && (w[0] == '-' as int || IsDigit(w[0])) && StringToDouble(w).length > 0
    ensures sign <= 1 && sign <= end <= start <= end + 1 && start <= stop <= |w|
    ensures AllDigits(w[sign..end]) && AllDigits(w[start..stop])
    ensures w[..sign] == (if sign == 1 then ['-' as int] else [])
    ensures w[end..start] == (if start > end then ['.' as int] else [])
    ensures sign < end || (sign == 1 && start < stop)
    ensures start > end || start == stop
    ensures stop < |w| ==> !IsDigit(w[stop]) && (start > end || w[stop] != '.' as int)
  {
    hide StringToDouble;
    hide DigitSpan;
    hide AllDigits;
    sign := if w[0] == '-' as int then 1 else 0;
    var wide := SpanFrom(w, sign);
    end := sign + wide;
    start := if end < |w| && w[end] == '.' as int then end + 1 else end;
    NothingTaken();
    assert w[start..start] == [];
    stop := start;
    if start > end {
      var behind := SpanFrom(w, start);
      stop := start + behind;
    }
    HasDigits(w, sign, end, start, stop);
  }

  lemma NothingTaken()
    ensures AllDigits([])
  {
  }

  lemma SpanFrom(w: Text, i: nat) returns (n: nat)
    requires i <= |w|
    ensures n == DigitSpan(w[i..]) && i + n <= |w| && AllDigits(w[i..i + n]) && (i + n < |w| ==> !IsDigit(w[i + n]))
  {
    n := DigitSpan(w[i..]);
    AfterDigits(w[i..]);
    assert w[i..i + n] == w[i..][..n];
  }

  lemma TakenApart(w: Text, a: nat, b: nat, c: nat, d: nat)
    requires a <= b <= c <= d <= |w|
    ensures w == w[..a] + (w[a..b] + (w[b..c] + (w[c..d] + w[d..])))
  {
  }

  lemma FrontStep(n: Numeral, tail: Text)
    ensures Front(n, tail) == Minus(n) + (n.whole + (Point(n) + (n.fraction + tail)))
    ensures Minus(n) == (if n.minus then ['-' as int] else []) && Point(n) == if n.point then ['.' as int] else []
    ensures FrontFormed(n, tail) <==>
              && AllDigits(n.whole) && AllDigits(n.fraction)
              && (n.whole != [] || (n.minus && n.fraction != [])) && (n.point || n.fraction == [])
              && (tail != [] ==> !IsDigit(tail[0]) && (n.point || tail[0] != '.' as int))
  {
  }

  /** strtod takes nothing without a digit. */
  lemma HasDigits(w: Text, sign: nat, end: nat, start: nat, stop: nat)
    requires w != [] && (w[0] == 45 || IsDigit(w[0])) && StringToDouble(w).length > 0
    requires sign == (if w[0] == 45 then 1 else 0) && end == sign + DigitSpan(w[sign..])
    requires start == (if end < |w| && w[end] == 46 then end + 1 else end)
    requires stop == if start > end then start + DigitSpan(w[start..]) else start
    ensures sign < end || start < stop
    ensures sign == 0 ==> sign < end
  {
    hide DigitsValue;
    hide Scale;
    hide Exponent;
    DigitFirst(w);
    hide DigitSpan;
    assert w[0..] == w;
  }

  lemma DigitFirst(w: Text)
    requires w != []
    ensures IsDigit(w[0]) ==> DigitSpan(w) > 0
  {
  }

  lemma PowerBehind(front: Numeral, tail: Text, p: Power)
    requires FrontFormed(front, tail) && |Front(front, tail)| <= 63
    requires WellPower(p) && PowerText(p) <= tail
    ensures var n := front.(power := p);
            && WellFormed(n) && NumeralText(n) <= Front(front, tail)
            && |NumeralText(n)| == |Front(front, tail)| - |tail| + |PowerText(p)|
  {
    var n, text := front.(power := p), PowerText(p);
    hide PowerText;
    hide WellPower;
    hide AllDigits;
    var rest := tail[|text|..];
    assert tail == text + rest;
    Fold(Minus(n), n.whole, Point(n), n.fraction, text, rest);
  }

  lemma Fold(a: Text, b: Text, c: Text, d: Text, e: Text, f: Text)
    ensures a + (b + (c + (d + (e + f)))) == (a + (b + (c + (d + e)))) + f
  {
    Assoc(d, e, f);
    Assoc(c, d + e, f);
    Assoc(b, c + (d + e), f);
    Assoc(a, b + (c + (d + e)), f);
  }
}
