/**
  The recursive-descent parser of cjson.c over a parse_buffer, proved to compute
  the functions of JsonGrammar.
 */
module JsonReader {
  import opened Bytes
  import opened JsonTree
  import opened G = JsonGrammar
  import Tokens = JsonTokens
  import Syntax = JsonSyntax

  // ---- how much room the string decoder needs ----

  /**
    Number of units (a byte, or a backslash and the byte behind it) that the
    scanning pass, started at `i`, has completed by position `p`.
   */
  function Completed(s: Text, i: nat, p: nat): (n: nat)
    requires p <= |s|
    decreases p - i
  {
    if i >= p then 0
    else if s[i] != BACKSLASH then 1 + Completed(s, i + 1, p)
    else if i + 2 <= p then 1 + Completed(s, i + 2, p)
    else 0
  }

  lemma {:induction false} CompletedByte(s: Text, i: nat, p: nat)
    requires i <= p < |s|
    ensures Completed(s, i, p) <= Completed(s, i, p + 1)
    ensures s[p] != BACKSLASH ==> Completed(s, i, p + 1) == Completed(s, i, p) + 1
    decreases p - i
  {
    if i < p {
      if s[i] != BACKSLASH {
        CompletedByte(s, i + 1, p);
      } else if i + 2 <= p {
        CompletedByte(s, i + 2, p);
      }
    }
  }

  /** Out of step or not, any two bytes complete at least one unit. */
  lemma {:induction false} CompletedPair(s: Text, i: nat, p: nat)
    requires i <= p && p + 2 <= |s|
    ensures Completed(s, i, p + 2) >= Completed(s, i, p) + 1
    decreases p - i
  {
    if i < p {
      if s[i] != BACKSLASH {
        CompletedPair(s, i + 1, p);
      } else if i + 2 <= p {
        CompletedPair(s, i + 2, p);
      }
    }
  }

  lemma {:induction false} CompletedPairs(s: Text, i: nat, p: nat, pairs: nat)
    requires i <= p && p + 2 * pairs <= |s|
    ensures Completed(s, i, p + 2 * pairs) >= Completed(s, i, p) + pairs
  {
    if pairs > 0 {
      CompletedPairs(s, i, p, pairs - 1);
      CompletedPair(s, i, p + 2 * (pairs - 1));
    }
  }

  lemma {:induction false} CompletedMonotone(s: Text, i: nat, p: nat, q: nat)
    requires i <= p <= q <= |s|
    ensures Completed(s, i, p) <= Completed(s, i, q)
    decreases q - p
  {
    if p < q {
      CompletedByte(s, i, p);
      CompletedMonotone(s, i, p + 1, q);
    }
  }

  /** The closing quote is found at the end of a unit, so the last byte completes one. */
  lemma {:induction false} CompletedLast(s: Text, i: nat, end: nat)
    requires ClosingQuote(s, i) == Some(end) && i < end
    ensures Completed(s, i, end) >= Completed(s, i, end - 1) + 1
    decreases end - i
  {
    var next := if s[i] == BACKSLASH then i + 2 else i + 1;
    if next < end {
      CompletedLast(s, next, end);
    }
  }

  /** Completed advances by one over a unit that starts where the scan stands. */
  lemma {:induction false} CompletedUnit(s: Text, i: nat, p: nat, q: nat)
    requires i <= p < |s| && q <= |s| && OnUnit(s, i, p)
    requires q == (if s[p] == BACKSLASH then p + 2 else p + 1)
    ensures Completed(s, i, q) == Completed(s, i, p) + 1 && OnUnit(s, i, q)
    decreases p - i
  {
    if i < p {
      CompletedUnit(s, if s[i] == BACKSLASH then i + 2 else i + 1, p, q);
    }
  }

  /** The scan that starts at `i` stops at `p` between two units. */
  predicate OnUnit(s: Text, i: nat, p: nat)
    requires p <= |s|
    decreases p - i
  {
    i == p || (i < p && OnUnit(s, if s[i] == BACKSLASH then i + 2 else i + 1, p))
  }

  // ---- the parser ----

  class ParseBuffer {
    const content: Text
    var offset: nat
    var depth: nat

    constructor (content: Text)
      requires Terminated(content)
      ensures Valid() && this.content == content && offset == 0 && depth == 0
    {
      this.content := content;
      this.offset := 0;
      this.depth := 0;
    }

    ghost predicate Valid()
      reads this
    {
      Terminated(content) && offset < |content|
    }

    /** The unread input. */
    ghost function Rest(): (s: Text)
      requires Valid()
      reads this
      ensures Terminated(s)
    {
      content[offset..]
    }

    /** Moves to the first byte above 32, or to the last byte if there is none. */
    method SkipWhitespace()
      requires Valid()
      modifies this`offset
      ensures Valid() && Rest() == SkipSpace(old(Rest()))
    {
      while offset < |content| && content[offset] <= 32
        invariant offset <= |content|
        invariant offset < |content| ==> SkipSpace(content[offset..]) == SkipSpace(old(Rest()))
        invariant offset == |content| ==> SkipSpace(old(Rest())) == content[offset - 1..]
      {
        assert content[offset..][1..] == content[offset + 1..];
        offset := offset + 1;
      }
      if offset == |content| {
        offset := offset - 1;
      }
    }

    /** Moves over bytes that are known not to reach the terminator. */
    method Step(n: nat)
      requires offset + n < |content| && Terminated(content)
      modifies this`offset
      ensures Valid() && offset == old(offset) + n && Rest() == content[old(offset)..][n..]
    {
      offset := offset + n;
    }

    /** The longest number at the offset, among its first 63 number bytes. */
    method ParseNumber() returns (ok: bool, item: Json)
      requires Valid()
      modifies this`offset
      ensures ok <==> G.ParseNumber(old(Rest())).Accept?
      ensures ok ==> Valid() && G.ParseNumber(old(Rest())) == Accept(item, Rest())
    {
      item := Null;
      var numberCString := new byte[64];
      var length := CopyNumber(numberCString);
      NumberTextEndsEarly(Rest(), 63);
      var number := StringToDouble(numberCString[..length]);
      if number.length == 0 {
        return false, item;
      }
      item := Number(number.value);
      Step(number.length);
      ok := true;
    }

    /** Copies the bytes a number can consist of into the 64-byte scratch buffer. */
    method CopyNumber(numberCString: array<byte>) returns (i: nat)
      requires Valid() && numberCString.Length == 64
      modifies numberCString
      ensures i < 64 && numberCString[..i] == NumberText(Rest()) && numberCString[i] == 0
    {
      hide NumberSpan;
      i := 0;
      ghost var s := Rest();
      while i < 63 && offset + i < |content| && NumberByte(content[offset + i])
        invariant i <= 63 && offset + i <= |content|
        invariant numberCString[..i] == s[..i]
        invariant NumberSpan(s, 63) == i + NumberSpan(s[i..], 63 - i)
      {
        NumberStep(s, i);
        numberCString[i] := content[offset + i];
        assert numberCString[..i + 1] == numberCString[..i] + [s[i]];
        i := i + 1;
      }
      NumberStop(s, i);
      numberCString[i] := 0;
    }

    static lemma NumberStep(s: Text, i: nat)
      requires i < 63 && i < |s| && NumberByte(s[i])
      ensures NumberSpan(s[i..], 63 - i) == 1 + NumberSpan(s[i + 1..], 62 - i)
      ensures s[..i + 1] == s[..i] + [s[i]]
    {
      assert s[i..][1..] == s[i + 1..];
    }

    static lemma NumberStop(s: Text, i: nat)
      requires i <= 63 && i <= |s| && (i == 63 || i == |s| || !NumberByte(s[i]))
      ensures NumberSpan(s[i..], 63 - i) == 0
    {
    }

    /** Four hexadecimal digits as a value; zero also stands for a digit that is none. */
    static method ParseHex4(s: Text, at: nat) returns (h: nat)
      requires at + 4 <= |s|
      ensures h == Hex4(s, at)
    {
      h := 0;
      for i := 0 to 4
        invariant HexDigits(s, at, i).Some?
        invariant h == (if i < 4 then 16 else 1) * HexDigits(s, at, i).value
      {
        var b := s[at + i];
        if 48 <= b <= 57 {
          h := h + (b - 48);
        } else if 65 <= b <= 70 {
          h := h + (b - 55);
        } else if 97 <= b <= 102 {
          h := h + (b - 87);
        } else {
          BadHexDigit(s, at, i, 4);
          return 0;
        }
        if i < 3 {
          h := h * 16;
        }
      }
    }

    static lemma {:induction false} BadHexDigit(s: Text, at: nat, i: nat, n: nat)
      requires at + n <= |s| && i < n && HexValue(s[at + i]).None?
      ensures HexDigits(s, at, n).None?
    {
      if i < n - 1 {
        BadHexDigit(s, at, i, n - 1);
      }
    }

    /** The encoding loop of utf16_literal_to_utf8: continuation bytes from the back, then the first byte. */
    static method EncodeUtf8(codepoint: nat, output: array<byte>, at: nat) returns (length: nat)
      requires codepoint <= 0x10FFFF && at + |Utf8(codepoint)| <= output.Length
      modifies output
      ensures length == |Utf8(codepoint)|
      ensures output[..at + length] == old(output[..at]) + Utf8(codepoint)
    {
      hide Utf8;
      hide Shifted;
      var mark;
      length, mark := Utf8Length(codepoint);
      ghost var utf8 := Utf8(codepoint);
      var position, rest := length - 1, codepoint;
      while position > 0
        invariant 0 <= position < length == |utf8|
        invariant rest == Shifted(codepoint, length - 1 - position)
        invariant output[..at] == old(output[..at])
        invariant output[at + position + 1..at + length] == utf8[position + 1..]
      {
        Utf8Continuation(codepoint, position);
        output[at + position] := 0x80 + rest % 64;
        assert output[at + position..at + length] == [utf8[position]] + output[at + position + 1..at + length];
        assert utf8[position..] == [utf8[position]] + utf8[position + 1..];
        rest := rest / 64;
        position := position - 1;
      }
      output[at] := mark + rest;
      assert output[at..at + length] == utf8;
    }

    /** How many bytes the encoding takes, and the mark of the first one. */
    static method Utf8Length(codepoint: nat) returns (length: nat, mark: nat)
      requires codepoint <= 0x10FFFF
      ensures length == |Utf8(codepoint)| && Utf8(codepoint)[0] == mark + Shifted(codepoint, length - 1)
      ensures Shifted(codepoint, 0) == codepoint
    {
      if codepoint < 0x80 {
        return 1, 0;
      } else if codepoint < 0x800 {
        return 2, 0xC0;
      } else if codepoint < 0x10000 {
        return 3, 0xE0;
      }
      return 4, 0xF0;
    }

    /** A code point shifted right by `n` groups of six bits. */
    static function Shifted(c: nat, n: nat): nat
    {
      match n
      case 0 => c
      case 1 => c / 64
      case 2 => c / 4096
      case _ => c / 262144
    }

    static lemma Utf8Continuation(c: nat, position: nat)
      requires c <= 0x10FFFF && 0 < position < |Utf8(c)|
      ensures var n := |Utf8(c)| - 1 - position;
              Utf8(c)[position] == 0x80 + Shifted(c, n) % 64 && Shifted(c, n) / 64 == Shifted(c, n + 1)
    {
    }

    /** The first half of utf16_literal_to_utf8: the code point, and 0 for a malformed literal. */
    static method ReadCodepoint(s: Text, p: nat, end: nat) returns (sequenceLength: nat, codepoint: nat)
      requires p <= end <= |s|
      ensures UnicodeEscape(s, p, end)
              == if sequenceLength == 0 then Malformed else Unicode(codepoint, sequenceLength)
    {
      if end - p < 6 {
        return 0, 0;
      }
      var firstCode := ParseHex4(s, p + 2);
      if 0xDC00 <= firstCode <= 0xDFFF {
        return 0, 0;
      }
      if 0xD800 <= firstCode <= 0xDBFF {
        if end - (p + 6) < 6 {
          return 0, 0;
        }
        if s[p + 6] != BACKSLASH || s[p + 7] != 117 {
          return 0, 0;
        }
        var secondCode := ParseHex4(s, p + 8);
        if secondCode < 0xDC00 || secondCode > 0xDFFF {
          return 0, 0;
        }
        LowTenBits(firstCode, 0xD800);
        LowTenBits(secondCode, 0xDC00);
        return 12, 0x10000 + firstCode % 1024 * 1024 + secondCode % 1024;
      }
      return 6, firstCode;
    }

    static lemma LowTenBits(code: nat, base: nat)
      requires base % 1024 == 0 && base <= code < base + 1024
      ensures code % 1024 == code - base
    {
    }

    /**
      One escape, or two that form a surrogate pair, written out as UTF-8. Returns how
      many bytes were read, zero when the escape is rejected, and how many were written.
     */
    static method Utf16LiteralToUtf8(s: Text, p: nat, end: nat, output: array<byte>, out: nat)
      returns (sequenceLength: nat, written: nat)
      requires p <= end <= |s|
      requires var u := UnicodeEscape(s, p, end);
               u.Unicode? ==> out + |Utf8(u.codepoint)| <= output.Length
      modifies output
      ensures sequenceLength == 0 <==> UnicodeEscape(s, p, end).Malformed?
      ensures var u := UnicodeEscape(s, p, end);
              u.Unicode? ==> sequenceLength == u.length && written == |Utf8(u.codepoint)|
                             && output[..out + written] == old(output[..out]) + Utf8(u.codepoint)
                             && Tokens.FromUtf8(output[out..out + written]) == Some(u.codepoint)
    {
      hide Utf8;
      hide Tokens.FromUtf8;
      var codepoint;
      sequenceLength, codepoint := ReadCodepoint(s, p, end);
      written := 0;
      if sequenceLength != 0 {
        written := EncodeUtf8(codepoint, output, out);
        assert output[out..out + written] == output[..out + written][out..];
        Tokens.Utf8Reads(codepoint);
      }
    }

    /** The scanning pass of parse_string: the closing quote and the number of skipped bytes. */
    static method ScanString(s: Text) returns (ok: bool, end: nat, skipped: nat)
      requires Terminated(s) && s[0] == QUOTE
      ensures ok <==> ClosingQuote(s, 1).Some?
      ensures ok ==> ClosingQuote(s, 1) == Some(end) && skipped <= end
                     && end - skipped == 1 + Completed(s, 1, end)
    {
      end, skipped := 1, 0;
      while end < |s| && s[end] != QUOTE
        invariant 1 <= end <= |s| && OnUnit(s, 1, end) && skipped <= end
        invariant ClosingQuote(s, 1) == ClosingQuote(s, end)
        invariant end - skipped == 1 + Completed(s, 1, end)
      {
        ghost var unit := end;
        if s[end] == BACKSLASH {
          if end + 1 >= |s| {
            return false, end, skipped;
          }
          skipped := skipped + 1;
          end := end + 1;
        }
        end := end + 1;
        CompletedUnit(s, 1, unit, end);
      }
      ok := end < |s|;
    }

    /** The string literal at the offset with its escapes undone; the offset ends behind the closing quote. */
    method ParseString() returns (ok: bool, value: Text)
      requires Valid()
      modifies this`offset
      ensures ok <==> G.ParseString(old(Rest())).Accept?
      ensures ok ==> Valid() && G.ParseString(old(Rest())) == Accept(value, Rest())
    {
      value := [];
      if content[offset] != QUOTE {
        return false, value;
      }
      var s := content[offset..];
      var found, end, skipped := ScanString(s);
      if !found {
        return false, value;
      }
      var allocationLength := end - skipped;
      var output := new byte[allocationLength + 1];
      var length;
      ok, length := DecodeString(s, end, output);
      if ok {
        output[length] := 0;
        value := CString(output[..length]);
        Step(end + 1);
      }
    }

    /**
      The decoding pass.  It can fall out of step with the scanning pass, but
      the bytes it writes, with the terminator, never outgrow the allocation.
     */
    static method DecodeString(s: Text, end: nat, output: array<byte>) returns (ok: bool, out: nat)
      requires Terminated(s) && s[0] == QUOTE && ClosingQuote(s, 1) == Some(end)
      requires output.Length == Completed(s, 1, end) + 2
      modifies output
      ensures ok <==> Decode(s, 1, end).Some?
      ensures ok ==> out + 1 < output.Length && Decode(s, 1, end) == Some(output[..out])
    {
      out := 0;
      var p := 1;
      PrependNothing(Decode(s, 1, end));
      while p < end
        invariant 1 <= p <= end + 1 && out <= Completed(s, 1, end)
        invariant p <= end ==> out <= Completed(s, 1, p)
        invariant Decode(s, 1, end) == Prepend(output[..out], Decode(s, p, end))
        decreases end + 1 - p
      {
        var step, written;
        ghost var done, unit := output[..out], [];
        ok, step, written, unit := DecodeUnit(s, p, end, output, out);
        if !ok {
          return;
        }
        PrependTwice(done, unit, Decode(s, p + step, end));
        p, out := p + step, out + written;
      }
      assert output[..out] + [] == output[..out];
      ok := true;
    }

    /** One byte or one escape sequence of the string literal. */
    static method DecodeUnit(s: Text, p: nat, end: nat, output: array<byte>, out: nat)
      returns (ok: bool, step: nat, written: nat, ghost unit: Text)
      requires ClosingQuote(s, 1) == Some(end) && 1 <= p < end
      requires out <= Completed(s, 1, p) && output.Length == Completed(s, 1, end) + 2
      modifies output
      ensures !ok ==> Decode(s, p, end).None?
      ensures ok ==> step >= 1 && p + step <= end + 1 && written == |unit|
      ensures ok ==> out + written <= Completed(s, 1, end)
                     && output[..out + written] == old(output[..out]) + unit
      ensures ok && p + step <= end ==> out + written <= Completed(s, 1, p + step)
      ensures ok ==> Decode(s, p, end) == Prepend(unit, Decode(s, p + step, end))
    {
      ok, step, written := true, 2, 1;
      unit := [];
      CompletedMonotone(s, 1, p, end);
      if s[p] != BACKSLASH {
        CompletedByte(s, 1, p);
        CompletedMonotone(s, 1, p + 1, end);
        output[out] := s[p];
        step := 1;
        unit := [s[p]];
      } else if s[p + 1] == 117 {
        EscapeRoom(s, p, end, out);
        step, written := Utf16LiteralToUtf8(s, p, end, output, out);
        if step == 0 {
          return false, 0, 0, [];
        }
        unit := Utf8(UnicodeEscape(s, p, end).codepoint);
      } else {
        var letter := UnescapeLetter(s[p + 1]);
        if letter.None? {
          return false, 0, 0, [];
        }
        PairRoom(s, p, end);
        output[out] := letter.value;
        unit := [letter.value];
      }
    }

    /** An escape sequence writes at most one byte for every two it reads. */
    static lemma EscapeRoom(s: Text, p: nat, end: nat, out: nat)
      requires 1 <= p <= end <= |s| && out <= Completed(s, 1, p)
      ensures var u := UnicodeEscape(s, p, end);
              u.Unicode? ==> out + |Utf8(u.codepoint)| <= Completed(s, 1, p + u.length) <= Completed(s, 1, end)
    {
      var u := UnicodeEscape(s, p, end);
      EscapeShape(s, p, end);
      hide UnicodeEscape;
      hide Utf8;
      hide Completed;
      if u.Unicode? {
        CompletedPairs(s, 1, p, u.length / 2);
        CompletedMonotone(s, 1, p + u.length, end);
      }
    }

    static lemma EscapeShape(s: Text, p: nat, end: nat)
      requires p <= end <= |s|
      ensures var u := UnicodeEscape(s, p, end);
              u.Unicode? ==>
                p + u.length <= end && u.length % 2 == 0 && 1 <= |Utf8(u.codepoint)| <= u.length / 2
    {
    }

    static lemma PairRoom(s: Text, p: nat, end: nat)
      requires ClosingQuote(s, 1) == Some(end) && 1 <= p < end
      ensures Completed(s, 1, end) >= Completed(s, 1, p) + 1
      ensures p + 2 <= end ==> Completed(s, 1, p + 2) >= Completed(s, 1, p) + 1
    {
      if p + 2 <= end {
        CompletedPair(s, 1, p);
        CompletedMonotone(s, 1, p + 2, end);
      } else {
        CompletedLast(s, 1, end);
      }
    }

    /** The value at the offset, chosen by its first bytes. */
    method ParseValue() returns (ok: bool, item: Json)
      requires Valid()
      modifies this
      ensures ok <==> G.ParseValue(old(Rest()), old(depth)).Accept?
      ensures ok ==> Valid() && G.ParseValue(old(Rest()), old(depth)) == Accept(item, Rest()) && depth == old(depth)
      decreases |content| - offset, 6
    {
      item := Null;
      var matched := LooksAt(NULL_TEXT);
      if matched {
        Step(4);
        return true, Null;
      }
      matched := LooksAt(FALSE_TEXT);
      if matched {
        Step(5);
        return true, False;
      }
      matched := LooksAt(TRUE_TEXT);
      if matched {
        Step(4);
        return true, True;
      }
      var b := content[offset];
      if b == QUOTE {
        var text;
        ok, text := ParseString();
        item := String(text);
      } else if b == MINUS || 48 <= b <= 57 {
        ok, item := ParseNumber();
      } else if b == LBRACKET {
        ok, item := ParseArray();
      } else if b == LBRACE {
        ok, item := ParseObject();
      } else {
        ok := false;
      }
    }

    /** can_read and strncmp: the unread input starts with `word`. */
    method LooksAt(word: Text) returns (matched: bool)
      requires Valid() && NulFree(word)
      ensures matched <==> StartsWith(Rest(), word)
      ensures matched ==> offset + |word| < |content|
    {
      matched := offset + |word| <= |content| && content[offset..offset + |word|] == word;
      assert offset + |word| <= |content| ==> Rest()[..|word|] == content[offset..offset + |word|];
      if offset + |word| == |content| && |word| > 0 {
        assert content[offset..offset + |word|][|word| - 1] == 0;
      }
    }

    /** Past one punctuation byte and the space behind it. */
    method StepOver()
      requires Valid() && content[offset] != 0
      modifies this`offset
      ensures Valid() && offset > old(offset)
      ensures Rest() == Advance(old(Rest())) && SkipSpace(Rest()) == Rest()
    {
      Step(1);
      SkipWhitespace();
    }

    /** An array, one level deeper than the text around it and within the nesting limit. */
    method ParseArray() returns (ok: bool, item: Json)
      requires Valid() && content[offset] == LBRACKET
      modifies this
      ensures ok <==> G.ParseArray(old(Rest()), old(depth)).Accept?
      ensures ok ==> Valid() && G.ParseArray(old(Rest()), old(depth)) == Accept(item, Rest()) && depth == old(depth)
      decreases |content| - offset, 5
    {
      hide SkipSpace;
      hide Advance;
      hide CloseArray;
      hide G.ParseElements;
      item := Null;
      if depth >= NESTING_LIMIT {
        return false, item;
      }
      depth := depth + 1;
      StepOver();
      ghost var first := Rest();
      if content[offset] == RBRACKET {
        depth := depth - 1;
        item := Array(NoElement);
        Step(1);
        return true, item;
      }
      offset := offset - 1;
      ok, item := ParseArrayBody(first);
    }

    /** The children and the closing bracket, starting in front of the first child. */
    method ParseArrayBody(ghost first: Text) returns (ok: bool, item: Json)
      requires Terminated(content) && offset + 1 < |content| && depth >= 1
      requires first == content[offset + 1..] && SkipSpace(first) == first
      modifies this
      ensures ok <==> CloseArray(G.ParseElements(first, old(depth))).Accept?
      ensures ok ==> Valid() && CloseArray(G.ParseElements(first, old(depth))) == Accept(item, Rest())
                     && depth == old(depth) - 1
      decreases |content| - offset, 4
    {
      item := Null;
      var head;
      ok, head := ParseElements(first);
      if !ok || content[offset] != RBRACKET {
        return false, item;
      }
      depth := depth - 1;
      item := Array(head);
      Step(1);
    }

    /** The elements up to the first one without a comma behind it, read from the byte in front of the first. */
    method ParseElements(ghost first: Text) returns (ok: bool, head: Elements)
      requires Terminated(content) && offset + 1 < |content|
      requires first == content[offset + 1..] && SkipSpace(first) == first
      modifies this
      ensures ok <==> G.ParseElements(first, old(depth)).Accept?
      ensures ok ==> Valid() && depth == old(depth) && offset > old(offset)
      ensures ok ==> G.ParseElements(first, old(depth)) == Accept(head, Rest())
      decreases |content| - offset, 3
    {
      ghost var goal := G.ParseElements(first, depth);
      ghost var next := first;
      head := NoElement;
      while true
        invariant offset + 1 < |content| && depth == old(depth) && offset >= old(offset)
        invariant Terminated(next) && SkipSpace(content[offset + 1..]) == next
        invariant goal == LinkElements(head, G.ParseElements(next, depth))
        decreases |content| - offset
      {
        var item;
        ok, item := ParseElement(next);
        if !ok {
          return;
        }
        ElementsLink(goal, head, next, item, depth);
        if content[offset] == COMMA {
          next := Advance(Rest());
          assert Rest()[1..] == content[offset + 1..];
        }
        head := ConcatElements(head, Element(item, NoElement));
        if content[offset] != COMMA {
          break;
        }
      }
    }

    /** An object, one level deeper than the text around it and within the nesting limit. */
    method ParseObject() returns (ok: bool, item: Json)
      requires Valid() && content[offset] == LBRACE
      modifies this
      ensures ok <==> G.ParseObject(old(Rest()), old(depth)).Accept?
      ensures ok ==> Valid() && G.ParseObject(old(Rest()), old(depth)) == Accept(item, Rest()) && depth == old(depth)
      decreases |content| - offset, 5
    {
      hide SkipSpace;
      hide Advance;
      hide CloseObject;
      hide G.ParseMembers;
      item := Null;
      if depth >= NESTING_LIMIT {
        return false, item;
      }
      depth := depth + 1;
      StepOver();
      ghost var first := Rest();
      if content[offset] == RBRACE {
        depth := depth - 1;
        item := Object(NoMember);
        Step(1);
        return true, item;
      }
      offset := offset - 1;
      ok, item := ParseObjectBody(first);
    }

    /** The children and the closing bracket, starting in front of the first child. */
    method ParseObjectBody(ghost first: Text) returns (ok: bool, item: Json)
      requires Terminated(content) && offset + 1 < |content| && depth >= 1
      requires first == content[offset + 1..] && SkipSpace(first) == first
      modifies this
      ensures ok <==> CloseObject(G.ParseMembers(first, old(depth))).Accept?
      ensures ok ==> Valid() && CloseObject(G.ParseMembers(first, old(depth))) == Accept(item, Rest())
                     && depth == old(depth) - 1
      decreases |content| - offset, 4
    {
      item := Null;
      var head;
      ok, head := ParseMembers(first);
      if !ok || content[offset] != RBRACE {
        return false, item;
      }
      depth := depth - 1;
      item := Object(head);
      Step(1);
    }

    /** The members up to the first one without a comma behind it, read from the byte in front of the first. */
    method ParseMembers(ghost first: Text) returns (ok: bool, head: Members)
      requires Terminated(content) && offset + 1 < |content|
      requires first == content[offset + 1..] && SkipSpace(first) == first
      modifies this
      ensures ok <==> G.ParseMembers(first, old(depth)).Accept?
      ensures ok ==> Valid() && depth == old(depth) && offset > old(offset)
      ensures ok ==> G.ParseMembers(first, old(depth)) == Accept(head, Rest())
      decreases |content| - offset, 3
    {
      ghost var goal := G.ParseMembers(first, depth);
      ghost var next := first;
      head := NoMember;
      while true
        invariant offset + 1 < |content| && depth == old(depth) && offset >= old(offset)
        invariant Terminated(next) && SkipSpace(content[offset + 1..]) == next
        invariant goal == LinkMembers(head, G.ParseMembers(next, depth))
        decreases |content| - offset
      {
        var member;
        ok, member := ParseMember(next);
        if !ok {
          return;
        }
        MembersLink(goal, head, next, depth);
        if content[offset] == COMMA {
          next := Advance(Rest());
          assert Rest()[1..] == content[offset + 1..];
        }
        head := ConcatMembers(head, member);
        if content[offset] != COMMA {
          break;
        }
      }
    }

    /** One array element and the space on both sides of it. */
    method ParseElement(ghost s: Text) returns (ok: bool, item: Json)
      requires Terminated(content) && offset + 1 < |content| && SkipSpace(content[offset + 1..]) == s
      modifies this
      ensures Terminated(s) && (ok <==> G.ParseValue(s, old(depth)).Accept?)
      ensures ok ==> Valid() && depth == old(depth) && offset > old(offset)
      ensures ok ==> item == G.ParseValue(s, old(depth)).value
                     && Rest() == SkipSpace(G.ParseValue(s, old(depth)).rest)
      decreases |content| - offset, 2
    {
      Step(1);
      SkipWhitespace();
      ok, item := ParseValue();
      if ok {
        SkipWhitespace();
      }
    }

    /** One member, key and value, with the space around both; the offset ends behind it. */
    method ParseMember(ghost s: Text) returns (ok: bool, member: Members)
      requires Terminated(content) && offset + 1 < |content| && SkipSpace(content[offset + 1..]) == s
      modifies this
      ensures Terminated(s) && (ok <==> G.ParseMember(s, old(depth)).Accept?)
      ensures ok ==> Valid() && depth == old(depth) && offset > old(offset)
      ensures ok ==> member == G.ParseMember(s, old(depth)).value
                     && Rest() == SkipSpace(G.ParseMember(s, old(depth)).rest)
      decreases |content| - offset, 2
    {
      member := NoMember;
      var key, item;
      ok, key := ParseKey(s);
      if ok {
        ok, item := ParseValue();
        if ok {
          SkipWhitespace();
          member := Member(key, item, NoMember);
        }
      }
    }

    /** A member's key; the offset ends in front of its value. */
    method ParseKey(ghost s: Text) returns (ok: bool, key: Text)
      requires Terminated(content) && offset + 1 < |content| && SkipSpace(content[offset + 1..]) == s
      modifies this`offset
      ensures Terminated(s)
      ensures ok <==> G.ParseString(s).Accept? && SkipSpace(G.ParseString(s).rest)[0] == COLON
      ensures ok ==> Valid() && offset > old(offset) && key == G.ParseString(s).value
                     && Rest() == Advance(SkipSpace(G.ParseString(s).rest))
    {
      Step(1);
      SkipWhitespace();
      ok, key := ParseString();
      if !ok {
        return;
      }
      SkipWhitespace();
      if content[offset] != COLON {
        return false, key;
      }
      StepOver();
    }
  }

  /** One unfolding of the element list, with the items already read linked in front. */
  lemma ElementsLink(goal: Parsed<Elements>, head: Elements, s: Text, item: Json, depth: nat)
    requires Terminated(s) && G.ParseValue(s, depth).Accept? && G.ParseValue(s, depth).value == item
    requires goal == LinkElements(head, G.ParseElements(s, depth))
    ensures var after := SkipSpace(G.ParseValue(s, depth).rest);
            var head' := ConcatElements(head, Element(item, NoElement));
            if after[0] == COMMA then goal == LinkElements(head', G.ParseElements(Advance(after), depth))
            else goal == Accept(head', after)
  {
    var after := SkipSpace(G.ParseValue(s, depth).rest);
    if after[0] == COMMA {
      LinkElementsTwice(head, item, G.ParseElements(Advance(after), depth));
    }
  }

  // ---- linking a new item behind the last one ----

  function ConcatElements(a: Elements, b: Elements): Elements
  {
    if a.NoElement? then b else Element(a.item, ConcatElements(a.next, b))
  }

  function LinkElements(head: Elements, tail: Parsed<Elements>): Parsed<Elements>
  {
    if tail.Reject? then Reject else Accept(ConcatElements(head, tail.value), tail.rest)
  }

  lemma {:induction false} ConcatElementsSnoc(a: Elements, item: Json, b: Elements)
    ensures ConcatElements(ConcatElements(a, Element(item, NoElement)), b)
            == ConcatElements(a, Element(item, b))
  {
    if a.Element? {
      ConcatElementsSnoc(a.next, item, b);
    }
  }

  lemma LinkElementsTwice(head: Elements, item: Json, tail: Parsed<Elements>)
    ensures LinkElements(ConcatElements(head, Element(item, NoElement)), tail)
            == LinkElements(head, if tail.Reject? then Reject else Accept(Element(item, tail.value), tail.rest))
  {
    if tail.Accept? {
      ConcatElementsSnoc(head, item, tail.value);
    }
  }

  function ConcatMembers(a: Members, b: Members): Members
  {
    if a.NoMember? then b else Member(a.key, a.item, ConcatMembers(a.next, b))
  }

  function LinkMembers(head: Members, tail: Parsed<Members>): Parsed<Members>
  {
    if tail.Reject? then Reject else Accept(ConcatMembers(head, tail.value), tail.rest)
  }

  lemma {:induction false} ConcatMembersSnoc(a: Members, key: Text, item: Json, b: Members)
    ensures ConcatMembers(ConcatMembers(a, Member(key, item, NoMember)), b)
            == ConcatMembers(a, Member(key, item, b))
  {
    if a.Member? {
      ConcatMembersSnoc(a.next, key, item, b);
    }
  }

  /** One unfolding of the member list, with the members already read linked in front. */
  lemma MembersLink(goal: Parsed<Members>, head: Members, s: Text, depth: nat)
    requires Terminated(s) && G.ParseMember(s, depth).Accept?
    requires goal == LinkMembers(head, G.ParseMembers(s, depth))
    ensures var member := G.ParseMember(s, depth);
            var after, head' := SkipSpace(member.rest), ConcatMembers(head, member.value);
            if after[0] == COMMA then goal == LinkMembers(head', G.ParseMembers(Advance(after), depth))
            else goal == Accept(head', after)
  {
    var member := G.ParseMember(s, depth);
    var after := SkipSpace(member.rest);
    if after[0] == COMMA {
      var rest := G.ParseMembers(Advance(after), depth);
      if rest.Accept? {
        ConcatMembersSnoc(head, member.value.key, member.value.item, rest.value);
      }
    }
  }

  /** Moves past a byte order mark at offset zero, and then past space. */
  method SkipBom(buffer: ParseBuffer)
    requires buffer.Valid() && buffer.offset == 0
    modifies buffer`offset
    ensures buffer.Valid() && buffer.Rest() == SkipSpace(WithoutBom(buffer.content))
  {
    if 4 < |buffer.content| {
      var bom := buffer.LooksAt([0xEF, 0xBB, 0xBF]);
      if bom {
        buffer.Step(3);
      }
    }
    buffer.SkipWhitespace();
  }

  /** The texts that a parse to the end accepts. */
  lemma WholeText(value: Text)
    requires Terminated(value)
    ensures var r := ParseDocument(value, true);
            && (r.Accept? <==> exists d :: Syntax.ProperDocument(d) && value == Syntax.DocumentText(d))
            && (r.Accept? ==> r.rest == [0] && exists d ::
                  Syntax.ProperDocument(d) && value == Syntax.DocumentText(d) && Syntax.TreeOf(d.value) == r.value)
  {
    hide *;
    var r := ParseDocument(value, true);
    if r.Accept? {
      var d := Syntax.DocumentFound(value);
    }
    forall d | Syntax.ProperDocument(d) && value == Syntax.DocumentText(d) ensures r.Accept? {
      Syntax.DocumentReads(d);
    }
  }

  /** cJSON_ParseWithOpts; `parseEnd` is where the source's return_parse_end points. */
  method ParseWithOpts(value: Text, requireNullTerminated: bool)
    returns (ok: bool, item: Json, parseEnd: nat)
    requires Terminated(value)
    ensures ok <==> ParseDocument(value, requireNullTerminated).Accept?
    ensures ok ==> parseEnd < |value|
                   && ParseDocument(value, requireNullTerminated) == Accept(item, value[parseEnd..])
    ensures requireNullTerminated ==>
              (ok <==> exists d :: Syntax.ProperDocument(d) && value == Syntax.DocumentText(d))
    ensures requireNullTerminated && ok ==>
              && parseEnd == |value| - 1
              && exists d ::
                   Syntax.ProperDocument(d) && value == Syntax.DocumentText(d) && Syntax.TreeOf(d.value) == item
  {
    parseEnd := 0;
    WholeText(value);
    var buffer := new ParseBuffer(value);
    SkipBom(buffer);
    ok, item := buffer.ParseValue();
    if !ok {
      return;
    }
    if requireNullTerminated {
      buffer.SkipWhitespace();
      if value[buffer.offset] != 0 {
        ok := false;
      }
    }
    parseEnd := buffer.offset;
  }
}
