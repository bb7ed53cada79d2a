/**
  The buffered printer of cjson.c: print_value and its helpers writing into a
  printbuffer that grows or is preallocated.

  The offset protocol is the source's own: print_string_ptr and the literals
  leave `offset` in front of what they wrote, print_number moves it behind, and
  a caller recovers the end with update_offset, which scans for the NUL.
 */
module JsonPrinter {
  import opened Bytes
  import opened JsonTree

  class PrintBuffer {
    var buffer: array<byte>
    var offset: nat
    var depth: nat
    const noalloc: bool
    const format: bool

    constructor (buffer: array<byte>, noalloc: bool, format: bool)
      ensures this.buffer == buffer && offset == 0 && depth == 0
      ensures this.noalloc == noalloc && this.format == format
    {
      this.buffer := buffer;
      this.offset := 0;
      this.depth := 0;
      this.noalloc := noalloc;
      this.format := format;
    }

    /** `length` never leaves the range of int; an empty buffer is only met at the very start. */
    ghost predicate Valid()
      reads this
    {
      buffer.Length <= INT_MAX && (offset < buffer.Length || (offset == 0 && buffer.Length == 0))
    }

    /** How large the buffer can become. */
    ghost function Limit(): int
      reads this
    {
      if noalloc then buffer.Length else INT_MAX
    }

    ghost function Contents(): Text
      requires Valid()
      reads this, buffer
    {
      buffer[..offset]
    }

    /** `text` and a NUL stand at `start`, and `offset` is somewhere inside or at the end of it. */
    ghost predicate Printed(before: Text, text: Text)
      reads this, buffer
    {
      var end := |before| + |text|;
      Valid() && end < buffer.Length && |before| <= offset <= end
      && buffer[..end] == before + text && buffer[end] == 0
    }

    /** Same buffer, or a new one nobody else has seen. */
    twostate predicate Owned()
      reads this
    {
      buffer == old(buffer) || (!noalloc && fresh(buffer))
    }

    /** Room for `needed` bytes and a NUL behind `offset`, in a larger buffer if this one is too small and may grow. */
    method Ensure(needed: nat) returns (ok: bool)
      requires Valid()
      modifies this`buffer
      ensures Valid() && Owned() && Limit() == old(Limit())
      ensures ok <==> offset + needed + 1 <= Limit()
      ensures ok ==> offset + needed + 1 <= buffer.Length
      ensures Contents() == old(Contents())
    {
      if buffer.Length > 0 && offset >= buffer.Length {
        return false;
      }
      if needed > INT_MAX {
        return false;
      }
      var total := needed + offset + 1;
      if total <= buffer.Length {
        return true;
      }
      if noalloc {
        return false;
      }
      var newSize;
      if total > INT_MAX / 2 {
        if total <= INT_MAX {
          newSize := INT_MAX;
        } else {
          return false;
        }
      } else {
        newSize := total * 2;
      }
      var newBuffer := new byte[newSize];
      for i := 0 to offset
        invariant newBuffer[..i] == buffer[..i]
        invariant fresh(newBuffer)
        modifies newBuffer
      {
        newBuffer[i] := buffer[i];
      }
      buffer := newBuffer;
      return true;
    }

    /** Writes through the pointer that Ensure returned: `text` goes to `at` and the bytes behind it. */
    method Store(at: nat, text: Text)
      requires at + |text| <= buffer.Length
      modifies buffer
      ensures buffer[..at + |text|] == old(buffer[..at]) + text
    {
      for i := 0 to |text|
        invariant buffer[..at + i] == old(buffer[..at]) + text[..i]
      {
        buffer[at + i] := text[i];
        assert buffer[..at + i + 1] == buffer[..at + i] + [text[i]];
      }
    }

    /** The offset moves to the first NUL, which is where the text just printed ends. */
    method UpdateOffset(ghost before: Text, ghost text: Text)
      requires Printed(before, text) && NulFree(text)
      modifies this`offset
      ensures Valid() && offset == |before| + |text| && Contents() == before + text && buffer[offset] == 0
    {
      ghost var end := |before| + |text|;
      assert forall i :: |before| <= i < end ==> buffer[..end][i] == text[i - |before|];
      while buffer[offset] != 0
        invariant Printed(before, text)
        invariant forall i :: |before| <= i < end ==> buffer[i] != 0
        decreases end - offset
      {
        offset := offset + 1;
      }
    }

    method PrintLiteral(text: Text) returns (ok: bool)
      requires Valid() && |text| >= 1
      modifies this`buffer, buffer
      ensures Valid() && Owned() && Limit() == old(Limit())
      ensures ok <==> offset + |text| + 2 <= Limit()
      ensures ok ==> Printed(old(Contents()), text)
    {
      ok := Ensure(|text| + 1);
      if ok {
        ghost var before := Contents();
        Store(offset, text + [0]);
        Terminate(before, text);
      }
    }

    /** A text stored with its NUL is printed. */
    lemma Terminate(before: Text, text: Text)
      requires Valid() && offset == |before| && offset + |text| < buffer.Length
      requires buffer[..offset + |text| + 1] == before + (text + [0])
      ensures Printed(before, text)
    {
      var all := buffer[..offset + |text| + 1];
      assert all[offset + |text|] == 0;
      assert all[..offset + |text|] == before + text;
    }

    /** The decimal digits behind the offset; alone among the printers this one moves the offset past its text. */
    method PrintNumber(value: real) returns (ok: bool)
      requires Valid() && PlainNumber(value)
      modifies this`buffer, this`offset, buffer
      ensures Valid() && Owned() && Limit() == old(Limit())
      ensures ok <==> old(offset) + |Decimal(value.Floor)| + 2 <= Limit()
      ensures ok ==> Printed(old(Contents()), Decimal(value.Floor))
      ensures ok ==> offset == old(offset) + |Decimal(value.Floor)|
    {
      var number := Decimal(value.Floor);
      ghost var before := Contents();
      ok := Ensure(|number| + 1);
      if ok {
        Store(offset, number + [0]);
        Terminate(before, number);
        offset := offset + |number|;
      }
    }

    /** One iteration of print_string_ptr's copying loop, writing at `at`. */
    method PutEscaped(at: nat, b: byte)
      requires b != 0 && at + |EscapeByte(b)| < buffer.Length
      modifies buffer
      ensures buffer[..at + |EscapeByte(b)|] == old(buffer[..at]) + EscapeByte(b)
    {
      if b > 31 && b != QUOTE && b != BACKSLASH {
        buffer[at] := b;
      } else {
        buffer[at] := BACKSLASH;
        match b
        case 92 => buffer[at + 1] := 92;
        case 34 => buffer[at + 1] := 34;
        case 8 => buffer[at + 1] := 98;
        case 12 => buffer[at + 1] := 102;
        case 10 => buffer[at + 1] := 110;
        case 13 => buffer[at + 1] := 114;
        case 9 => buffer[at + 1] := 116;
        case _ =>
          // sprintf "u%04x", which adds a NUL of its own
          ghost var start := buffer[..at + 1];
          Store(at + 1, [117, 48, 48, HexDigit(b / 16), HexDigit(b % 16), 0]);
          assert buffer[..at + 6] == buffer[..at + 7][..at + 6];
      }
    }

    /** The first pass of print_string_ptr: how many bytes escaping adds. */
    static method CountEscapes(input: Text) returns (escapeCharacters: nat)
      ensures escapeCharacters == |Escape(input)| - |input|
    {
      escapeCharacters := 0;
      for i := 0 to |input|
        invariant escapeCharacters == |Escape(input[..i])| - i
      {
        EscapeAt(input, i);
        match input[i]
        case 34 => escapeCharacters := escapeCharacters + 1;
        case 92 => escapeCharacters := escapeCharacters + 1;
        case 8 => escapeCharacters := escapeCharacters + 1;
        case 12 => escapeCharacters := escapeCharacters + 1;
        case 10 => escapeCharacters := escapeCharacters + 1;
        case 13 => escapeCharacters := escapeCharacters + 1;
        case 9 => escapeCharacters := escapeCharacters + 1;
        case _ =>
          if input[i] < 32 {
            escapeCharacters := escapeCharacters + 5;
          }
      }
      assert input[..|input|] == input;
    }

    /** The text with its escapes, between quotes and with a NUL behind; the offset stays where it was. */
    method PrintString(input: Text) returns (ok: bool)
      requires Valid() && NulFree(input)
      modifies this`buffer, buffer
      ensures Valid() && Owned() && Limit() == old(Limit())
      ensures ok <==> offset + |Quoted(input)| + 2 <= Limit()
      ensures ok ==> Printed(old(Contents()), Quoted(input))
    {
      var escapeCharacters := CountEscapes(input);
      var outputLength := |input| + escapeCharacters;
      ok := Ensure(outputLength + 3);
      if ok {
        ghost var before := Contents();
        WriteQuoted(input, escapeCharacters);
        Terminate(before, Quoted(input));
      }
    }

    /** The second pass: the reserved space is filled with the quoted text and its NUL. */
    method WriteQuoted(input: Text, escapeCharacters: nat)
      requires NulFree(input) && escapeCharacters == |Escape(input)| - |input|
      requires offset + |Escape(input)| + 3 <= buffer.Length
      modifies buffer
      ensures buffer[..offset + |Quoted(input)| + 1] == old(buffer[..offset]) + (Quoted(input) + [0])
    {
      hide Escape;
      QuotedLength(input);
      hide Quoted;
      var outputLength := |input| + escapeCharacters;
      ghost var before := buffer[..offset];
      buffer[offset] := QUOTE;
      assert buffer[..offset + 1] == before + [QUOTE];
      if escapeCharacters == 0 {
        EscapeNothing(input);
        Store(offset + 1, input);
      } else {
        CopyEscaped(input);
      }
      ghost var body := buffer[..offset + 1 + outputLength];
      assert body == before + [QUOTE] + Escape(input);
      buffer[offset + outputLength + 1] := QUOTE;
      buffer[offset + outputLength + 2] := 0;
      assert buffer[..offset + outputLength + 3] == body + [QUOTE, 0];
      QuotedFromBody(before, input);
    }

    static lemma QuotedLength(input: Text)
      ensures |Quoted(input)| == |Escape(input)| + 2
    {
    }

    static lemma QuotedFromBody(before: Text, input: Text)
      ensures before + [QUOTE] + Escape(input) + [QUOTE, 0] == before + (Quoted(input) + [0])
    {
      assert [QUOTE, 0] == [QUOTE] + [0];
      Assoc(before, [QUOTE], Escape(input));
      Assoc(before + ([QUOTE] + Escape(input)), [QUOTE], [0]);
      Assoc(before, [QUOTE] + Escape(input), [QUOTE]);
      Assoc(before, Quoted(input), [0]);
    }

    method CopyEscaped(input: Text)
      requires NulFree(input) && offset + 1 + |Escape(input)| < buffer.Length
      modifies buffer
      ensures buffer[..offset + 1 + |Escape(input)|] == old(buffer[..offset + 1]) + Escape(input)
    {
      var out := offset + 1;
      for i := 0 to |input|
        invariant out == offset + 1 + |Escape(input[..i])|
        invariant out + |Escape(input[i..])| == offset + 1 + |Escape(input)|
        invariant buffer[..out] == old(buffer[..offset + 1]) + Escape(input[..i])
      {
        EscapeAt(input, i);
        PutEscaped(out, input[i]);
        Assoc(old(buffer[..offset + 1]), Escape(input[..i]), EscapeByte(input[i]));
        out := out + |EscapeByte(input[i])|;
      }
      assert input[..|input|] == input;
    }

    /**
      Reserve `needed` bytes, write `text` (and a NUL behind it where the source
      does), and move the offset over the text.
     */
    method Emit(text: Text, needed: nat, terminate: bool) returns (ok: bool)
      requires Valid() && |text| <= needed
      modifies this`buffer, this`offset, buffer
      ensures Valid() && Owned() && Limit() == old(Limit())
      ensures ok <==> old(offset) + needed + 1 <= Limit()
      ensures ok ==> offset == old(offset) + |text| && Contents() == old(Contents()) + text
    {
      ok := Ensure(needed);
      if ok {
        Store(offset, text);
        if terminate {
          buffer[offset + |text|] := 0;
        }
        offset := offset + |text|;
      }
    }

    /** The text `Render` gives for the tree, or a refusal exactly when it and two more bytes do not fit. */
    method PrintValue(item: Json) returns (ok: bool)
      requires Valid() && Printable(item)
      modifies this, buffer
      ensures Valid() && Owned() && Limit() == old(Limit())
      ensures ok <==> old(offset) + |Render(item, format, old(depth))| + 2 <= Limit()
      ensures ok ==> Printed(old(Contents()), Render(item, format, old(depth))) && depth == old(depth)
      decreases Size(item), 1
    {
      match item
      case Null => ok := PrintLiteral(NULL_TEXT);
      case False => ok := PrintLiteral(FALSE_TEXT);
      case True => ok := PrintLiteral(TRUE_TEXT);
      case Number(value) => ok := PrintNumber(value);
      case String(text) => ok := PrintString(text);
      case Array(elements) => ok := PrintArray(elements);
      case Object(members) => ok := PrintObject(members);
    }

    /** The same for an array: the opening bracket here, the elements one level deeper. */
    method PrintArray(elements: Elements) returns (ok: bool)
      requires Valid() && PrintableElements(elements)
      modifies this, buffer
      ensures Valid() && Owned() && Limit() == old(Limit())
      ensures ok <==> old(offset) + |Render(Array(elements), format, old(depth))| + 2 <= Limit()
      ensures ok ==> Printed(old(Contents()), Render(Array(elements), format, old(depth))) && depth == old(depth)
      decreases Size(Array(elements)), 0
    {
      ghost var before, text := Contents(), Render(Array(elements), format, depth);
      ok := Emit([LBRACKET], 1, false);
      if ok {
        depth := depth + 1;
        OpenArray(before, elements, depth);
        ok := PrintElements(elements, before + text);
        if ok {
          ok := Close([RBRACKET], 2, before, text);
        }
      }
    }

    lemma OpenArray(before: Text, elements: Elements, inside: nat)
      requires inside >= 1
      ensures before + [LBRACKET] + (RenderElements(elements, format, inside) + [RBRACKET])
              == before + Render(Array(elements), format, inside - 1)
    {
      Assoc([LBRACKET], RenderElements(elements, format, inside), [RBRACKET]);
      Assoc(before, [LBRACKET], RenderElements(elements, format, inside) + [RBRACKET]);
    }

    lemma OpenObject(before: Text, members: Members, inside: nat)
      requires inside >= 1
      ensures before + ObjectOpening(format)
              + (RenderMembers(members, format, inside) + ObjectClosing(format, inside - 1))
              == before + Render(Object(members), format, inside - 1)
    {
      var closing := ObjectClosing(format, inside - 1);
      Assoc(ObjectOpening(format), RenderMembers(members, format, inside), closing);
      Assoc(before, ObjectOpening(format), RenderMembers(members, format, inside) + closing);
    }

    /** The loop over the children of an array. */
    method PrintElements(elements: Elements, ghost whole: Text) returns (ok: bool)
      requires Valid() && PrintableElements(elements)
      requires Contents() + (RenderElements(elements, format, depth) + [RBRACKET]) == whole
      modifies this, buffer
      ensures Valid() && Owned() && Limit() == old(Limit())
      ensures ok ==> depth == old(depth) && Contents() + [RBRACKET] == whole
      ensures !ok ==> |whole| + 2 > Limit()
      decreases ElementsSize(elements), 3
    {
      var current := elements;
      while current.Element?
        invariant Valid() && Owned() && Limit() == old(Limit()) && depth == old(depth)
        invariant PrintableElements(current) && ElementsSize(current) <= ElementsSize(elements)
        invariant Contents() + (RenderElements(current, format, depth) + [RBRACKET]) == whole
        decreases ElementsSize(current)
      {
        ok := PrintElement(current, whole);
        if !ok {
          return;
        }
        current := current.next;
      }
      assert RenderElements(current, format, depth) + [RBRACKET] == [RBRACKET];
      ok := true;
    }

    /** The closing bytes and their NUL; the depth goes back to what it was outside. */
    method Close(closing: Text, needed: nat, ghost before: Text, ghost text: Text) returns (ok: bool)
      requires Valid() && depth >= 1 && needed == |closing| + 1 && 1 <= |closing| <= |text|
      requires Contents() + closing == before + text
      modifies this, buffer
      ensures Valid() && Owned() && Limit() == old(Limit())
      ensures ok <==> |before| + |text| + 2 <= Limit()
      ensures ok ==> Printed(before, text) && depth == old(depth) - 1
    {
      ok := Ensure(needed);
      if ok {
        ghost var start := Contents();
        Store(offset, closing + [0]);
        var all := buffer[..offset + |closing| + 1];
        assert all[offset + |closing|] == 0;
        assert all[..offset + |closing|] == start + closing;
        depth := depth - 1;
      }
    }

    /** One element and the separator behind it; `whole` is what the buffer will hold in the end. */
    method PrintElement(current: Elements, ghost whole: Text) returns (ok: bool)
      requires Valid() && current.Element? && PrintableElements(current)
      requires Contents() + (RenderElements(current, format, depth) + [RBRACKET]) == whole
      modifies this, buffer
      ensures Valid() && Owned() && Limit() == old(Limit())
      ensures ok ==> depth == old(depth)
                     && Contents() + (RenderElements(current.next, format, depth) + [RBRACKET]) == whole
      ensures !ok ==> |whole| + 2 > Limit()
      decreases ElementsSize(current), 2
    {
      ghost var before := Contents();
      ghost var text := Render(current.item, format, depth);
      ghost var rest := RenderElements(current.next, format, depth) + [RBRACKET];
      ElementsShape(current, format, depth, [RBRACKET]);
      RenderNulFree(current.item, format, depth);
      ok := PrintValue(current.item);
      if !ok {
        return;
      }
      UpdateOffset(before, text);
      if current.next.Element? {
        Assoc(before, text, ElementSeparator(format) + rest);
        Assoc(before + text, ElementSeparator(format), rest);
        RenderNulFree(current.next.item, format, depth);
        var length := if format then 2 else 1;
        ok := Emit([COMMA] + (if format then [SPACE] else []), length + 1, true);
      } else {
        Assoc(before, text, rest);
      }
    }

    /** The same for an object: the opening brace here, the members one level deeper. */
    method PrintObject(members: Members) returns (ok: bool)
      requires Valid() && PrintableMembers(members)
      modifies this, buffer
      ensures Valid() && Owned() && Limit() == old(Limit())
      ensures ok <==> old(offset) + |Render(Object(members), format, old(depth))| + 2 <= Limit()
      ensures ok ==> Printed(old(Contents()), Render(Object(members), format, old(depth))) && depth == old(depth)
      decreases Size(Object(members)), 0
    {
      ghost var before, text := Contents(), Render(Object(members), format, depth);
      assert |text| >= |ObjectOpening(format)| + |ObjectClosing(format, depth)|;
      OpenObject(before, members, depth + 1);
      hide Render;
      hide RenderMembers;
      hide ObjectClosing;
      var length := if format then 2 else 1;
      ok := Emit([LBRACE] + (if format then [NEWLINE] else []), length + 1, false);
      if ok {
        depth := depth + 1;
        ok := PrintBody(members, before, text);
      }
    }

    /** The members of an object that has been opened, and its closing brace. */
    method PrintBody(members: Members, ghost before: Text, ghost text: Text) returns (ok: bool)
      requires Valid() && PrintableMembers(members) && depth >= 1
      requires |ObjectClosing(format, depth - 1)| <= |text|
      requires Contents() + (RenderMembers(members, format, depth) + ObjectClosing(format, depth - 1)) == before + text
      modifies this, buffer
      ensures Valid() && Owned() && Limit() == old(Limit())
      ensures ok <==> |before| + |text| + 2 <= Limit()
      ensures ok ==> Printed(before, text) && depth == old(depth) - 1
      decreases MembersSize(members), 4
    {
      ghost var closing := ObjectClosing(format, depth - 1);
      hide RenderMembers;
      ok := PrintMembers(members, closing, before + text);
      if ok {
        ok := Close((if format then Tabs(depth - 1) else []) + [RBRACE],
                    if format then depth + 1 else 2, before, text);
      }
    }

    /** The loop over the children of an object. */
    method PrintMembers(members: Members, ghost closing: Text, ghost whole: Text) returns (ok: bool)
      requires Valid() && PrintableMembers(members) && |closing| >= 1
      requires Contents() + (RenderMembers(members, format, depth) + closing) == whole
      modifies this, buffer
      ensures Valid() && Owned() && Limit() == old(Limit())
      ensures ok ==> depth == old(depth) && Contents() + closing == whole
      ensures !ok ==> |whole| + 2 > Limit()
      decreases MembersSize(members), 3
    {
      var current := members;
      while current.Member?
        invariant Valid() && Owned() && Limit() == old(Limit()) && depth == old(depth)
        invariant PrintableMembers(current) && MembersSize(current) <= MembersSize(members)
        invariant Contents() + (RenderMembers(current, format, depth) + closing) == whole
        decreases MembersSize(current)
      {
        ok := PrintMember(current, closing, whole);
        if !ok {
          return;
        }
        current := current.next;
      }
      assert RenderMembers(current, format, depth) + closing == closing;
      ok := true;
    }

    /** One member of an object, from its indentation to the end of its line. */
    method PrintMember(current: Members, ghost closing: Text, ghost whole: Text) returns (ok: bool)
      requires Valid() && current.Member? && PrintableMembers(current) && |closing| >= 1
      requires Contents() + (RenderMembers(current, format, depth) + closing) == whole
      modifies this, buffer
      ensures Valid() && Owned() && Limit() == old(Limit())
      ensures ok ==> depth == old(depth)
                     && Contents() + (RenderMembers(current.next, format, depth) + closing) == whole
      ensures !ok ==> |whole| + 2 > Limit()
      decreases MembersSize(current), 2
    {
      ghost var before := Contents();
      ghost var head := MemberHead(current.key, format, depth);
      ghost var tail := MemberTail(current.item, current.next.NoMember?, format, depth);
      ghost var rest := RenderMembers(current.next, format, depth) + closing;
      MembersHeadShape(current, format, depth, closing);
      Assoc(before, head, tail + rest);
      Assoc(before + head, tail, rest);
      ok := PrintKey(current.key);
      if ok {
        ok := PrintMemberValue(current.item, current.next.NoMember?);
      }
    }

    method PrintKey(key: Text) returns (ok: bool)
      requires Valid() && NulFree(key)
      modifies this`buffer, this`offset, buffer
      ensures Valid() && Owned() && Limit() == old(Limit())
      ensures ok ==> Contents() == old(Contents()) + MemberHead(key, format, depth)
      ensures !ok ==> old(offset) + |MemberHead(key, format, depth)| + 2 > Limit()
    {
      if format {
        ok := Emit(Tabs(depth), depth, false);
        if !ok {
          return;
        }
      }
      ghost var before := old(Contents()) + Indent(format, depth);
      assert Contents() == before;
      QuotedNulFree(key);
      ok := PrintString(key);
      if !ok {
        return;
      }
      UpdateOffset(before, Quoted(key));
      var length := if format then 2 else 1;
      ok := Emit([COLON] + (if format then [TAB] else []), length, false);
      Assoc(old(Contents()), Indent(format, depth), Quoted(key));
      Assoc(old(Contents()), Indent(format, depth) + Quoted(key), KeySeparator(format));
    }

    method PrintMemberValue(item: Json, last: bool) returns (ok: bool)
      requires Valid() && Printable(item)
      modifies this, buffer
      ensures Valid() && Owned() && Limit() == old(Limit())
      ensures ok ==> depth == old(depth)
                     && Contents() == old(Contents()) + MemberTail(item, last, format, depth)
      ensures !ok ==> old(offset) + |MemberTail(item, last, format, old(depth))| + 2 > Limit()
      decreases Size(item), 2
    {
      ghost var before, text := Contents(), Render(item, format, depth);
      RenderNulFree(item, format, depth);
      ok := PrintValue(item);
      if !ok {
        return;
      }
      UpdateOffset(before, text);
      var length := (if format then 1 else 0) + (if last then 0 else 1);
      ok := Emit((if last then [] else [COMMA]) + (if format then [NEWLINE] else []), length + 1, true);
      Assoc(before, text, MemberEnd(format, last));
    }
  }

  /** print: a 256-byte buffer that grows, cut to size at the end.  Null when the text is too long. */
  method Print(item: Json, format: bool) returns (printed: array?<byte>)
    requires Printable(item)
    ensures printed != null <==> |Render(item, format, 0)| + 2 <= INT_MAX
    ensures printed != null ==> fresh(printed) && printed[..] == Render(item, format, 0) + [0]
  {
    hide Render;
    ghost var text := Render(item, format, 0);
    var buffer := new byte[256];
    var p := new PrintBuffer(buffer, false, format);
    assert p.Contents() == [];
    var ok := p.PrintValue(item);
    if !ok {
      return null;
    }
    RenderNulFree(item, format, 0);
    p.UpdateOffset([], text);
    assert [] + text == text;
    printed := new byte[p.offset + 1];
    CopyPrefix(p.buffer, printed);
    assert p.buffer[..p.offset + 1] == p.buffer[..p.offset] + [p.buffer[p.offset]];
  }

  method CopyPrefix(source: array<byte>, target: array<byte>)
    requires target != source && target.Length <= source.Length
    modifies target
    ensures target[..] == source[..target.Length]
  {
    for i := 0 to target.Length
      invariant target[..i] == source[..i]
    {
      target[i] := source[i];
    }
  }

  /** cJSON_PrintBuffered: the caller chooses the first size, and gets the whole buffer back. */
  method PrintBuffered(item: Json, prebuffer: int, format: bool) returns (printed: array?<byte>)
    requires Printable(item) && prebuffer <= INT_MAX
    ensures printed != null <==> prebuffer >= 0 && |Render(item, format, 0)| + 2 <= INT_MAX
    ensures printed != null ==>
              fresh(printed) && |Render(item, format, 0)| < printed.Length <= INT_MAX
              && printed[..|Render(item, format, 0)|] == Render(item, format, 0)
              && printed[|Render(item, format, 0)|] == 0
  {
    if prebuffer < 0 {
      return null;
    }
    var buffer := new byte[prebuffer];
    var p := new PrintBuffer(buffer, false, format);
    assert p.Contents() == [];
    var ok := p.PrintValue(item);
    if !ok {
      return null;
    }
    assert [] + Render(item, format, 0) == Render(item, format, 0);
    printed := p.buffer;
  }

  /**
    cJSON_PrintPreallocated: two bytes beyond the text are needed, although only
    one of them, the NUL, is ever written.
   */
  method PrintPreallocated(item: Json, buf: array?<byte>, format: bool) returns (ok: bool)
    requires Printable(item) && (buf != null ==> buf.Length <= INT_MAX)
    modifies buf
    ensures ok <==> buf != null && |Render(item, format, 0)| + 2 <= buf.Length
    ensures ok ==> buf[..|Render(item, format, 0)|] == Render(item, format, 0)
                   && buf[|Render(item, format, 0)|] == 0
  {
    if buf == null {
      return false;
    }
    var p := new PrintBuffer(buf, true, format);
    assert p.Contents() == [];
    ok := p.PrintValue(item);
    assert [] + Render(item, format, 0) == Render(item, format, 0);
  }
}
