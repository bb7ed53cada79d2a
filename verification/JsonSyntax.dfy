/**
  The grammar of the JSON texts that cjson.c takes, written down as texts that are put
  together from their parts, and the tree that each of them stands for. Every such text
  is parsed to its tree, and nothing else is.
 */
module JsonSyntax {
  import opened Bytes
  import opened JsonTree
  import opened JsonGrammar
  import opened JsonRoundTrip
  import opened JsonTokens

  datatype Value =
    | NullWord
    | FalseWord
    | TrueWord
    | Figure(numeral: Numeral, number: real)
    | Quotation(literal: Literal)
    | NoItems(space: Text)
    | List(items: Items)
    | NoFields(space: Text)
    | Record(fields: Fields)

  /** A value with the space around it; `End` is the place of the closing bracket. */
  datatype Items = EndItems | Item(lead: Text, value: Value, trail: Text, next: Items)

  datatype Fields =
    | EndFields
    | Field(lead: Text, key: Literal, gap: Text, before: Text, value: Value, trail: Text, next: Fields)

  function ValueText(v: Value): Text {
    match v
    case NullWord => ['n' as int, 'u' as int, 'l' as int, 'l' as int]
    case FalseWord => ['f' as int, 'a' as int, 'l' as int, 's' as int, 'e' as int]
    case TrueWord => ['t' as int, 'r' as int, 'u' as int, 'e' as int]
    case Figure(numeral, _) => NumeralText(numeral)
    case Quotation(literal) => LiteralText(literal)
    case NoItems(space) => ['[' as int] + (space + [']' as int])
    case List(items) => ['[' as int] + (ItemsText(items) + [']' as int])
    case NoFields(space) => ['{' as int] + (space + ['}' as int])
    case Record(fields) => ['{' as int] + (FieldsText(fields) + ['}' as int])
  }

  function ItemsText(items: Items): Text {
    match items
    case EndItems => []
    case Item(lead, value, trail, next) =>
      lead + (ValueText(value) + (trail + (if next.EndItems? then [] else [',' as int] + ItemsText(next))))
  }

  function FieldsText(fields: Fields): Text {
    match fields
    case EndFields => []
    case Field(lead, key, gap, before, value, trail, next) =>
      lead + (LiteralText(key) + (gap + ([':' as int] + (before + (ValueText(value)
              + (trail + (if next.EndFields? then [] else [',' as int] + FieldsText(next))))))))
  }

  /** Every byte up to 32 is space. */
  predicate Blank(w: Text) {
    forall i :: 0 <= i < |w| ==> w[i] <= 32
  }

  predicate Proper(v: Value) {
    match v
    case Figure(numeral, number) => WellFormed(numeral) && NumeralMeans(numeral, number)
    case Quotation(literal) => WellSpelled(literal)
    case NoItems(space) => Blank(space)
    case List(items) => items.Item? && ProperItems(items)
    case NoFields(space) => Blank(space)
    case Record(fields) => fields.Field? && ProperFields(fields)
    case _ => true
  }

  predicate ProperItems(items: Items) {
    items.Item? ==> Blank(items.lead) && Proper(items.value) && Blank(items.trail) && ProperItems(items.next)
  }

  predicate ProperFields(fields: Fields) {
    fields.Field? ==>
      && Blank(fields.lead) && WellSpelled(fields.key) && Blank(fields.gap)
      && Blank(fields.before) && Proper(fields.value) && Blank(fields.trail) && ProperFields(fields.next)
  }

  function TreeOf(v: Value): Json {
    match v
    case NullWord => Null
    case FalseWord => False
    case TrueWord => True
    case Figure(_, number) => Number(number)
    case Quotation(literal) => String(LiteralValue(literal))
    case NoItems(_) => Array(NoElement)
    case List(items) => Array(ElementsOf(items))
    case NoFields(_) => Object(NoMember)
    case Record(fields) => Object(MembersOf(fields))
  }

  function ElementsOf(items: Items): Elements {
    if items.EndItems? then NoElement else Element(TreeOf(items.value), ElementsOf(items.next))
  }

  function MembersOf(fields: Fields): Members {
    if fields.EndFields? then NoMember
    else Member(LiteralValue(fields.key), TreeOf(fields.value), MembersOf(fields.next))
  }

  /** Brackets around the innermost value. */
  function Depth(v: Value): nat {
    match v
    case NoItems(_) => 1
    case List(items) => 1 + ItemsDepth(items)
    case NoFields(_) => 1
    case Record(fields) => 1 + FieldsDepth(fields)
    case _ => 0
  }

  function ItemsDepth(items: Items): nat {
    if items.EndItems? then 0 else Max(Depth(items.value), ItemsDepth(items.next))
  }

  function FieldsDepth(fields: Fields): nat {
    if fields.EndFields? then 0 else Max(Depth(fields.value), FieldsDepth(fields.next))
  }

  // ---------- Shared steps ----------

  lemma Punctuation()
    ensures QUOTE == '"' as int && COMMA == ',' as int && COLON == ':' as int && MINUS == '-' as int
    ensures LBRACKET == '[' as int && RBRACKET == ']' as int && LBRACE == '{' as int && RBRACE == '}' as int
    ensures NULL_TEXT == ValueText(NullWord) && FALSE_TEXT == ValueText(FalseWord) && TRUE_TEXT == ValueText(TrueWord)
    ensures NESTING_LIMIT == 1000
  {
  }

  /** The first byte tells what follows; it is no space and closes nothing. */
  lemma ValueFirst(v: Value)
    requires Proper(v)
    ensures ValueText(v) != []
    ensures 32 < ValueText(v)[0] < 128 && ValueText(v)[0] != ']' as int && ValueText(v)[0] != '}' as int
    ensures v.Figure? ==> ValueText(v)[0] == '-' as int || IsDigit(ValueText(v)[0])
  {
    if v.Figure? {
      NumeralFirst(v.numeral);
    }
  }

  lemma NumeralFirst(n: Numeral)
    requires WellFormed(n)
    ensures NumeralText(n) != [] && (NumeralText(n)[0] == '-' as int || IsDigit(NumeralText(n)[0]))
  {
  }

  lemma SpaceOver(w: Text, s: Text)
    requires Blank(w) && s != []
    ensures SkipSpace(w + s) == SkipSpace(s) && (s[0] > 32 ==> SkipSpace(s) == s)
  {
    SkipSpaceOver(w, s);
  }

  lemma {:induction false} SpaceFound(s: Text) returns (w: Text)
    requires s != []
    ensures Blank(w) && s == w + SkipSpace(s)
  {
    if |s| > 1 && s[0] <= 32 {
      var rest := SpaceFound(s[1..]);
      w := [s[0]] + rest;
    } else {
      w := [];
    }
  }

  /** Over a punctuation byte and space. */
  lemma StepOver(p: byte, w: Text, s: Text)
    requires p > 32 && Blank(w) && Terminated(s)
    ensures Terminated([p] + (w + s)) && Advance([p] + (w + s)) == SkipSpace(s)
    ensures s[0] > 32 ==> SkipSpace(s) == s
  {
    AdvanceOver(p, w, s);
    Assoc([p], w, s);
  }

  lemma Opened(p: byte, s: Text)
    requires p > 32 && Terminated(s)
    ensures Terminated([p] + s) && ([p] + s)[0] == p && Advance([p] + s) == SkipSpace(s)
  {
    assert [] + s == s;
    StepOver(p, [], s);
  }

  lemma AdvanceFound(s: Text) returns (w: Text)
    requires Terminated(s) && s[0] != 0
    ensures Blank(w) && s == [s[0]] + (w + Advance(s))
  {
    w := SpaceFound(s[1..]);
  }

  // ---------- Every such text is parsed ----------

  /** Each value is read as its tree, up to its end. A numeral must not run into another byte of numbers. */
  lemma {:induction false} ValueReads(v: Value, k: Text, depth: nat)
    requires Proper(v) && depth + Depth(v) <= 1000 && Terminated(k) && (v.Figure? ==> Follow(k))
    ensures Terminated(ValueText(v) + k) && ParseValue(ValueText(v) + k, depth) == Accept(TreeOf(v), k)
    decreases v, 1
  {
    hide *;
    Punctuation();
    var s := ValueText(v) + k;
    ValueParts(v);
    ValueFirst(v);
    Behind(ValueText(v), k);
    LiteralStep(s, k, depth);
    DispatchStep(s, depth);
    match v
    case Figure(numeral, number) => NumeralReads(numeral, number, k);
    case Quotation(literal) => LiteralReads(literal, k);
    case NoItems(space) =>
      Bracketed('[' as int, space, ']' as int, k);
      EmptyListReads(space, k, depth);
    case List(items) =>
      Bracketed('[' as int, ItemsText(items), ']' as int, k);
      ListReads(items, k, depth);
    case NoFields(space) =>
      Bracketed('{' as int, space, '}' as int, k);
      EmptyRecordReads(space, k, depth);
    case Record(fields) =>
      Bracketed('{' as int, FieldsText(fields), '}' as int, k);
      RecordReads(fields, k, depth);
    case _ =>
  }

  /** One unfolding of the definitions. */
  lemma ValueParts(v: Value)
    ensures match v
            case NullWord => TreeOf(v) == Null
            case FalseWord => TreeOf(v) == False
            case TrueWord => TreeOf(v) == True
            case Figure(numeral, number) =>
              && ValueText(v) == NumeralText(numeral) && TreeOf(v) == Number(number) && Depth(v) == 0
              && (Proper(v) <==> WellFormed(numeral) && NumeralMeans(numeral, number))
            case Quotation(literal) =>
              && ValueText(v) == LiteralText(literal) && TreeOf(v) == String(LiteralValue(literal)) && Depth(v) == 0
              && (Proper(v) <==> WellSpelled(literal)) && ValueText(v)[0] == '"' as int
            case NoItems(space) =>
              && ValueText(v) == ['[' as int] + (space + [']' as int]) && TreeOf(v) == Array(NoElement) && Depth(v) == 1
              && (Proper(v) <==> Blank(space)) && ValueText(v)[0] == '[' as int
            case List(items) =>
              && ValueText(v) == ['[' as int] + (ItemsText(items) + [']' as int])
              && TreeOf(v) == Array(ElementsOf(items)) && Depth(v) == 1 + ItemsDepth(items)
              && (Proper(v) <==> items.Item? && ProperItems(items)) && ValueText(v)[0] == '[' as int
            case NoFields(space) =>
              && ValueText(v) == ['{' as int] + (space + ['}' as int]) && TreeOf(v) == Object(NoMember) && Depth(v) == 1
              && (Proper(v) <==> Blank(space)) && ValueText(v)[0] == '{' as int
            case Record(fields) =>
              && ValueText(v) == ['{' as int] + (FieldsText(fields) + ['}' as int])
              && TreeOf(v) == Object(MembersOf(fields)) && Depth(v) == 1 + FieldsDepth(fields)
              && (Proper(v) <==> fields.Field? && ProperFields(fields)) && ValueText(v)[0] == '{' as int
  {
  }

  lemma Bracketed(open: byte, inner: Text, close: byte, k: Text)
    ensures ([open] + (inner + [close])) + k == [open] + (inner + ([close] + k))
  {
    Assoc([open], inner + [close], k);
    Assoc(inner, [close], k);
  }

  lemma EmptyListReads(space: Text, k: Text, depth: nat)
    requires Blank(space) && depth < 1000 && Terminated(k)
    ensures var s := ['[' as int] + (space + ([']' as int] + k));
            Terminated(s) && s[0] == LBRACKET && ParseArray(s, depth) == Accept(Array(NoElement), k)
  {
    hide SkipSpace;
    hide Advance;
    hide ParseArray;
    var close := [']' as int] + k;
    Behind([']' as int], k);
    StepOver('[' as int, space, close);
    EmptyArrayStep(['[' as int] + (space + close), depth, close, k);
  }

  lemma {:induction false} ListReads(items: Items, k: Text, depth: nat)
    requires items.Item? && ProperItems(items) && depth + 1 + ItemsDepth(items) <= 1000 && Terminated(k)
    ensures var s := ['[' as int] + (ItemsText(items) + ([']' as int] + k));
            Terminated(s) && s[0] == LBRACKET && ParseArray(s, depth) == Accept(Array(ElementsOf(items)), k)
    decreases items, 1
  {
    hide *;
    Punctuation();
    var close := [']' as int] + k;
    var inner := ItemsText(items) + close;
    Behind([']' as int], k);
    ItemsRead(items, close, depth + 1);
    Opened('[' as int, inner);
    ArrayStep(['[' as int] + inner, depth, ElementsOf(items), SkipSpace(inner), close, k);
  }

  lemma {:induction false} ItemsRead(items: Items, k: Text, depth: nat)
    requires items.Item? && ProperItems(items) && depth + ItemsDepth(items) <= 1000
    requires Terminated(k) && k[0] == ']' as int
    ensures var s := ItemsText(items) + k;
            && Terminated(s) && SkipSpace(s)[0] != ']' as int && Terminated(SkipSpace(s))
            && ParseElements(SkipSpace(s), depth) == Accept(ElementsOf(items), k)
    decreases items, 0
  {
    hide *;
    Punctuation();
    ItemsParts(items, k);
    var value, next := items.value, items.next;
    var rest := if next.EndItems? then k else [',' as int] + (ItemsText(next) + k);
    var after := items.trail + rest;
    var text := ValueText(value) + after;
    if next.Item? {
      ItemsRead(next, k, depth);
      Opened(',' as int, ItemsText(next) + k);
    }
    SpacedOut(items.trail, rest);
    ValueReads(value, after, depth);
    ValueFirst(value);
    Behind(ValueText(value), after);
    SpaceOver(items.lead, text);
    Behind(items.lead, text);
    if next.EndItems? {
      LastItemStep(text, depth, TreeOf(value), after);
    } else {
      ElementsStep(text, depth, TreeOf(value), after, ElementsOf(next), k);
    }
  }

  lemma ItemsParts(items: Items, k: Text)
    requires items.Item?
    ensures var rest := if items.next.EndItems? then k else [',' as int] + (ItemsText(items.next) + k);
            ItemsText(items) + k == items.lead + (ValueText(items.value) + (items.trail + rest))
    ensures ElementsOf(items) == Element(TreeOf(items.value), ElementsOf(items.next))
    ensures items.next.EndItems? ==> ElementsOf(items.next) == NoElement
    ensures ItemsDepth(items) >= Depth(items.value) && ItemsDepth(items) >= ItemsDepth(items.next)
    ensures ItemsDepth(items) == Depth(items.value) || ItemsDepth(items) == ItemsDepth(items.next)
    ensures items.next.EndItems? ==> ItemsDepth(items.next) == 0 && ProperItems(items.next)
    ensures ProperItems(items) <==>
              Blank(items.lead) && Proper(items.value) && Blank(items.trail) && ProperItems(items.next)
  {
    hide ValueText;
    var last := if items.next.EndItems? then [] else [',' as int] + ItemsText(items.next);
    ItemsTextStep(items, last);
    hide ItemsText;
    var v := ValueText(items.value);
    Assoc(items.lead, v + (items.trail + last), k);
    Assoc(v, items.trail + last, k);
    Assoc(items.trail, last, k);
    if items.next.Item? {
      Assoc([',' as int], ItemsText(items.next), k);
    } else {
      assert last + k == k;
    }
  }

  lemma ItemsTextStep(items: Items, last: Text)
    requires items.Item? && last == if items.next.EndItems? then [] else [',' as int] + ItemsText(items.next)
    ensures ItemsText(items) == items.lead + (ValueText(items.value) + (items.trail + last))
  {
  }

  /** Space and a comma or a closing bracket. */
  lemma SpacedOut(w: Text, rest: Text)
    requires Blank(w) && Terminated(rest) && (rest[0] == ',' as int || rest[0] == ']' as int || rest[0] == '}' as int)
    ensures Follow(w + rest) && Terminated(w + rest) && SkipSpace(w + rest) == rest
  {
    SpaceOver(w, rest);
    Behind(w, rest);
  }

  lemma LastItemStep(s: Text, depth: nat, item: Json, after: Text)
    requires Terminated(s) && ParseValue(s, depth) == Accept(item, after) && SkipSpace(after)[0] != COMMA
    ensures ParseElements(s, depth) == Accept(Element(item, NoElement), SkipSpace(after))
  {
    hide ParseValue;
    hide SkipSpace;
  }

  lemma EmptyRecordReads(space: Text, k: Text, depth: nat)
    requires Blank(space) && depth < 1000 && Terminated(k)
    ensures var s := ['{' as int] + (space + (['}' as int] + k));
            Terminated(s) && s[0] == LBRACE && ParseObject(s, depth) == Accept(Object(NoMember), k)
  {
    hide SkipSpace;
    hide Advance;
    hide ParseObject;
    var close := ['}' as int] + k;
    Behind(['}' as int], k);
    StepOver('{' as int, space, close);
    EmptyObjectStep(['{' as int] + (space + close), depth, close, k);
  }

  lemma {:induction false} RecordReads(fields: Fields, k: Text, depth: nat)
    requires fields.Field? && ProperFields(fields) && depth + 1 + FieldsDepth(fields) <= 1000 && Terminated(k)
    ensures var s := ['{' as int] + (FieldsText(fields) + (['}' as int] + k));
            Terminated(s) && s[0] == LBRACE && ParseObject(s, depth) == Accept(Object(MembersOf(fields)), k)
    decreases fields, 1
  {
    hide *;
    Punctuation();
    var close := ['}' as int] + k;
    var inner := FieldsText(fields) + close;
    Behind(['}' as int], k);
    FieldsRead(fields, close, depth + 1);
    Opened('{' as int, inner);
    ObjectStep(['{' as int] + inner, depth, MembersOf(fields), SkipSpace(inner), close, k);
  }

  lemma {:induction false} FieldsRead(fields: Fields, k: Text, depth: nat)
    requires fields.Field? && ProperFields(fields) && depth + FieldsDepth(fields) <= 1000
    requires Terminated(k) && k[0] == '}' as int
    ensures var s := FieldsText(fields) + k;
            && Terminated(s) && SkipSpace(s)[0] != '}' as int && Terminated(SkipSpace(s))
            && ParseMembers(SkipSpace(s), depth) == Accept(MembersOf(fields), k)
    decreases fields, 0
  {
    hide *;
    Punctuation();
    FieldsParts(fields, k);
    var next := fields.next;
    var rest := if next.EndFields? then k else [',' as int] + (FieldsText(next) + k);
    var after := fields.trail + rest;
    if next.Field? {
      FieldsRead(next, k, depth);
      Opened(',' as int, FieldsText(next) + k);
    }
    SpacedOut(fields.trail, rest);
    ValueReads(fields.value, after, depth);
    var text := FieldReads(fields, after, depth);
    SpaceOver(fields.lead, text);
    Behind(fields.lead, text);
    var member := Member(LiteralValue(fields.key), TreeOf(fields.value), NoMember);
    if next.EndFields? {
      LastMemberStep(text, depth, member, after);
    } else {
      MembersStep(text, depth, member, after, MembersOf(next), k);
    }
  }

  /** A key, a colon and a value. */
  lemma FieldReads(field: Fields, after: Text, depth: nat) returns (text: Text)
    requires field.Field? && WellSpelled(field.key) && Blank(field.gap) && Blank(field.before) && Proper(field.value)
    requires Terminated(after) && Terminated(ValueText(field.value) + after)
    requires ParseValue(ValueText(field.value) + after, depth) == Accept(TreeOf(field.value), after)
    ensures text == LiteralText(field.key)
                    + (field.gap + ([':' as int] + (field.before + (ValueText(field.value) + after))))
    ensures Terminated(text) && text[0] == '"' as int
    ensures ParseMember(text, depth) == Accept(Member(LiteralValue(field.key), TreeOf(field.value), NoMember), after)
  {
    hide *;
    Punctuation();
    var value := ValueText(field.value) + after;
    ValueFirst(field.value);
    var colon := [':' as int] + (field.before + value);
    StepOver(':' as int, field.before, value);
    Behind([':' as int], field.before + value);
    SpaceOver(field.gap, colon);
    Behind(field.gap, colon);
    LiteralReads(field.key, field.gap + colon);
    text := LiteralText(field.key) + (field.gap + colon);
    QuoteFirst(field.key, field.gap + colon);
    MemberStep(text, depth, LiteralValue(field.key), field.gap + colon, TreeOf(field.value), after);
  }

  lemma QuoteFirst(l: Literal, k: Text)
    ensures (LiteralText(l) + k)[0] == '"' as int
  {
  }

  lemma FieldsParts(fields: Fields, k: Text)
    requires fields.Field?
    ensures var rest := if fields.next.EndFields? then k else [',' as int] + (FieldsText(fields.next) + k);
            FieldsText(fields) + k
            == fields.lead + (LiteralText(fields.key)
                              + (fields.gap + ([':' as int] + (fields.before + (ValueText(fields.value)
                                 + (fields.trail + rest))))))
    ensures MembersOf(fields) == Member(LiteralValue(fields.key), TreeOf(fields.value), MembersOf(fields.next))
    ensures fields.next.EndFields? ==> MembersOf(fields.next) == NoMember
    ensures FieldsDepth(fields) >= Depth(fields.value) && FieldsDepth(fields) >= FieldsDepth(fields.next)
    ensures FieldsDepth(fields) == Depth(fields.value) || FieldsDepth(fields) == FieldsDepth(fields.next)
    ensures fields.next.EndFields? ==> FieldsDepth(fields.next) == 0 && ProperFields(fields.next)
    ensures ProperFields(fields) <==>
              && Blank(fields.lead) && WellSpelled(fields.key) && Blank(fields.gap)
              && Blank(fields.before) && Proper(fields.value) && Blank(fields.trail) && ProperFields(fields.next)
  {
    hide ValueText;
    hide LiteralText;
    hide WellSpelled;
    hide LiteralValue;
    var last := if fields.next.EndFields? then [] else [',' as int] + FieldsText(fields.next);
    FieldsTextStep(fields, last);
    hide FieldsText;
    var key, v := LiteralText(fields.key), ValueText(fields.value);
    FieldGlue(fields.lead, key, fields.gap, fields.before, v, fields.trail, last, k);
    if fields.next.Field? {
      Assoc([',' as int], FieldsText(fields.next), k);
    } else {
      assert last + k == k;
    }
  }

  lemma FieldsTextStep(fields: Fields, last: Text)
    requires fields.Field? && last == if fields.next.EndFields? then [] else [',' as int] + FieldsText(fields.next)
    ensures FieldsText(fields)
            == fields.lead + (LiteralText(fields.key)
                              + (fields.gap + ([':' as int] + (fields.before + (ValueText(fields.value)
                                 + (fields.trail + last))))))
  {
  }

  lemma FieldGlue(
      lead: Text, key: Text, gap: Text, before: Text, v: Text, trail: Text, last: Text, k: Text)
    ensures (lead + (key + (gap + ([':' as int] + (before + (v + (trail + last))))))) + k
            == lead + (key + (gap + ([':' as int] + (before + (v + (trail + (last + k)))))))
  {
    Fold([':' as int], before, v, trail, last, k);
    var tail := [':' as int] + (before + (v + (trail + last)));
    Assoc(gap, tail, k);
    Assoc(key, gap + tail, k);
    Assoc(lead, key + (gap + tail), k);
  }

  // ---------- Nothing else is ----------

  /** Whatever is taken for a value is the text of one, and the tree is the tree of it. */
  lemma {:induction false} ValueFound(s: Text, depth: nat) returns (v: Value)
    requires Terminated(s) && depth <= 1000 && ParseValue(s, depth).Accept?
    ensures Proper(v) && depth + Depth(v) <= 1000
    ensures s == ValueText(v) + ParseValue(s, depth).rest && ParseValue(s, depth).value == TreeOf(v)
    decreases |s|, 2
  {
    hide *;
    Punctuation();
    ValueCases(s, depth);
    var r := ParseValue(s, depth);
    if r.value == Null && s == NULL_TEXT + r.rest {
      v := NullWord;
    } else if r.value == False && s == FALSE_TEXT + r.rest {
      v := FalseWord;
    } else if r.value == True && s == TRUE_TEXT + r.rest {
      v := TrueWord;
    } else if s[0] == QUOTE {
      var literal := LiteralFound(s);
      v := Quotation(literal);
    } else if s[0] == LBRACKET {
      v := ListFound(s, depth);
    } else if s[0] == LBRACE {
      v := RecordFound(s, depth);
    } else {
      var numeral := NumeralFound(s);
      v := Figure(numeral, r.value.value);
    }
    ValueParts(v);
    WordParts(v);
  }

  lemma WordParts(v: Value)
    ensures v.NullWord? || v.FalseWord? || v.TrueWord? ==> Proper(v) && Depth(v) == 0
  {
  }

  lemma ValueCases(s: Text, depth: nat)
    requires Terminated(s) && ParseValue(s, depth).Accept?
    ensures var r := ParseValue(s, depth);
            || (r.value == Null && s == NULL_TEXT + r.rest)
            || (r.value == False && s == FALSE_TEXT + r.rest)
            || (r.value == True && s == TRUE_TEXT + r.rest)
            || (&& s[0] == QUOTE && ParseString(s).Accept?
                && r == Accept(String(ParseString(s).value), ParseString(s).rest))
            || ((s[0] == '-' as int || IsDigit(s[0])) && r == ParseNumber(s))
            || (s[0] == LBRACKET && r == ParseArray(s, depth))
            || (s[0] == LBRACE && r == ParseObject(s, depth))
    ensures !IsDigit(QUOTE) && !IsDigit(LBRACKET) && !IsDigit(LBRACE)
  {
    hide ParseString;
    hide ParseNumber;
    hide ParseArray;
    hide ParseObject;
    if StartsWith(s, NULL_TEXT) {
      assert s == s[..4] + s[4..];
    } else if StartsWith(s, FALSE_TEXT) {
      assert s == s[..5] + s[5..];
    } else if StartsWith(s, TRUE_TEXT) {
      assert s == s[..4] + s[4..];
    }
  }

  lemma {:induction false} ListFound(s: Text, depth: nat) returns (v: Value)
    requires Terminated(s) && s[0] == LBRACKET && ParseArray(s, depth).Accept?
    ensures (v.NoItems? || v.List?) && Proper(v) && depth + Depth(v) <= 1000
    ensures s == ValueText(v) + ParseArray(s, depth).rest && ParseArray(s, depth).value == TreeOf(v)
    decreases |s|, 1
  {
    hide *;
    Punctuation();
    ArrayCases(s, depth);
    var first, k := Advance(s), ParseArray(s, depth).rest;
    var lead := AdvanceFound(s);
    if first[0] == RBRACKET {
      v := NoItems(lead);
      Bracketed('[' as int, lead, ']' as int, k);
    } else {
      var items := ItemsFound(lead, first, depth + 1);
      v := List(items);
      Bracketed('[' as int, ItemsText(items), ']' as int, k);
    }
    ValueParts(v);
  }

  lemma ArrayCases(s: Text, depth: nat)
    requires Terminated(s) && s[0] == LBRACKET && ParseArray(s, depth).Accept?
    ensures depth < NESTING_LIMIT
    ensures var first, r := Advance(s), ParseArray(s, depth);
            if first[0] == RBRACKET then r.value == Array(NoElement) && first == [RBRACKET] + r.rest
            else
              var es := ParseElements(first, depth + 1);
              es.Accept? && r.value == Array(es.value) && es.rest == [RBRACKET] + r.rest
  {
    hide ParseElements;
    hide Advance;
  }

  lemma {:induction false} ItemsFound(lead: Text, s: Text, depth: nat) returns (items: Items)
    requires Blank(lead) && Terminated(s) && depth <= 1000 && ParseElements(s, depth).Accept?
    ensures items.Item? && ProperItems(items) && depth + ItemsDepth(items) <= 1000
    ensures lead + s == ItemsText(items) + ParseElements(s, depth).rest
    ensures ParseElements(s, depth).value == ElementsOf(items)
    decreases |s|, 3
  {
    hide *;
    Punctuation();
    ElementsCases(s, depth);
    var item, k := ParseValue(s, depth), ParseElements(s, depth).rest;
    var v := ValueFound(s, depth);
    var trail := SpaceFound(item.rest);
    var after := SkipSpace(item.rest);
    var next := EndItems;
    if after[0] == COMMA {
      var space := AdvanceFound(after);
      next := ItemsFound(space, Advance(after), depth);
    }
    items := Item(lead, v, trail, next);
    ItemsParts(items, k);
  }

  lemma ElementsCases(s: Text, depth: nat)
    requires Terminated(s) && ParseElements(s, depth).Accept?
    ensures var item, r := ParseValue(s, depth), ParseElements(s, depth);
            && item.Accept?
            && var after := SkipSpace(item.rest);
               if after[0] != COMMA then r == Accept(Element(item.value, NoElement), after)
               else
                 var more := ParseElements(Advance(after), depth);
                 && more.Accept? && r == Accept(Element(item.value, more.value), more.rest)
                 && |Advance(after)| < |s|
  {
    hide ParseValue;
    hide Advance;
    hide SkipSpace;
  }

  lemma {:induction false} RecordFound(s: Text, depth: nat) returns (v: Value)
    requires Terminated(s) && s[0] == LBRACE && ParseObject(s, depth).Accept?
    ensures (v.NoFields? || v.Record?) && Proper(v) && depth + Depth(v) <= 1000
    ensures s == ValueText(v) + ParseObject(s, depth).rest && ParseObject(s, depth).value == TreeOf(v)
    decreases |s|, 1
  {
    hide *;
    Punctuation();
    ObjectCases(s, depth);
    var first, k := Advance(s), ParseObject(s, depth).rest;
    var lead := AdvanceFound(s);
    if first[0] == RBRACE {
      v := NoFields(lead);
      Bracketed('{' as int, lead, '}' as int, k);
    } else {
      var fields := FieldsFound(lead, first, depth + 1);
      v := Record(fields);
      Bracketed('{' as int, FieldsText(fields), '}' as int, k);
    }
    ValueParts(v);
  }

  lemma ObjectCases(s: Text, depth: nat)
    requires Terminated(s) && s[0] == LBRACE && ParseObject(s, depth).Accept?
    ensures depth < NESTING_LIMIT
    ensures var first, r := Advance(s), ParseObject(s, depth);
            if first[0] == RBRACE then r.value == Object(NoMember) && first == [RBRACE] + r.rest
            else
              var ms := ParseMembers(first, depth + 1);
              ms.Accept? && r.value == Object(ms.value) && ms.rest == [RBRACE] + r.rest
  {
    hide ParseMembers;
    hide Advance;
  }

  lemma {:induction false} FieldsFound(lead: Text, s: Text, depth: nat) returns (fields: Fields)
    requires Blank(lead) && Terminated(s) && depth <= 1000 && ParseMembers(s, depth).Accept?
    ensures fields.Field? && ProperFields(fields) && depth + FieldsDepth(fields) <= 1000
    ensures lead + s == FieldsText(fields) + ParseMembers(s, depth).rest
    ensures ParseMembers(s, depth).value == MembersOf(fields)
    decreases |s|, 4
  {
    hide *;
    Punctuation();
    MembersCases(s, depth);
    var member, k := ParseMember(s, depth), ParseMembers(s, depth).rest;
    var key, gap, before, v := FieldFound(s, depth);
    var trail := SpaceFound(member.rest);
    var after := SkipSpace(member.rest);
    var next := EndFields;
    if after[0] == COMMA {
      var space := AdvanceFound(after);
      next := FieldsFound(space, Advance(after), depth);
    }
    fields := Field(lead, key, gap, before, v, trail, next);
    FieldsParts(fields, k);
  }

  lemma MembersCases(s: Text, depth: nat)
    requires Terminated(s) && ParseMembers(s, depth).Accept?
    ensures var member, r := ParseMember(s, depth), ParseMembers(s, depth);
            && member.Accept?
            && var after := SkipSpace(member.rest);
               if after[0] != COMMA then r == Accept(member.value, after)
               else
                 var more := ParseMembers(Advance(after), depth);
                 && more.Accept? && r == Accept(member.value.(next := more.value), more.rest)
                 && |Advance(after)| < |s|
  {
    hide ParseMember;
    hide Advance;
    hide SkipSpace;
  }

  lemma {:induction false} FieldFound(s: Text, depth: nat) returns (key: Literal, gap: Text, before: Text, v: Value)
    requires Terminated(s) && depth <= 1000 && ParseMember(s, depth).Accept?
    ensures WellSpelled(key) && Blank(gap) && Blank(before) && Proper(v) && depth + Depth(v) <= 1000
    ensures var r := ParseMember(s, depth);
            && s == LiteralText(key) + (gap + ([':' as int] + (before + (ValueText(v) + r.rest))))
            && r.value == Member(LiteralValue(key), TreeOf(v), NoMember)
    decreases |s|, 3
  {
    hide *;
    Punctuation();
    MemberCases(s, depth);
    key := LiteralFound(s);
    var behind := ParseString(s).rest;
    gap := SpaceFound(behind);
    var colon := SkipSpace(behind);
    before := AdvanceFound(colon);
    v := ValueFound(Advance(colon), depth);
  }

  lemma MemberCases(s: Text, depth: nat)
    requires Terminated(s) && ParseMember(s, depth).Accept?
    ensures var key, r := ParseString(s), ParseMember(s, depth);
            && key.Accept?
            && var colon := SkipSpace(key.rest);
               && colon[0] == COLON && |Advance(colon)| < |s|
               && var item := ParseValue(Advance(colon), depth);
                  item.Accept? && r == Accept(Member(key.value, item.value, NoMember), item.rest)
  {
    hide ParseString;
    hide ParseValue;
    hide Advance;
    hide SkipSpace;
  }

  // ---------- Documents ----------

  /** A byte order mark or none, then a value with space around it. */
  datatype Document = Document(mark: bool, lead: Text, value: Value, trail: Text)

  predicate ProperDocument(d: Document) {
    Blank(d.lead) && Proper(d.value) && Depth(d.value) <= 1000 && Blank(d.trail)
  }

  function Mark(mark: bool): Text {
    if mark then [0xEF, 0xBB, 0xBF] else []
  }

  /** The bytes of the document and the NUL behind them. */
  function DocumentText(d: Document): Text {
    Mark(d.mark) + (d.lead + (ValueText(d.value) + (d.trail + [0])))
  }

  /** A value at the start of the text is read, whatever follows it, unless that makes a numeral longer. */
  lemma StartReads(mark: bool, lead: Text, v: Value, k: Text)
    requires Blank(lead) && Proper(v) && Depth(v) <= 1000 && Terminated(k) && (v.Figure? ==> Follow(k))
    ensures var s := Mark(mark) + (lead + (ValueText(v) + k));
            Terminated(s) && ParseDocument(s, false) == Accept(TreeOf(v), k)
  {
    hide *;
    var text := ValueText(v) + k;
    ValueReads(v, k, 0);
    ValueFirst(v);
    SpaceOver(lead, text);
    Unmarked(mark, lead, ValueText(v), k);
    DocumentStep(Mark(mark) + (lead + text));
  }

  lemma Unmarked(mark: bool, lead: Text, text: Text, k: Text)
    requires Blank(lead) && text != [] && 32 < text[0] < 128 && Terminated(k)
    ensures var s := lead + (text + k);
            Terminated(Mark(mark) + s) && WithoutBom(Mark(mark) + s) == s
    ensures (text + k)[0] == text[0]
  {
    var s := lead + (text + k);
    if mark {
      assert (Mark(mark) + s)[..3] == [0xEF, 0xBB, 0xBF] && (Mark(mark) + s)[3..] == s;
    } else {
      assert Mark(mark) + s == s;
      NotLiteral(s, [0xEF, 0xBB, 0xBF]);
    }
  }

  lemma MarkFound(s: Text) returns (mark: bool)
    requires Terminated(s)
    ensures s == Mark(mark) + WithoutBom(s)
  {
    mark := |s| > 4 && StartsWith(s, [0xEF, 0xBB, 0xBF]);
    if mark {
      assert s == s[..3] + s[3..];
    }
  }

  lemma DocumentStep(s: Text)
    requires Terminated(s)
    ensures ParseDocument(s, false) == ParseValue(SkipSpace(WithoutBom(s)), 0)
    ensures ParseDocument(s, true).Accept? <==>
              ParseDocument(s, false).Accept? && SkipSpace(ParseDocument(s, false).rest)[0] == 0
    ensures ParseDocument(s, true).Accept? ==>
              && ParseDocument(s, true).value == ParseDocument(s, false).value
              && ParseDocument(s, true).rest == SkipSpace(ParseDocument(s, false).rest)
  {
    hide ParseValue;
    hide SkipSpace;
    hide WithoutBom;
  }

  /** And what is read is a value at the start of the text. */
  lemma StartFound(s: Text) returns (mark: bool, lead: Text, v: Value)
    requires Terminated(s) && ParseDocument(s, false).Accept?
    ensures Blank(lead) && Proper(v) && Depth(v) <= 1000
    ensures s == Mark(mark) + (lead + (ValueText(v) + ParseDocument(s, false).rest))
    ensures ParseDocument(s, false).value == TreeOf(v)
  {
    hide *;
    DocumentStep(s);
    mark := MarkFound(s);
    lead := SpaceFound(WithoutBom(s));
    v := ValueFound(SkipSpace(WithoutBom(s)), 0);
  }

  lemma TrailStep(w: Text)
    requires Blank(w)
    ensures Follow(w + [0]) && SkipSpace(w + [0]) == [0]
  {
    SpaceOver(w, [0]);
  }

  lemma TrailFound(k: Text) returns (w: Text)
    requires Terminated(k) && SkipSpace(k)[0] == 0
    ensures Blank(w) && k == w + [0] && SkipSpace(k) == [0]
  {
    w := SpaceFound(k);
  }

  /**
    A parse that must reach the end succeeds exactly on documents, and yields the tree
    of the document. There is one tree for each text, since the parser is a function.
   */
  lemma DocumentAccepted(s: Text, t: Json)
    requires Terminated(s)
    ensures ParseDocument(s, true) == Accept(t, [0]) <==>
              exists d :: ProperDocument(d) && s == DocumentText(d) && TreeOf(d.value) == t
    ensures ParseDocument(s, true).Accept? ==> ParseDocument(s, true).rest == [0]
  {
    hide *;
    if ParseDocument(s, true).Accept? {
      var d := DocumentFound(s);
    }
    forall d | ProperDocument(d) && s == DocumentText(d) && TreeOf(d.value) == t
      ensures ParseDocument(s, true) == Accept(t, [0])
    {
      DocumentReads(d);
    }
  }

  lemma DocumentReads(d: Document)
    requires ProperDocument(d)
    ensures Terminated(DocumentText(d)) && ParseDocument(DocumentText(d), true) == Accept(TreeOf(d.value), [0])
  {
    hide *;
    DocumentParts(d);
    TrailStep(d.trail);
    FollowStep(d.trail + [0]);
    StartReads(d.mark, d.lead, d.value, d.trail + [0]);
    DocumentStep(DocumentText(d));
  }

  lemma DocumentFound(s: Text) returns (d: Document)
    requires Terminated(s) && ParseDocument(s, true).Accept?
    ensures ProperDocument(d) && s == DocumentText(d) && ParseDocument(s, true) == Accept(TreeOf(d.value), [0])
  {
    hide *;
    DocumentStep(s);
    var mark, lead, v := StartFound(s);
    var trail := TrailFound(ParseDocument(s, false).rest);
    d := Document(mark, lead, v, trail);
    DocumentParts(d);
  }

  lemma DocumentParts(d: Document)
    ensures DocumentText(d) == Mark(d.mark) + (d.lead + (ValueText(d.value) + (d.trail + [0])))
    ensures ProperDocument(d) <==> Blank(d.lead) && Proper(d.value) && Depth(d.value) <= 1000 && Blank(d.trail)
  {
  }
}
