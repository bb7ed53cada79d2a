/**
  The texts that cJSON_Minify can read, put together from their parts, and what is left
  of each part: space and comments go, strings and all other bytes stay.
 */
module MinifyParts {
  import opened Bytes
  import opened JsonTree
  import opened JsonGrammar
  import opened JsonTokens
  import opened JsonMinify

  datatype Part =
    | Gap(b: byte)
    | LineRemark(body: Text)
    | BlockRemark(body: Text)
    | Quotation(body: Text)
    | Other(b: byte)

  /** A block comment may share its star with its end. */
  function PartText(p: Part): (r: Text)
    ensures r != []
  {
    match p
    case Gap(b) => [b]
    case LineRemark(body) => ['/' as int, '/' as int] + body
    case BlockRemark(body) => ['/' as int] + (body + ['*' as int, '/' as int])
    case Quotation(body) => ['"' as int] + body + ['"' as int]
    case Other(b) => [b]
  }

  function PartsText(ps: seq<Part>): Text {
    if ps == [] then [] else PartText(ps[0]) + PartsText(ps[1..])
  }

  function Kept(ps: seq<Part>): Text {
    if ps == [] then []
    else (if ps[0].Quotation? || ps[0].Other? then PartText(ps[0]) else []) + Kept(ps[1..])
  }

  predicate Space(b: byte) {
    b == ' ' as int || b == '\t' as int || b == '\r' as int || b == '\n' as int
  }

  predicate NoEnd(body: Text) {
    forall i :: 0 <= i < |body| - 1 ==> !(body[i] == '*' as int && body[i + 1] == '/' as int)
  }

  /** The part can stand in front of `rest`. */
  predicate Stands(p: Part, rest: Text) {
    match p
    case Gap(b) => Space(b)
    case LineRemark(body) => '\n' as int !in body && (rest == [] || rest[0] == '\n' as int)
    case BlockRemark(body) => (body == [] || body[0] == '*' as int) && NoEnd(body)
    case Quotation(body) => Paired(body)
    case Other(b) =>
      && !Space(b) && b != '"' as int
      && (b == '/' as int ==> rest == [] || (rest[0] != '/' as int && rest[0] != '*' as int))
  }

  predicate AllStand(ps: seq<Part>) {
    ps == [] || (Stands(ps[0], PartsText(ps[1..])) && AllStand(ps[1..]))
  }

  // ---------- One part ----------

  lemma {:induction false} LineSkipped(body: Text, rest: Text)
    requires '\n' as int !in body && (rest == [] || rest[0] == '\n' as int)
    ensures AfterLine(body + rest) == rest
  {
    if body == [] {
      assert body + rest == rest;
    } else {
      assert (body + rest)[1..] == body[1..] + rest;
      LineSkipped(body[1..], rest);
    }
  }

  lemma {:induction false} LineFound(s: Text) returns (body: Text)
    ensures '\n' as int !in body && s == body + AfterLine(s)
    ensures AfterLine(s) == [] || AfterLine(s)[0] == '\n' as int
  {
    if s == [] || s[0] == '\n' as int {
      body := [];
    } else {
      body := LineFound(s[1..]);
      body := [s[0]] + body;
    }
  }

  lemma {:induction false} BlockSkipped(body: Text, rest: Text)
    requires NoEnd(body)
    ensures AfterComment(body + (['*' as int, '/' as int] + rest)) == Some(rest)
  {
    var s := body + (['*' as int, '/' as int] + rest);
    if body == [] {
      assert s[2..] == rest;
    } else {
      assert s[1..] == body[1..] + (['*' as int, '/' as int] + rest);
      assert |body| > 1 ==> s[1] == body[1];
      BlockSkipped(body[1..], rest);
    }
  }

  lemma {:induction false} BlockFound(s: Text) returns (body: Text)
    requires AfterComment(s).Some?
    ensures NoEnd(body) && s == body + (['*' as int, '/' as int] + AfterComment(s).value)
  {
    if s[0] == '*' as int && |s| > 1 && s[1] == '/' as int {
      body := [];
      assert s == ['*' as int, '/' as int] + s[2..];
    } else {
      var rest := BlockFound(s[1..]);
      body := [s[0]] + rest;
      assert |body| > 1 ==> body[1] == s[1];
      assert forall i :: 1 <= i < |body| - 1 ==> body[i] == rest[i - 1] && body[i + 1] == rest[i];
    }
  }

  /** What one part contributes. */
  lemma PartMinified(p: Part, rest: Text)
    requires Stands(p, rest)
    ensures Minified(PartText(p) + rest)
            == if p.Quotation? || p.Other? then Prepend(PartText(p), Minified(rest)) else Minified(rest)
  {
    hide Minified;
    match p
    case Gap(b) =>
      MinifiedStep([b] + rest);
      assert ([b] + rest)[1..] == rest;
    case LineRemark(body) => LineMinified(body, rest);
    case BlockRemark(body) => BlockMinified(body, rest);
    case Quotation(body) => QuotationMinified(body, rest);
    case Other(b) =>
      MinifiedStep([b] + rest);
      assert ([b] + rest)[1..] == rest;
  }

  lemma LineMinified(body: Text, rest: Text)
    requires Stands(LineRemark(body), rest)
    ensures Minified(PartText(LineRemark(body)) + rest) == Minified(rest)
  {
    hide Minified;
    hide AfterLine;
    var s := PartText(LineRemark(body)) + rest;
    MinifiedStep(s);
    assert s[1..] == ['/' as int] + body + rest;
    LineSkipped(['/' as int] + body, rest);
  }

  lemma BlockMinified(body: Text, rest: Text)
    requires Stands(BlockRemark(body), rest)
    ensures Minified(PartText(BlockRemark(body)) + rest) == Minified(rest)
  {
    hide Minified;
    hide AfterComment;
    var s := PartText(BlockRemark(body)) + rest;
    MinifiedStep(s);
    var inner := body + (['*' as int, '/' as int] + rest);
    Assoc(['/' as int], body + ['*' as int, '/' as int], rest);
    Assoc(body, ['*' as int, '/' as int], rest);
    assert s[1..] == inner && s[1] == inner[0];
    BlockSkipped(body, rest);
  }

  lemma QuotationMinified(body: Text, rest: Text)
    requires Paired(body)
    ensures Minified(PartText(Quotation(body)) + rest) == Prepend(PartText(Quotation(body)), Minified(rest))
  {
    hide Minified;
    hide ClosingQuote;
    hide Paired;
    hide Prepend;
    var s, end := PartText(Quotation(body)) + rest, 1 + |body|;
    MinifiedStep(s);
    assert s[1..end] == body && s[end] == '"' as int;
    PairedCloses(s, 1, body);
    assert s[..end + 1] == PartText(Quotation(body)) && s[end + 1..] == rest;
  }

  /** Minifying keeps exactly the strings and the other bytes, in order. */
  lemma {:induction false} PartsMinified(ps: seq<Part>)
    requires AllStand(ps)
    ensures Minified(PartsText(ps)) == Some(Kept(ps))
  {
    hide Minified;
    if ps == [] {
      NothingMinified();
    } else {
      PartMinified(ps[0], PartsText(ps[1..]));
      PartsMinified(ps[1..]);
      assert [] + Kept(ps[1..]) == Kept(ps[1..]);
    }
  }

  lemma NothingMinified()
    ensures Minified([]) == Some([])
  {
  }

  lemma FirstTwo(s: Text)
    requires |s| >= 2
    ensures s == [s[0], s[1]] + s[2..] && s == [s[0]] + s[1..] && s[1..][0] == s[1]
  {
  }

  /** The first part of a text that can be minified. */
  lemma PartFound(s: Text) returns (p: Part, rest: Text)
    requires s != [] && Minified(s).Some?
    ensures Stands(p, rest) && s == PartText(p) + rest && |rest| < |s|
  {
    hide Minified;
    hide AfterLine;
    hide AfterComment;
    hide ClosingQuote;
    hide NoEnd;
    hide Paired;
    MinifiedStep(s);
    if Space(s[0]) {
      p, rest := Gap(s[0]), s[1..];
    } else if s[0] == '/' as int && |s| > 1 && s[1] == '/' as int {
      var body := LineFound(s[2..]);
      p, rest := LineRemark(body), AfterLine(s[2..]);
      FirstTwo(s);
      Assoc(['/' as int, '/' as int], body, rest);
    } else if s[0] == '/' as int && |s| > 1 && s[1] == '*' as int {
      var body := BlockFound(s[1..]);
      p, rest := BlockRemark(body), AfterComment(s[1..]).value;
      FirstTwo(s);
      Assoc(['/' as int], body + ['*' as int, '/' as int], rest);
      Assoc(body, ['*' as int, '/' as int], rest);
      assert body != [] ==> body[0] == s[1..][0];
    } else if s[0] == '"' as int {
      var end := ClosingQuote(s, 1).value;
      ClosedPaired(s, 1);
      p, rest := Quotation(s[1..end]), s[end + 1..];
      Between(s, end);
    } else {
      p, rest := Other(s[0]), s[1..];
    }
  }

  /** And every text that can be minified is made of such parts. */
  lemma {:induction false} PartsFound(s: Text) returns (ps: seq<Part>)
    requires Minified(s).Some?
    ensures AllStand(ps) && s == PartsText(ps) && Minified(s) == Some(Kept(ps))
    decreases |s|
  {
    hide Minified;
    ps := [];
    if s == [] {
      NothingMinified();
    } else {
      var p, rest := PartFound(s);
      PartMinified(p, rest);
      var more := PartsFound(rest);
      ps := [p] + more;
      assert ps[1..] == more;
      assert [] + Kept(more) == Kept(more);
    }
  }
}
