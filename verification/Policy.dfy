/**
  Policies on their way from a request to the engine: GrpcDispatchAddPolicyRule
  writes a request as JSON text, ParseNetPolicy reads the text and feeds the rule
  engine and the two tables of HTTP rules.
 */
module Policy {
  import opened Bytes
  import opened JsonTree
  import opened JsonCompare
  import opened PolicyTypes
  import JsonGrammar
  import JsonRoundTrip

  // ---------- The documents ----------

  const POLICY_NAME: Text := [112, 111, 108, 105, 99, 121, 95, 110, 97, 109, 101]
  const RULES: Text := [114, 117, 108, 101, 115]
  const ACTION: Text := [97, 99, 116, 105, 111, 110]
  const DIRECTION: Text := [100, 105, 114, 101, 99, 116, 105, 111, 110]
  const PROTOCOL: Text := [112, 114, 111, 116, 111, 99, 111, 108]
  const HTTP: Text := [104, 116, 116, 112]
  const FROM_ADDRESSES: Text := [102, 114, 111, 109, 95, 97, 100, 100, 114, 101, 115, 115, 101, 115]
  const TO_ADDRESSES: Text := [116, 111, 95, 97, 100, 100, 114, 101, 115, 115, 101, 115]
  const PORTS: Text := [112, 111, 114, 116, 115]
  const PRIORITY: Text := [112, 114, 105, 111, 114, 105, 116, 121]
  const HOST: Text := [104, 111, 115, 116]
  const METHOD: Text := [109, 101, 116, 104, 111, 100]
  const PATH: Text := [112, 97, 116, 104]
  const IP: Text := [105, 112]
  const POD_ID: Text := [112, 111, 100, 95, 105, 100]
  const PORT: Text := [112, 111, 114, 116]
  const END_PORT: Text := [101, 110, 100, 80, 111, 114, 116]

  const ALLOW_TEXT: Text := [65, 108, 108, 111, 119]
  const ALERT_TEXT: Text := [65, 108, 101, 114, 116]
  const DENY_TEXT: Text := [68, 101, 110, 121]
  const LOG_TEXT: Text := [76, 111, 103]
  const INGRESS_TEXT: Text := [105, 110, 103, 114, 101, 115, 115]
  const EGRESS_TEXT: Text := [101, 103, 114, 101, 115, 115]
  const TCP_TEXT: Text := [84, 67, 80]
  const UDP_TEXT: Text := [85, 68, 80]
  const ICMP_TEXT: Text := [73, 67, 77, 80]

  /** cJSON_GetObjectItem, which ignores case. */
  function Get(j: Json, name: Text): Option<Json> {
    if j.Object? && Lookup(j.members, name, false).Member? then Some(Lookup(j.members, name, false).item) else None
  }

  lemma GetFirst(key: Text, item: Json, rest: Members, name: Text)
    ensures Get(Object(Member(key, item, rest)), name)
            == if SameKey(name, key, false) then Some(item) else Get(Object(rest), name)
  {
  }

  /** Different lengths are different keys; so are two small letters in the same place. */
  lemma KeysDiffer(a: Text, b: Text, i: nat)
    requires |a| != |b| || (i < |a| && a[i] != b[i] && a[i] >= 97 && b[i] >= 97)
    ensures !SameKey(a, b, false)
  {
    if |a| == |b| {
      assert FoldKey(a, false)[i] == a[i] && FoldKey(b, false)[i] == b[i];
    }
  }

  // ---------- Addresses ----------

  const DASH: byte := 45
  const DOT: byte := 46

  /** The first place of a byte, or the length. */
  function Find(s: Text, b: byte): (i: nat)
    ensures i <= |s| && (i < |s| ==> s[i] == b)
  {
    if s == [] || s[0] == b then 0 else 1 + Find(s[1..], b)
  }

  /** The place behind the last occurrence of a byte. */
  function BehindLast(s: Text, b: byte): (i: nat)
    ensures i <= |s|
  {
    if s == [] then 0 else if s[|s| - 1] == b then |s| else BehindLast(s[..|s| - 1], b)
  }

  function Occurrences(s: Text, b: byte): nat {
    if s == [] then 0 else (if s[0] == b then 1 else 0) + Occurrences(s[1..], b)
  }

  /** std::stoi; None where it throws. */
  function Stoi(s: Text): Option<int>
    decreases |s|
  {
    if s == [] then None
    else if s[0] == 32 || 9 <= s[0] <= 13 then Stoi(s[1..])
    else
      var digits := if s[0] == 43 || s[0] == 45 then s[1..] else s;
      var span := JsonGrammar.DigitSpan(digits);
      if span == 0 then None
      else
        var v: int := JsonGrammar.DigitsValue(digits[..span]);
        var n := if s[0] == 45 then -v else v;
        if INT_MIN <= n <= INT_MAX then Some(n) else None
  }

  /** One address, or every address of a range of last octets; None where std::stoi throws. */
  function Segment(s: Text): Option<seq<Text>> {
    var dash := Find(s, DASH);
    if dash == |s| then Some([s])
    else
      var start, end := s[..dash], s[dash + 1..];
      if Occurrences(start, DOT) != 3 then Some([])
      else
        var octet := BehindLast(start, DOT);
        match (Stoi(start[octet..]), Stoi(end))
        case (Some(a), Some(b)) => Some(Range(start[..octet], a, b))
        case _ => None
  }

  function Range(base: Text, a: int, b: int): seq<Text>
    decreases b - a
  {
    if a > b then [] else [base + Decimal(a)] + Range(base, a + 1, b)
  }

  lemma {:induction false} RangeAt(base: Text, a: int, b: int)
    ensures |Range(base, a, b)| == if a <= b then b - a + 1 else 0
    ensures forall k :: 0 <= k < |Range(base, a, b)| ==> Range(base, a, b)[k] == base + Decimal(a + k)
    decreases b - a
  {
    if a <= b {
      RangeAt(base, a + 1, b);
      var first, rest := [base + Decimal(a)], Range(base, a + 1, b);
      assert Range(base, a, b) == first + rest;
      hide Range;
      hide Decimal;
      forall k | 0 <= k < |first + rest| ensures (first + rest)[k] == base + Decimal(a + k) {
        assert k > 0 ==> (first + rest)[k] == rest[k - 1] == base + Decimal(a + 1 + (k - 1));
      }
    }
  }

  /** A comma-separated list; None where a range has no numbers and std::stoi throws. */
  function Expand(s: Text): Option<seq<Text>>
    decreases |s|
  {
    if s == [] then Some([])
    else
      var comma := Find(s, COMMA);
      Both(Segment(s[..comma]), if comma < |s| then Expand(s[comma + 1..]) else Some([]))
  }

  function Both(a: Option<seq<Text>>, b: Option<seq<Text>>): Option<seq<Text>> {
    if a.Some? && b.Some? then Some(a.value + b.value) else None
  }

  // ---------- What the texts of addresses mean ----------

  function Joined(pieces: seq<Text>): Text {
    if pieces == [] then []
    else if |pieces| == 1 then pieces[0]
    else pieces[0] + [COMMA] + Joined(pieces[1..])
  }

  function Segments(pieces: seq<Text>): Option<seq<Text>> {
    if pieces == [] then Some([]) else Both(Segment(pieces[0]), Segments(pieces[1..]))
  }

  /** A list written with commas is read piece by piece; only behind a last comma an empty piece is not seen. */
  lemma {:induction false} ExpandJoined(pieces: seq<Text>)
    requires forall i :: 0 <= i < |pieces| ==> COMMA !in pieces[i]
    requires pieces == [] || pieces[|pieces| - 1] != []
    ensures Expand(Joined(pieces)) == Segments(pieces)
  {
    if pieces != [] {
      var piece, rest := pieces[0], Joined(pieces[1..]);
      if |pieces| == 1 {
        FindBehind(piece, [], COMMA);
        assert piece + [] == piece && piece[..|piece|] == piece;
        assert Segments(pieces[1..]) == Some([]);
      } else {
        var s := Joined(pieces);
        assert s == piece + ([COMMA] + rest);
        FindBehind(piece, [COMMA] + rest, COMMA);
        assert s[..|piece|] == piece && s[|piece| + 1..] == rest;
        ExpandJoined(pieces[1..]);
      }
    }
  }

  /** The first place of a byte that is not in `a`. */
  lemma {:induction false} FindBehind(a: Text, b: Text, x: byte)
    requires x !in a && (b == [] || b[0] == x)
    ensures Find(a + b, x) == |a|
  {
    if a == [] {
      assert a + b == b;
    } else {
      assert (a + b)[1..] == a[1..] + b;
      FindBehind(a[1..], b, x);
    }
  }

  /** An address without a dash stands for itself. */
  lemma PlainAddress(s: Text)
    requires DASH !in s
    ensures Segment(s) == Some([s])
  {
    FindBehind(s, [], DASH);
    assert s + [] == s;
  }

  /** Three octets, a dot and two numbers with a dash between them stand for the addresses from one to the other. */
  lemma RangeOfAddresses(base: Text, a: nat, b: nat)
    requires DASH !in base && Occurrences(base, DOT) == 3 && base != [] && base[|base| - 1] == DOT
    requires a <= INT_MAX && b <= INT_MAX
    ensures Segment(base + Decimal(a) + [DASH] + Decimal(b)) == Some(Range(base, a, b))
  {
    assert Decimal(b) + [] == Decimal(b);
    RangeWithTail(base, a, b, []);
  }

  /**
    Of what stands behind the dash only the leading number counts. So a range whose
    end is a whole address goes up to that address's first octet, and stands for
    nothing exactly when it starts above it.
   */
  lemma RangeToAddress(base: Text, a: nat, b: nat, rest: Text)
    requires DASH !in base && Occurrences(base, DOT) == 3 && base != [] && base[|base| - 1] == DOT
    requires a <= INT_MAX && b <= INT_MAX
    ensures var s := base + Decimal(a) + [DASH] + (Decimal(b) + ([DOT] + rest));
            Segment(s) == Some(Range(base, a, b)) && (Segment(s) == Some([]) <==> a > b)
  {
    RangeWithTail(base, a, b, [DOT] + rest);
  }

  lemma RangeWithTail(base: Text, a: nat, b: nat, tail: Text)
    requires DASH !in base && Occurrences(base, DOT) == 3 && base != [] && base[|base| - 1] == DOT
    requires a <= INT_MAX && b <= INT_MAX && (tail == [] || !JsonGrammar.IsDigit(tail[0]))
    ensures Segment(base + Decimal(a) + [DASH] + (Decimal(b) + tail)) == Some(Range(base, a, b))
  {
    hide Stoi;
    hide Range;
    hide Decimal;
    var start, end := base + Decimal(a), Decimal(b) + tail;
    var s := start + [DASH] + end;
    assert Decimal(a) + [] == Decimal(a);
    StoiOfDecimal(a, []);
    StoiOfDecimal(b, tail);
    assert s == start + ([DASH] + end);
    FindBehind(start, [DASH] + end, DASH);
    assert s[..|start|] == start && s[|start| + 1..] == end;
    OccurrencesBefore(base, Decimal(a), DOT);
    BehindLastOf(base, Decimal(a), DOT);
    assert start[..|base|] == base && start[|base|..] == Decimal(a);
  }

  lemma {:induction false} OccurrencesBefore(a: Text, b: Text, x: byte)
    requires x !in b
    ensures Occurrences(a + b, x) == Occurrences(a, x)
    decreases |a| + |b|
  {
    if a != [] {
      assert (a + b)[1..] == a[1..] + b;
      OccurrencesBefore(a[1..], b, x);
    } else if b != [] {
      assert (a + b)[1..] == a + b[1..];
      OccurrencesBefore(a, b[1..], x);
    }
  }

  lemma {:induction false} BehindLastOf(a: Text, b: Text, x: byte)
    requires a != [] && a[|a| - 1] == x && x !in b
    ensures BehindLast(a + b, x) == |a|
    decreases |b|
  {
    if b == [] {
      assert a + b == a;
    } else {
      assert (a + b)[..|a + b| - 1] == a + b[..|b| - 1];
      BehindLastOf(a, b[..|b| - 1], x);
    }
  }

  lemma StoiOfDecimal(n: nat, tail: Text)
    requires n <= INT_MAX && (tail == [] || !JsonGrammar.IsDigit(tail[0]))
    ensures Stoi(Decimal(n) + tail) == Some(n) && DOT !in Decimal(n) && DASH !in Decimal(n)
  {
    var d := Digits(n);
    JsonRoundTrip.DigitsAreDigits(n);
    JsonRoundTrip.DigitsValueOfDigits(n);
    JsonRoundTrip.DigitSpanAll(d, tail);
    assert (d + tail)[..|d|] == d && (d + tail)[0] == d[0];
  }

  // ---------- Reading addresses ----------

  /** ParseIpString: appends to `sofar`, or throws. */
  method ParseIpString(input: Text, sofar: seq<Text>) returns (ret: seq<Text>, threw: bool)
    ensures threw <==> Expand(input).None?
    ensures !threw ==> ret == sofar + Expand(input).value
  {
    hide Segment;
    hide Expand;
    ret, threw := sofar, false;
    var rest := input;
    ghost var taken: seq<Text> := [];
    NothingBefore(Expand(input));
    while rest != []
      invariant ret == sofar + taken && Expand(input) == Both(Some(taken), Expand(rest))
      decreases |rest|
    {
      ExpandStep(rest);
      var comma := Find(rest, COMMA);
      ghost var first := Segment(rest[..comma]);
      ret, threw := ParseSegment(rest[..comma], ret);
      if threw {
        return;
      }
      rest := if comma < |rest| then rest[comma + 1..] else [];
      BothTwice(taken, first.value, Expand(rest));
      assert sofar + taken + first.value == sofar + (taken + first.value);
      taken := taken + first.value;
    }
    ExpandStep(rest);
    assert taken + [] == taken;
  }

  lemma NothingBefore(o: Option<seq<Text>>)
    ensures Both(Some([]), o) == o
  {
    assert o.Some? ==> [] + o.value == o.value;
  }

  lemma BothTwice(a: seq<Text>, b: seq<Text>, o: Option<seq<Text>>)
    ensures Both(Some(a), Both(Some(b), o)) == Both(Some(a + b), o)
  {
    assert o.Some? ==> a + (b + o.value) == a + b + o.value;
  }

  lemma ExpandStep(s: Text)
    ensures s == [] ==> Expand(s) == Some([])
    ensures s != [] ==>
              var comma := Find(s, COMMA);
              Expand(s) == Both(Segment(s[..comma]), Expand(if comma < |s| then s[comma + 1..] else []))
  {
    hide Segment;
    assert Expand([]) == Some([]);
  }

  method ParseSegment(s: Text, sofar: seq<Text>) returns (ret: seq<Text>, threw: bool)
    ensures threw <==> Segment(s).None?
    ensures !threw ==> ret == sofar + Segment(s).value
  {
    hide Stoi;
    hide Range;
    hide Find;
    hide Occurrences;
    hide BehindLast;
    ret, threw := sofar, false;
    var dash := Find(s, DASH);
    if dash == |s| {
      return sofar + [s], false;
    }
    var start, end := s[..dash], s[dash + 1..];
    if Occurrences(start, DOT) == 3 {
      var octet := BehindLast(start, DOT);
      var from := Stoi(start[octet..]);
      if from.None? {
        return ret, true;
      }
      var to := Stoi(end);
      if to.None? {
        return ret, true;
      }
      ret := ParseRange(start[..octet], from.value, to.value, ret);
    } else {
      assert sofar + [] == sofar;
    }
  }

  method ParseRange(base: Text, from: int, to: int, sofar: seq<Text>) returns (ret: seq<Text>)
    ensures ret == sofar + Range(base, from, to)
  {
    ret := sofar;
    var i := from;
    while i <= to
      invariant sofar + Range(base, from, to) == ret + Range(base, i, to)
      decreases if i <= to then to - i + 1 else 0
    {
      var address := base + Decimal(i);
      assert Range(base, i, to) == [address] + Range(base, i + 1, to);
      assert ret + ([address] + Range(base, i + 1, to)) == ret + [address] + Range(base, i + 1, to);
      ret := ret + [address];
      i := i + 1;
    }
  }

  // ---------- What a document says ----------

  function ConvertRuleAction(s: Text): nat {
    if s == ALLOW_TEXT || s == LOG_TEXT then ALLOW else if s == ALERT_TEXT then MARK else DENY
  }

  function NetProtoConvert(s: Text): nat {
    if s == TCP_TEXT then 6 else if s == UDP_TEXT then 17 else if s == ICMP_TEXT then 1 else 0
  }

  datatype Port = Port(port: nat, end: nat, proto: nat)

  datatype Rule = Rule(key: Text, action: nat, actionText: Text, dir: Direction, proto: nat, priority: int)

  /** What the rule engine is told. */
  datatype EngineOp =
    | Delete(dir: Direction, key: Text)
    | Add(rule: Rule, src: Text, dst: Text, port: Port)

  /** valueint of an item, which is also one for a true and zero for everything but a number. */
  function IntOf(o: Option<Json>): int {
    if o.Some? && o.value.Number? then JsonGrammar.ValueInt(o.value.value)
    else if o == Some(True) then 1
    else 0
  }

  function PortOf(j: Json, proto: nat): Port {
    var end, port := IntOf(Get(j, END_PORT)) % 65536, IntOf(Get(j, PORT)) % 65536;
    Port(port, if end == 0 then port else end, proto)
  }

  function PortsOf(es: Elements, proto: nat): seq<Port> {
    if es.NoElement? then [] else [PortOf(es.item, proto)] + PortsOf(es.next, proto)
  }

  predicate IsText(o: Option<Json>) {
    o.Some? && o.value.String?
  }

  function HttpRuleOf(j: Json, action: nat, dir: Direction): Option<HttpRule> {
    var host, verb, path := Get(j, HOST), Get(j, METHOD), Get(j, PATH);
    if IsText(host) && IsText(verb) && IsText(path)
    then Some(HttpRule(action, dir, host.value.text, verb.value.text, path.value.text))
    else None
  }

  /** The rules of a list, up to the first one that lacks something. */
  function HttpOf(es: Elements, action: nat, dir: Direction): seq<HttpRule> {
    if es.NoElement? then []
    else
      var rule := HttpRuleOf(es.item, action, dir);
      if rule.Some? then [rule.value] + HttpOf(es.next, action, dir) else []
  }

  /** The addresses of a list, up to the first entry that lacks one; None where std::stoi throws. */
  function AddressesOf(es: Elements): Option<seq<Text>> {
    if es.NoElement? || !IsText(Get(es.item, IP)) then Some([])
    else Both(Expand(Get(es.item, IP).value.text), AddressesOf(es.next))
  }

  /** What a loop over cJSON_GetArrayItem sees: the children of an array, of an object too, and none otherwise. */
  function Items(o: Option<Json>): Elements {
    if o.None? then NoElement
    else
      match o.value
      case Array(es) => es
      case Object(ms) => ItemsOf(ms)
      case _ => NoElement
  }

  function ItemsOf(ms: Members): Elements {
    if ms.NoMember? then NoElement else Element(ms.item, ItemsOf(ms.next))
  }

  // ---------- The product of addresses and ports ----------

  /** AddNewPolicy refuses priorities outside 1 to 128. */
  function AddOne(rule: Rule, src: Text, dst: Text, port: Port): seq<EngineOp> {
    if 0 < rule.priority < 129 then [Add(rule, src, dst, port)] else []
  }

  function AddPorts(rule: Rule, src: Text, dst: Text, ports: seq<Port>): seq<EngineOp> {
    if ports == [] then [] else AddOne(rule, src, dst, ports[0]) + AddPorts(rule, src, dst, ports[1..])
  }

  function AddDsts(rule: Rule, src: Text, dsts: seq<Text>, ports: seq<Port>): seq<EngineOp> {
    if dsts == [] then [] else AddPorts(rule, src, dsts[0], ports) + AddDsts(rule, src, dsts[1..], ports)
  }

  function Product(rule: Rule, srcs: seq<Text>, dsts: seq<Text>, ports: seq<Port>): seq<EngineOp> {
    if srcs == [] then [] else AddDsts(rule, srcs[0], dsts, ports) + Product(rule, srcs[1..], dsts, ports)
  }

  /** Where the entry of a row and a column stands in a list of rows. */
  function At(row: nat, column: nat, width: nat): nat {
    row * width + column
  }

  lemma AtNext(row: nat, column: nat, width: nat)
    ensures At(0, column, width) == column
    ensures At(row + 1, column, width) == width + At(row, column, width)
  {
  }

  lemma Rows(rows: nat, width: nat)
    requires rows > 0
    ensures rows * width == width + (rows - 1) * width
  {
  }

  /** Every combination has its entry, in the order of sources, then destinations, then ports. */
  lemma ProductAt(rule: Rule, srcs: seq<Text>, dsts: seq<Text>, ports: seq<Port>, i: nat, j: nat, k: nat)
    requires 0 < rule.priority < 129 && i < |srcs| && j < |dsts| && k < |ports|
    ensures var place := (i * |dsts| + j) * |ports| + k;
            && 0 <= place < |Product(rule, srcs, dsts, ports)| == |srcs| * |dsts| * |ports|
            && Product(rule, srcs, dsts, ports)[place] == Add(rule, srcs[i], dsts[j], ports[k])
  {
    hide Product;
    hide AddDsts;
    hide At;
    var n, m := |dsts| * |ports|, At(j, k, |ports|);
    ProductLength(rule, srcs, dsts, ports);
    AtPlace(i, j, k, |dsts|, |ports|);
    assert At(i, m, n) < |Product(rule, srcs, dsts, ports)|
           && Product(rule, srcs, dsts, ports)[At(i, m, n)] == Add(rule, srcs[i], dsts[j], ports[k]) by {
      AddDstsAt(rule, srcs[i], dsts, ports);
      ProductRows(rule, srcs, dsts, ports, i, m, n);
    }
  }

  lemma AtPlace(i: nat, j: nat, k: nat, n: nat, m: nat)
    ensures At(i, At(j, k, m), n * m) == (i * n + j) * m + k
  {
    Associate(i, n, m);
    Distribute(i * n, j, m);
  }

  /** Nothing more than that; and nothing at all under a priority that is refused. */
  lemma {:induction false} ProductLength(rule: Rule, srcs: seq<Text>, dsts: seq<Text>, ports: seq<Port>)
    ensures |Product(rule, srcs, dsts, ports)| == if 0 < rule.priority < 129 then |srcs| * |dsts| * |ports| else 0
  {
    if srcs != [] {
      AddDstsLength(rule, srcs[0], dsts, ports);
      ProductLength(rule, srcs[1..], dsts, ports);
      Rows(|srcs|, |dsts|);
      Distribute(|dsts|, (|srcs| - 1) * |dsts|, |ports|);
    }
  }

  lemma {:induction false} AddDstsLength(rule: Rule, src: Text, dsts: seq<Text>, ports: seq<Port>)
    ensures |AddDsts(rule, src, dsts, ports)| == if 0 < rule.priority < 129 then |dsts| * |ports| else 0
  {
    if dsts != [] {
      AddPortsLength(rule, src, dsts[0], ports);
      AddDstsLength(rule, src, dsts[1..], ports);
      Rows(|dsts|, |ports|);
    }
  }

  lemma {:induction false} AddPortsLength(rule: Rule, src: Text, dst: Text, ports: seq<Port>)
    ensures |AddPorts(rule, src, dst, ports)| == if 0 < rule.priority < 129 then |ports| else 0
  {
    if ports != [] {
      AddPortsLength(rule, src, dst, ports[1..]);
    }
  }

  lemma Associate(a: int, b: int, c: int)
    ensures a * (b * c) == a * b * c
  {
  }

  lemma Distribute(a: int, b: int, c: int)
    ensures (a + b) * c == a * c + b * c
  {
  }

  /** The product has one row of the same length, `n`, for each source. */
  lemma {:induction false} ProductRows(rule: Rule, srcs: seq<Text>, dsts: seq<Text>, ports: seq<Port>,
                                       i: nat, m: nat, n: nat)
    requires 0 < rule.priority < 129 && i < |srcs| && m < n == |dsts| * |ports|
    ensures |AddDsts(rule, srcs[i], dsts, ports)| == n && At(i, m, n) < |Product(rule, srcs, dsts, ports)|
    ensures Product(rule, srcs, dsts, ports)[At(i, m, n)] == AddDsts(rule, srcs[i], dsts, ports)[m]
  {
    hide *;
    FirstRow(rule, srcs, dsts, ports);
    if i == 0 {
      AtNext(0, m, n);
    } else {
      AtNext(i - 1, m, n);
      ProductRows(rule, srcs[1..], dsts, ports, i - 1, m, n);
    }
  }

  lemma FirstRow(rule: Rule, srcs: seq<Text>, dsts: seq<Text>, ports: seq<Port>)
    requires 0 < rule.priority < 129 && srcs != []
    ensures Product(rule, srcs, dsts, ports)
            == AddDsts(rule, srcs[0], dsts, ports) + Product(rule, srcs[1..], dsts, ports)
    ensures |AddDsts(rule, srcs[0], dsts, ports)| == |dsts| * |ports|
  {
    hide AddDsts;
    AddDstsLength(rule, srcs[0], dsts, ports);
  }

  lemma {:induction false} AddDstsAt(rule: Rule, src: Text, dsts: seq<Text>, ports: seq<Port>)
    requires 0 < rule.priority < 129
    ensures |AddDsts(rule, src, dsts, ports)| == |dsts| * |ports|
    ensures forall j, k :: 0 <= j < |dsts| && 0 <= k < |ports| ==>
              && At(j, k, |ports|) < |AddDsts(rule, src, dsts, ports)|
              && AddDsts(rule, src, dsts, ports)[At(j, k, |ports|)] == Add(rule, src, dsts[j], ports[k])
  {
    if dsts != [] {
      var first, rest, n := AddPorts(rule, src, dsts[0], ports), AddDsts(rule, src, dsts[1..], ports), |ports|;
      AddPortsAt(rule, src, dsts[0], ports);
      AddDstsAt(rule, src, dsts[1..], ports);
      Rows(|dsts|, n);
      hide At;
      forall j, k | 0 <= j < |dsts| && 0 <= k < n
        ensures At(j, k, n) < |first + rest| && (first + rest)[At(j, k, n)] == Add(rule, src, dsts[j], ports[k])
      {
        if j == 0 {
          AtNext(0, k, n);
        } else {
          AtNext(j - 1, k, n);
          assert rest[At(j - 1, k, n)] == Add(rule, src, dsts[1..][j - 1], ports[k]);
        }
      }
    }
  }

  lemma {:induction false} AddPortsAt(rule: Rule, src: Text, dst: Text, ports: seq<Port>)
    requires 0 < rule.priority < 129
    ensures |AddPorts(rule, src, dst, ports)| == |ports|
    ensures forall k :: 0 <= k < |ports| ==> AddPorts(rule, src, dst, ports)[k] == Add(rule, src, dst, ports[k])
  {
    if ports != [] {
      AddPortsAt(rule, src, dst, ports[1..]);
    }
  }

  /** Without ports one entry stands for all of them. */
  function PortsOrAny(ports: seq<Port>): seq<Port> {
    if ports == [] then [Port(0, 0, 0)] else ports
  }

  /** How one turn of the loop over the rules ends: to the end, with a break, or with an exception. */
  datatype Outcome = Done | Broken | Threw

  /** The HTTP rules and engine entries of one rule. */
  datatype Effect = Effect(dir: Direction, http: seq<HttpRule>, ops: seq<EngineOp>, outcome: Outcome)

  /** What a rule does by itself. */
  function EffectOf(j: Json, key: Text): Effect {
    Turn(j, key, [], [], [])
  }

  /** What a turn of the loop does that finds addresses and ports already there. */
  function Turn(j: Json, key: Text, srcip: seq<Text>, dstip: seq<Text>, ports: seq<Port>): Effect {
    if !IsText(Get(j, ACTION)) || !IsText(Get(j, DIRECTION)) then Effect(Egress, [], [], Broken)
    else ListedTurn(j, RuleIn(j, key), srcip, dstip, ports)
  }

  /** The part of a rule that is not lists. */
  function RuleIn(j: Json, key: Text): Rule
    requires IsText(Get(j, ACTION)) && IsText(Get(j, DIRECTION))
  {
    var action := Get(j, ACTION).value.text;
    var dir := if Get(j, DIRECTION).value.text == INGRESS_TEXT then Ingress else Egress;
    var proto := if IsText(Get(j, PROTOCOL)) then NetProtoConvert(Get(j, PROTOCOL).value.text) else 0;
    Rule(key, ConvertRuleAction(action), action, dir, proto, IntOf(Get(j, PRIORITY)))
  }

  /** The part of a rule that its lists make up. */
  function ListedTurn(j: Json, rule: Rule, srcip: seq<Text>, dstip: seq<Text>, ports: seq<Port>): Effect {
    var http := HttpOf(Items(Get(j, HTTP)), rule.action, rule.dir);
    var srcs, dsts := AddressesOf(Items(Get(j, FROM_ADDRESSES))), AddressesOf(Items(Get(j, TO_ADDRESSES)));
    if Get(j, FROM_ADDRESSES).None? then Effect(rule.dir, http, [], Broken)
    else if srcs.None? then Effect(rule.dir, http, [], Threw)
    else if Get(j, PRIORITY).None? || Get(j, TO_ADDRESSES).None? then Effect(rule.dir, http, [], Broken)
    else if dsts.None? then Effect(rule.dir, http, [], Threw)
    else
      var all := PortsOrAny(ports + PortsOf(Items(Get(j, PORTS)), rule.proto));
      Effect(rule.dir, http, Product(rule, srcip + srcs.value, dstip + dsts.value, all), Done)
  }

  // ---------- The store ----------

  datatype Store = Store(input: Table, output: Table, engine: seq<EngineOp>)

  function Push(table: Table, key: Text, rules: seq<HttpRule>): Table {
    if rules == [] then table else table[key := (if key in table then table[key] else []) + rules]
  }

  function Deleted(s: Store, key: Text): Store {
    if key == [] then s
    else Store(s.input - {key}, s.output - {key}, s.engine + [Delete(Ingress, key), Delete(Egress, key)])
  }

  function Apply(s: Store, key: Text, e: Effect): Store {
    var t := if e.dir == Ingress then s.(input := Push(s.input, key, e.http)) else s.(output := Push(s.output, key, e.http));
    t.(engine := t.engine + e.ops)
  }

  function ApplyAll(s: Store, key: Text, es: Elements): Store
    decreases es
  {
    if es.NoElement? then s
    else
      var e := EffectOf(es.item, key);
      var t := Apply(s, key, e);
      if e.outcome.Done? then ApplyAll(t, key, es.next) else t
  }

  /** Some rule that is reached throws. */
  predicate Throws(es: Elements, key: Text)
    decreases es
  {
    es.Element?
    && var outcome := EffectOf(es.item, key).outcome; outcome.Threw? || (outcome.Done? && Throws(es.next, key))
  }

  lemma PushNothing(table: Table, key: Text)
    ensures Push(table, key, []) == table
  {
  }

  lemma PushConcat(t: Table, key: Text, a: seq<HttpRule>, b: seq<HttpRule>)
    ensures Push(Push(t, key, a), key, b) == Push(t, key, a + b)
  {
    var before := if key in t then t[key] else [];
    assert before + a + b == before + (a + b);
    if a == [] {
      assert a + b == b;
    } else if b == [] {
      assert a + b == a;
    } else {
      assert t[key := before + a][key := before + a + b] == t[key := before + a + b];
    }
  }

  // ---------- Reading a document ----------

  /** Where the code takes the text of an item that is there, the item is a string; elsewhere it is never read. */
  predicate Typed(o: Option<Json>) {
    o.Some? ==> o.value.String?
  }

  predicate TypedHttpItem(j: Json) {
    && Typed(Get(j, HOST))
    && (Get(j, HOST).Some? ==> Typed(Get(j, METHOD)) && (Get(j, METHOD).Some? ==> Typed(Get(j, PATH))))
  }

  predicate TypedHttp(es: Elements) {
    es.Element? ==> TypedHttpItem(es.item) && (HttpRuleOf(es.item, DENY, Ingress).Some? ==> TypedHttp(es.next))
  }

  predicate TypedAddresses(es: Elements) {
    es.Element? ==>
      && Typed(Get(es.item, IP))
      && (Get(es.item, IP).Some? && Expand(Get(es.item, IP).value.text).Some? ==> TypedAddresses(es.next))
  }

  predicate TypedRule(j: Json) {
    && Typed(Get(j, ACTION))
    && (Get(j, ACTION).Some? ==>
          && Typed(Get(j, DIRECTION))
          && (Get(j, DIRECTION).Some? ==> Typed(Get(j, PROTOCOL)) && TypedHttp(Items(Get(j, HTTP))) && TypedEnds(j)))
  }

  predicate TypedEnds(j: Json) {
    Get(j, FROM_ADDRESSES).Some? ==>
      && TypedAddresses(Items(Get(j, FROM_ADDRESSES)))
      && (AddressesOf(Items(Get(j, FROM_ADDRESSES))).Some? && Get(j, PRIORITY).Some? && Get(j, TO_ADDRESSES).Some?
          ==> TypedAddresses(Items(Get(j, TO_ADDRESSES))))
  }

  predicate TypedRules(es: Elements, key: Text)
    decreases es
  {
    es.Element? ==> TypedRule(es.item) && (EffectOf(es.item, key).outcome.Done? ==> TypedRules(es.next, key))
  }

  predicate WellTyped(root: Json) {
    var name := Get(root, POLICY_NAME);
    Typed(name) && (name.Some? ==> TypedRules(Items(Get(root, RULES)), name.value.text))
  }

  /** The variables of ParseNetPolicy that live as long as its loop over the rules. */
  datatype Locals = Locals(rule: Rule, http: HttpRule, srcip: seq<Text>, dstip: seq<Text>, rulePorts: seq<Port>)

  const NO_RULE := Rule([], DENY, [], Ingress, 0, 0)
  const NO_HTTP := HttpRule(DENY, Ingress, [], [], [])

  class Microseg {
    var input: Table
    var output: Table
    var engine: seq<EngineOp>

    ghost function State(): Store
      reads this
    {
      Store(input, output, engine)
    }

    constructor ()
      ensures State() == Store(map[], map[], [])
    {
      input, output, engine := map[], map[], [];
    }

    /** DeletePolicy; an empty name deletes nothing. */
    method DeletePolicy(name: Text)
      modifies this
      ensures State() == Deleted(old(State()), name)
    {
      if name == [] {
        return;
      }
      Erase(name);
    }

    /** MicroSegEngine::DeletePolicy */
    method Erase(name: Text)
      modifies this
      ensures name !in input && name !in output
      ensures forall key :: key in old(input) && key != name ==> key in input && input[key] == old(input)[key]
      ensures forall key :: key in old(output) && key != name ==> key in output && output[key] == old(output)[key]
      ensures input.Keys <= old(input).Keys && output.Keys <= old(output).Keys
      ensures engine == old(engine) + [Delete(Ingress, name), Delete(Egress, name)]
    {
      input, output := input - {name}, output - {name};
      engine := engine + [Delete(Ingress, name)];
      engine := engine + [Delete(Egress, name)];
    }

    method AddHttpPolicy(dir: Direction, key: Text, rule: HttpRule)
      modifies `input, `output
      ensures dir == Ingress ==> input == Push(old(input), key, [rule]) && output == old(output)
      ensures dir == Egress ==> output == Push(old(output), key, [rule]) && input == old(input)
    {
      if dir == Ingress {
        input := input[key := (if key in input then input[key] else []) + [rule]];
      } else {
        output := output[key := (if key in output then output[key] else []) + [rule]];
      }
    }

    method AddNewPolicy(rule: Rule, src: Text, dst: Text, port: Port) returns (ret: int)
      modifies `engine
      ensures engine == old(engine) + AddOne(rule, src, dst, port)
      ensures ret == 0 <==> 0 < rule.priority < 129
    {
      if rule.priority <= 0 || rule.priority >= 129 {
        return -1;
      }
      engine := engine + [Add(rule, src, dst, port)];
      return 0;
    }

    /** The loop over the HTTP rules, which refills the same variable for each of them. */
    method AddHttpRules(es: Elements, rule: Rule, start: HttpRule) returns (http: HttpRule)
      requires TypedHttp(es)
      modifies `input, `output
      ensures rule.dir == Ingress ==>
                input == Push(old(input), rule.key, HttpOf(es, rule.action, rule.dir)) && output == old(output)
      ensures rule.dir == Egress ==>
                output == Push(old(output), rule.key, HttpOf(es, rule.action, rule.dir)) && input == old(input)
    {
      hide HttpRuleOf;
      hide Push;
      hide TypedHttpItem;
      http := start.(action := rule.action, dir := rule.dir);
      var item := es;
      ghost var taken: seq<HttpRule> := [];
      PushNothing(input, rule.key);
      PushNothing(output, rule.key);
      while item.Element?
        invariant http.action == rule.action && http.dir == rule.dir
        invariant TypedHttp(item) && HttpOf(es, rule.action, rule.dir) == taken + HttpOf(item, rule.action, rule.dir)
        invariant rule.dir == Ingress ==> input == Push(old(input), rule.key, taken) && output == old(output)
        invariant rule.dir == Egress ==> output == Push(old(output), rule.key, taken) && input == old(input)
        decreases item
      {
        var ok;
        http, ok := ReadHttpRule(item.item, http);
        if !ok {
          assert taken + [] == taken;
          return;
        }
        AddHttpPolicy(rule.dir, rule.key, http);
        PushConcat(if rule.dir == Ingress then old(input) else old(output), rule.key, taken, [http]);
        ghost var later := HttpOf(item.next, rule.action, rule.dir);
        assert taken + ([http] + later) == taken + [http] + later;
        taken := taken + [http];
        item := item.next;
      }
      assert taken + [] == taken;
    }

    static method ReadHttpRule(j: Json, start: HttpRule) returns (http: HttpRule, ok: bool)
      requires TypedHttpItem(j)
      ensures http.action == start.action && http.dir == start.dir
      ensures HttpRuleOf(j, start.action, start.dir) == if ok then Some(http) else None
      ensures HttpRuleOf(j, DENY, Ingress).Some? == ok
    {
      http, ok := start, false;
      var param := Get(j, HOST);
      if param.None? {
        return;
      }
      http := http.(host := param.value.text);
      param := Get(j, METHOD);
      if param.None? {
        return;
      }
      http := http.(verb := param.value.text);
      param := Get(j, PATH);
      if param.None? {
        return;
      }
      http, ok := http.(path := param.value.text), true;
    }

    /** The loop over a list of addresses, which appends to those that are there. */
    static method CollectAddresses(es: Elements, sofar: seq<Text>) returns (ips: seq<Text>, threw: bool)
      requires TypedAddresses(es)
      ensures threw <==> AddressesOf(es).None?
      ensures !threw ==> ips == sofar + AddressesOf(es).value
    {
      hide Get;
      hide Expand;
      hide AddressesOf;
      ips, threw := sofar, false;
      var item := es;
      ghost var taken: seq<Text> := [];
      NothingBefore(AddressesOf(es));
      while item.Element?
        invariant TypedAddresses(item) && ips == sofar + taken && !threw
        invariant AddressesOf(es) == Both(Some(taken), AddressesOf(item))
        decreases item
      {
        AddressesStep(item);
        var ip := Get(item.item, IP);
        if ip.None? {
          assert taken + [] == taken;
          return;
        }
        ghost var more := Expand(ip.value.text);
        ips, threw := ParseIpString(ip.value.text, ips);
        if threw {
          return;
        }
        BothTwice(taken, more.value, AddressesOf(item.next));
        assert sofar + taken + more.value == sofar + (taken + more.value);
        taken := taken + more.value;
        item := item.next;
      }
      AddressesStep(item);
      assert taken + [] == taken;
    }

    static lemma AddressesStep(es: Elements)
      requires TypedAddresses(es)
      ensures es.NoElement? || Get(es.item, IP).None? ==> AddressesOf(es) == Some([])
      ensures es.Element? && Get(es.item, IP).Some? ==>
                AddressesOf(es) == Both(Expand(Get(es.item, IP).value.text), AddressesOf(es.next))
    {
    }

    /** The loop over the ports, which appends to those that are there. */
    static method CollectPorts(es: Elements, proto: nat, sofar: seq<Port>) returns (ports: seq<Port>)
      ensures ports == sofar + PortsOf(es, proto)
    {
      hide Get;
      hide IntOf;
      ports := sofar;
      var item := es;
      while item.Element?
        invariant sofar + PortsOf(es, proto) == ports + PortsOf(item, proto)
        decreases item
      {
        var end := IntOf(Get(item.item, END_PORT)) % 65536;
        var port := IntOf(Get(item.item, PORT)) % 65536;
        var p := Port(port, if end == 0 then port else end, proto);
        assert p == PortOf(item.item, proto);
        assert ports + ([p] + PortsOf(item.next, proto)) == ports + [p] + PortsOf(item.next, proto);
        ports := ports + [p];
        item := item.next;
      }
    }

    /** The three nested loops that create the engine's entries. */
    method AddProduct(rule: Rule, srcs: seq<Text>, dsts: seq<Text>, ports: seq<Port>)
      modifies `engine
      ensures engine == old(engine) + Product(rule, srcs, dsts, PortsOrAny(ports))
    {
      hide AddDsts;
      ghost var ps := PortsOrAny(ports);
      hide PortsOrAny;
      ghost var done: seq<EngineOp> := [];
      for j := 0 to |srcs|
        invariant engine == old(engine) + done && Product(rule, srcs, dsts, ps) == done + Product(rule, srcs[j..], dsts, ps)
      {
        assert srcs[j..][1..] == srcs[j + 1..];
        AddForSource(rule, srcs[j], dsts, ports);
        ghost var now, later := AddDsts(rule, srcs[j], dsts, ps), Product(rule, srcs[j + 1..], dsts, ps);
        assert done + (now + later) == done + now + later;
        assert old(engine) + done + now == old(engine) + (done + now);
        done := done + now;
      }
    }

    method AddForSource(rule: Rule, src: Text, dsts: seq<Text>, ports: seq<Port>)
      modifies `engine
      ensures engine == old(engine) + AddDsts(rule, src, dsts, PortsOrAny(ports))
    {
      hide AddPorts;
      ghost var ps := PortsOrAny(ports);
      hide PortsOrAny;
      ghost var done: seq<EngineOp> := [];
      for n := 0 to |dsts|
        invariant engine == old(engine) + done && AddDsts(rule, src, dsts, ps) == done + AddDsts(rule, src, dsts[n..], ps)
      {
        assert dsts[n..][1..] == dsts[n + 1..];
        AddForPair(rule, src, dsts[n], ports);
        ghost var now, later := AddPorts(rule, src, dsts[n], ps), AddDsts(rule, src, dsts[n + 1..], ps);
        assert done + (now + later) == done + now + later;
        assert old(engine) + done + now == old(engine) + (done + now);
        done := done + now;
      }
    }

    method AddForPair(rule: Rule, src: Text, dst: Text, ports: seq<Port>)
      modifies `engine
      ensures engine == old(engine) + AddPorts(rule, src, dst, PortsOrAny(ports))
    {
      if ports == [] {
        var _ := AddNewPolicy(rule, src, dst, Port(0, 0, 0));
        assert AddPorts(rule, src, dst, [Port(0, 0, 0)]) == AddOne(rule, src, dst, Port(0, 0, 0)) + [];
        return;
      }
      ghost var done: seq<EngineOp> := [];
      for p := 0 to |ports|
        invariant engine == old(engine) + done
        invariant AddPorts(rule, src, dst, ports) == done + AddPorts(rule, src, dst, ports[p..])
      {
        assert ports[p..][1..] == ports[p + 1..];
        var _ := AddNewPolicy(rule, src, dst, ports[p]);
        ghost var now, later := AddOne(rule, src, dst, ports[p]), AddPorts(rule, src, dst, ports[p + 1..]);
        assert done + (now + later) == done + now + later;
        assert old(engine) + done + now == old(engine) + (done + now);
        done := done + now;
      }
    }

    /**
      One turn of the loop over the rules, whatever the turns before have left behind.
      A turn that comes to its end clears the lists.
     */
    method ParseRule(j: Json, before: Locals) returns (l: Locals, outcome: Outcome)
      requires TypedRule(j)
      modifies this
      ensures var e := Turn(j, before.rule.key, before.srcip, before.dstip, before.rulePorts);
              State() == Apply(old(State()), before.rule.key, e) && outcome == e.outcome
      ensures l.rule.key == before.rule.key
      ensures outcome.Done? ==> l.srcip == [] && l.dstip == [] && l.rulePorts == []
    {
      l, outcome := before, Broken;
      var item := Get(j, ACTION);
      if item.None? {
        return;
      }
      l := l.(rule := l.rule.(actionText := item.value.text, action := ConvertRuleAction(item.value.text)));
      item := Get(j, DIRECTION);
      if item.None? {
        return;
      }
      l := l.(rule := l.rule.(dir := if item.value.text == INGRESS_TEXT then Ingress else Egress, proto := 0));
      item := Get(j, PROTOCOL);
      if item.Some? {
        l := l.(rule := l.rule.(proto := NetProtoConvert(item.value.text)));
      }
      l, outcome := ParseLists(j, l);
    }

    /** The part of a turn that reads the lists of a rule. */
    method ParseLists(j: Json, before: Locals) returns (l: Locals, outcome: Outcome)
      requires TypedHttp(Items(Get(j, HTTP))) && TypedEnds(j)
      modifies this
      ensures var rule := before.rule.(priority := IntOf(Get(j, PRIORITY)));
              var e := ListedTurn(j, rule, before.srcip, before.dstip, before.rulePorts);
              State() == Apply(old(State()), rule.key, e) && outcome == e.outcome
      ensures l.rule.key == before.rule.key
      ensures outcome.Done? ==> l.srcip == [] && l.dstip == [] && l.rulePorts == []
    {
      hide HttpOf;
      hide PortsOf;
      hide AddressesOf;
      hide Product;
      hide Items;
      hide Get;
      hide TypedHttp;
      hide TypedAddresses;
      hide IntOf;
      hide PortsOrAny;
      l, outcome := before, Broken;
      var http := AddHttpRules(Items(Get(j, HTTP)), l.rule, l.http);
      l := l.(http := http);
      var from := Get(j, FROM_ADDRESSES);
      if from.None? {
        return;
      }
      var ips, threw := CollectAddresses(Items(from), l.srcip);
      if threw {
        return l, Threw;
      }
      l := l.(srcip := ips);
      var ports := CollectPorts(Items(Get(j, PORTS)), l.rule.proto, l.rulePorts);
      l := l.(rulePorts := ports);
      if Get(j, PRIORITY).None? {
        return;
      }
      l := l.(rule := l.rule.(priority := IntOf(Get(j, PRIORITY))));
      var to := Get(j, TO_ADDRESSES);
      if to.None? {
        return;
      }
      ips, threw := CollectAddresses(Items(to), l.dstip);
      if threw {
        return l, Threw;
      }
      l := l.(dstip := ips);
      AddProduct(l.rule, l.srcip, l.dstip, l.rulePorts);
      return l.(rulePorts := [], srcip := [], dstip := []), Done;
    }

    /** ParseNetPolicy, on the parsed document; None when an exception leaves it. */
    method ParseNetPolicy(root: Json) returns (ret: Option<int>)
      requires WellTyped(root)
      modifies this
      ensures Get(root, POLICY_NAME).None? ==> ret == Some(-1) && State() == old(State())
      ensures Get(root, POLICY_NAME).Some? ==>
                var key, rules := Get(root, POLICY_NAME).value.text, Get(root, RULES);
                && State() == ApplyAll(Deleted(old(State()), key), key, Items(rules))
                && ret == if rules.None? then Some(-1) else if Throws(Items(rules), key) then None else Some(0)
    {
      var l := Locals(NO_RULE, NO_HTTP, [], [], []);
      var item := Get(root, POLICY_NAME);
      if item.None? {
        return Some(-1);
      }
      l := l.(rule := l.rule.(key := item.value.text));
      ghost var key := l.rule.key;
      DeletePolicy(l.rule.key);
      ghost var start := State();
      if Get(root, RULES).None? {
        return Some(-1);
      }
      hide Turn;
      var rules := Items(Get(root, RULES));
      var rule := rules;
      while rule.Element?
        invariant l.srcip == [] && l.dstip == [] && l.rulePorts == [] && l.rule.key == key
        invariant TypedRules(rule, key) && ApplyAll(start, key, rules) == ApplyAll(State(), key, rule)
        invariant Throws(rules, key) == Throws(rule, key)
        decreases rule
      {
        var outcome;
        l, outcome := ParseRule(rule.item, l);
        if outcome.Broken? {
          return Some(0);
        }
        if outcome.Threw? {
          return None;
        }
        rule := rule.next;
      }
      return Some(0);
    }
  }
}
