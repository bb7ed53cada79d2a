/** What becomes of each rule of a request, entry by entry and in the numbers and words of the source. */
module PolicyEntries {
  import opened Bytes
  import opened JsonTree
  import opened Policy
  import opened PolicyRequest
  import opened PolicyTypes
  import JsonGrammar
  import JsonRoundTrip
  import JsonTokens

  /** The bytes of a word. */
  function Ascii(s: string): Text
    requires forall i :: 0 <= i < |s| ==> s[i] < 128 as char
  {
    seq(|s|, i requires 0 <= i < |s| => s[i] as int)
  }

  // ---------- Words and numbers ----------

  /** The keys of a policy document. */
  lemma Keys()
    ensures POLICY_NAME == Ascii("policy_name") && RULES == Ascii("rules")
    ensures ACTION == Ascii("action") && DIRECTION == Ascii("direction") && PROTOCOL == Ascii("protocol")
    ensures HTTP == Ascii("http") && HOST == Ascii("host") && METHOD == Ascii("method") && PATH == Ascii("path")
    ensures FROM_ADDRESSES == Ascii("from_addresses") && TO_ADDRESSES == Ascii("to_addresses")
    ensures IP == Ascii("ip") && POD_ID == Ascii("pod_id")
    ensures PORTS == Ascii("ports") && PORT == Ascii("port") && END_PORT == Ascii("endPort")
    ensures PRIORITY == Ascii("priority")
  {
  }

  /** The words of a policy document, and what they are read as; any other action denies, any other protocol is any. */
  lemma Words(s: Text)
    ensures ConvertRuleAction(s)
            == if s == Ascii("Allow") || s == Ascii("Log") then 1 else if s == Ascii("Alert") then 2 else 0
    ensures NetProtoConvert(s)
            == if s == Ascii("TCP") then 6 else if s == Ascii("UDP") then 17 else if s == Ascii("ICMP") then 1 else 0
    ensures INGRESS_TEXT == Ascii("ingress") && EGRESS_TEXT == Ascii("egress")
  {
  }

  /** The part of a rule that all its entries share: deny, allow and alert are 1, 2 and 3 in a request. */
  lemma RuleNumbers(r: RuleSpec, name: Text)
    ensures RuleOf(r, name)
            == Rule(name,
                    match r.action case 2 => 1 case 3 => 2 case _ => 0,
                    match r.action case 2 => Ascii("Allow") case 3 => Ascii("Alert") case _ => Ascii("Deny"),
                    match r.direction case 1 => Ingress case _ => Egress,
                    match r.protocol case 1 => 6 case 2 => 17 case 3 => 1 case _ => 0,
                    r.priority)
  {
  }

  // ---------- Entries ----------

  /** Each rule of an HTTP list, with the action and the direction of the rule it belongs to. */
  lemma {:induction false} HttpRuleAt(hs: seq<HttpSpec>, action: nat, dir: Direction, i: nat)
    requires i < |hs|
    ensures |HttpRulesOf(hs, action, dir)| == |hs|
    ensures HttpRulesOf(hs, action, dir)[i] == HttpRule(action, dir, hs[i].host, hs[i].verb, hs[i].path)
  {
    if i > 0 {
      HttpRuleAt(hs[1..], action, dir, i - 1);
    } else if |hs| > 1 {
      HttpRuleAt(hs[1..], action, dir, 0);
    }
  }

  /** A rule without ports has one entry for each source and destination, for all ports and protocols. */
  lemma WithoutPorts(r: RuleSpec, name: Text, i: nat, j: nat)
    requires Expandable(r) && r.ports == [] && 1 <= r.priority <= 128
    requires i < |Addresses(r.from).value| && j < |Addresses(r.to).value|
    ensures var srcs, dsts, place := Addresses(r.from).value, Addresses(r.to).value, i * |Addresses(r.to).value| + j;
            && 0 <= place < |Entries(r, name)| == |srcs| * |dsts|
            && Entries(r, name)[place] == Add(RuleOf(r, name), srcs[i], dsts[j], Port(0, 0, 0))
  {
    hide Product;
    hide Addresses;
    ProductAt(RuleOf(r, name), Addresses(r.from).value, Addresses(r.to).value, [Port(0, 0, 0)], i, j, 0);
  }

  /** What is kept of the number of a port. */
  function Kept(n: nat): nat {
    if n >= 0x7FFF_FFFF then 65535 else n % 65536
  }

  /** Where the entry of the source `i`, the destination `j` and the port `k` stands. */
  function Slot(i: nat, j: nat, k: nat, dsts: nat, ports: nat): nat {
    (i * dsts + j) * ports + k
  }

  /** A rule with ports has one for each of them too; an end of zero means that there is only one port. */
  lemma WithPorts(r: RuleSpec, name: Text, i: nat, j: nat, k: nat)
    requires Expandable(r) && k < |r.ports| && 1 <= r.priority <= 128
    requires i < |Addresses(r.from).value| && j < |Addresses(r.to).value|
    ensures var srcs, dsts := Addresses(r.from).value, Addresses(r.to).value;
            var place := Slot(i, j, k, |dsts|, |r.ports|);
            var port, end := Kept(r.ports[k].port), Kept(r.ports[k].end);
            && place < |Entries(r, name)| == |srcs| * |dsts| * |r.ports|
            && Entries(r, name)[place]
               == Add(RuleOf(r, name), srcs[i], dsts[j],
                      Port(port, if end == 0 then port else end, RuleOf(r, name).proto))
  {
    hide Product;
    hide Addresses;
    PortAt(r.ports, ProtoOf(r.protocol), k);
    ProductAt(RuleOf(r, name), Addresses(r.from).value, Addresses(r.to).value, Ports(r), i, j, k);
  }

  lemma {:induction false} PortAt(ps: seq<PortSpec>, proto: nat, k: nat)
    requires k < |ps|
    ensures |PortRanges(ps, proto)| == |ps|
    ensures var port, end := Kept(ps[k].port), Kept(ps[k].end);
            PortRanges(ps, proto)[k] == Port(port, if end == 0 then port else end, proto)
  {
    if k > 0 {
      PortAt(ps[1..], proto, k - 1);
    } else if |ps| > 1 {
      PortAt(ps[1..], proto, 0);
    }
  }

  /** Under any other priority there is none. */
  lemma Refused(r: RuleSpec, name: Text)
    requires Expandable(r) && !(1 <= r.priority <= 128)
    ensures Entries(r, name) == []
  {
    ProductLength(RuleOf(r, name), Addresses(r.from).value, Addresses(r.to).value, PortsOrAny(Ports(r)));
  }

  // ---------- Entries of a request ----------

  /** All rules in front of `n`, and that one, are read. */
  predicate Reached(q: Request, n: nat) {
    n < |q.rules| && forall m :: 0 <= m <= n ==> Expandable(q.rules[m])
  }

  lemma {:induction false} EntryOfRule(rs: seq<RuleSpec>, name: Text, n: nat, e: EngineOp)
    requires n < |rs| && (forall m :: 0 <= m <= n ==> Expandable(rs[m])) && e in Entries(rs[n], name)
    ensures e in AllEntries(rs, name)
  {
    hide Expandable;
    hide Entries;
    if n > 0 {
      EntryOfRule(rs[1..], name, n - 1, e);
    }
  }

  lemma {:induction false} RuleOfEntry(rs: seq<RuleSpec>, name: Text, e: EngineOp) returns (n: nat)
    requires e in AllEntries(rs, name)
    ensures n < |rs| && (forall m :: 0 <= m <= n ==> Expandable(rs[m])) && e in Entries(rs[n], name)
  {
    hide Expandable;
    hide Entries;
    n := 0;
    if e !in Entries(rs[0], name) {
      n := RuleOfEntry(rs[1..], name, e);
      n := n + 1;
      assert forall m :: 1 <= m <= n ==> rs[m] == rs[1..][m - 1];
    }
  }

  /**
    The engine is told to forget the name, in both directions, and then gets the
    entries of exactly the rules that are reached.
   */
  lemma EngineMeant(s: Store, q: Request, e: EngineOp)
    ensures var deleted := if q.name == [] then [] else [Delete(Ingress, q.name), Delete(Egress, q.name)];
            s.engine + deleted <= Meant(s, q).engine
    ensures e in Meant(s, q).engine <==>
              || e in s.engine
              || (q.name != [] && e.Delete? && e.key == q.name)
              || exists n: nat :: Reached(q, n) && e in Entries(q.rules[n], q.name)
  {
    hide Expandable;
    hide Entries;
    hide AllEntries;
    assert e.Delete? ==> e.dir == Ingress || e.dir == Egress;
    if e in AllEntries(q.rules, q.name) {
      var n := RuleOfEntry(q.rules, q.name, e);
      assert Reached(q, n);
    }
    if n: nat :| Reached(q, n) && e in Entries(q.rules[n], q.name) {
      EntryOfRule(q.rules, q.name, n, e);
    }
  }

  /** A request whose rule has no ports: its addresses are there for all ports. */
  lemma MeantWithoutPorts(s: Store, q: Request, n: nat, i: nat, j: nat)
    requires Reached(q, n) && q.rules[n].ports == [] && 1 <= q.rules[n].priority <= 128
    requires i < |Addresses(q.rules[n].from).value| && j < |Addresses(q.rules[n].to).value|
    ensures var r := q.rules[n];
            var src, dst := Addresses(r.from).value[i], Addresses(r.to).value[j];
            Add(RuleOf(r, q.name), src, dst, Port(0, 0, 0)) in Meant(s, q).engine
  {
    var r := q.rules[n];
    WithoutPorts(r, q.name, i, j);
    EngineMeant(s, q, Add(RuleOf(r, q.name), Addresses(r.from).value[i], Addresses(r.to).value[j], Port(0, 0, 0)));
    hide Entries;
    hide Meant;
    hide Addresses;
  }

  function Rules(table: Table, key: Key): seq<HttpRule> {
    if key in table then table[key] else []
  }

  /** The HTTP rules of the name afterwards, in each direction: those of the request, unless there are none. */
  lemma TablesMeant(s: Store, q: Request, key: Key)
    ensures key != q.name ==>
              && (key in Meant(s, q).input <==> key in s.input)
              && (key in s.input ==> Meant(s, q).input[key] == s.input[key])
              && (key in Meant(s, q).output <==> key in s.output)
              && (key in s.output ==> Meant(s, q).output[key] == s.output[key])
    ensures q.name != [] ==>
              && (q.name in Meant(s, q).input <==> AllHttp(q.rules, Ingress) != [])
              && (q.name in Meant(s, q).input ==> Meant(s, q).input[q.name] == AllHttp(q.rules, Ingress))
              && (q.name in Meant(s, q).output <==> AllHttp(q.rules, Egress) != [])
              && (q.name in Meant(s, q).output ==> Meant(s, q).output[q.name] == AllHttp(q.rules, Egress))
    ensures q.name == [] ==>
              && Rules(Meant(s, q).input, []) == Rules(s.input, []) + AllHttp(q.rules, Ingress)
              && Rules(Meant(s, q).output, []) == Rules(s.output, []) + AllHttp(q.rules, Egress)
  {
    hide AllHttp;
    hide AllEntries;
    assert [] + AllHttp(q.rules, Ingress) == AllHttp(q.rules, Ingress);
    assert [] + AllHttp(q.rules, Egress) == AllHttp(q.rules, Egress);
  }

  // ---------- Documents that lack something ----------

  /** A rule is read to its end exactly when nothing that is asked for is missing and no address throws. */
  lemma OutcomeIff(j: Json, key: Text)
    ensures var from, to := Get(j, FROM_ADDRESSES), Get(j, TO_ADDRESSES);
            var begun := IsText(Get(j, ACTION)) && IsText(Get(j, DIRECTION)) && from.Some?;
            var ended := Get(j, PRIORITY).Some? && to.Some?;
            && (EffectOf(j, key).outcome.Done? <==>
                  begun && ended && AddressesOf(Items(from)).Some? && AddressesOf(Items(to)).Some?)
            && (EffectOf(j, key).outcome.Threw? <==>
                  begun && (AddressesOf(Items(from)).None? || (ended && AddressesOf(Items(to)).None?)))
            && (!EffectOf(j, key).outcome.Done? ==> EffectOf(j, key).ops == [])
    ensures IsText(Get(j, ACTION)) && IsText(Get(j, DIRECTION)) ==>
              var action := ConvertRuleAction(Get(j, ACTION).value.text);
              var dir := if Get(j, DIRECTION).value.text == INGRESS_TEXT then Ingress else Egress;
              EffectOf(j, key).dir == dir && EffectOf(j, key).http == HttpOf(Items(Get(j, HTTP)), action, dir)
  {
    hide Get;
    hide Items;
    hide AddressesOf;
    hide Product;
    hide HttpOf;
    hide PortsOf;
    hide ConvertRuleAction;
    hide NetProtoConvert;
  }

  function Append(a: Elements, b: Elements): Elements {
    if a.NoElement? then b else Element(a.item, Append(a.next, b))
  }

  /** What stands behind an address entry without an address is not read. */
  lemma {:induction false} AddressesStop(a: Elements, bad: Json, rest: Elements)
    requires !IsText(Get(bad, IP))
    ensures AddressesOf(Append(a, Element(bad, rest))) == AddressesOf(a)
  {
    if a.Element? {
      AddressesStop(a.next, bad, rest);
    }
  }

  /** What stands behind an HTTP rule that lacks a part is not read. */
  lemma {:induction false} HttpStops(a: Elements, bad: Json, rest: Elements, action: nat, dir: Direction)
    requires !IsText(Get(bad, HOST)) || !IsText(Get(bad, METHOD)) || !IsText(Get(bad, PATH))
    ensures HttpOf(Append(a, Element(bad, rest)), action, dir) == HttpOf(a, action, dir)
  {
    if a.Element? {
      HttpStops(a.next, bad, rest, action, dir);
    }
  }

  /** valueint: the number without its fraction, within the range of int. */
  lemma IntOfNumber(r: real)
    ensures var n := IntOf(Some(Number(r)));
            && (-2147483648.0 < r < 2147483647.0 ==>
                  (if r >= 0.0 then n as real <= r < n as real + 1.0 else n as real - 1.0 < r <= n as real))
            && (r >= 2147483647.0 ==> n == 2147483647)
            && (r <= -2147483648.0 ==> n == -2147483648)
    ensures IntOf(Some(True)) == 1 && IntOf(Some(False)) == 0 && IntOf(Some(Null)) == 0 && IntOf(None) == 0
  {
  }

  // ---------- std::stoi ----------

  /** Blanks, then a sign or none, then digits, then no digit. */
  predicate Spelled(s: Text, blanks: Text, sign: Text, digits: Text, tail: Text) {
    && s == blanks + (sign + (digits + tail))
    && (forall i :: 0 <= i < |blanks| ==> blanks[i] == ' ' as int || 9 <= blanks[i] <= 13)
    && (sign == [] || sign == ['+' as int] || sign == ['-' as int])
    && digits != [] && JsonTokens.AllDigits(digits)
    && (tail == [] || !JsonGrammar.IsDigit(tail[0]))
  }

  lemma {:induction false} StoiReads(s: Text, blanks: Text, sign: Text, digits: Text, tail: Text)
    requires Spelled(s, blanks, sign, digits, tail)
    ensures var v: int := JsonGrammar.DigitsValue(digits);
            var n := if sign == ['-' as int] then -v else v;
            Stoi(s) == if -0x8000_0000 <= n <= 0x7FFF_FFFF then Some(n) else None
    decreases |blanks|
  {
    hide JsonGrammar.DigitsValue;
    hide JsonGrammar.DigitSpan;
    if blanks == [] {
      assert s == sign + (digits + tail);
      var body := digits + tail;
      assert s[|sign|..] == body && body[0] == digits[0];
      JsonRoundTrip.DigitSpanAll(digits, tail);
      assert body[..|digits|] == digits;
      assert sign == [] ==> s == body;
    } else {
      assert s[1..] == blanks[1..] + (sign + (digits + tail));
      StoiReads(s[1..], blanks[1..], sign, digits, tail);
    }
  }

  lemma {:induction false} StoiFound(s: Text) returns (blanks: Text, sign: Text, digits: Text, tail: Text)
    requires Stoi(s).Some?
    ensures Spelled(s, blanks, sign, digits, tail)
    decreases |s|
  {
    hide Stoi;
    hide JsonGrammar.DigitSpan;
    hide JsonTokens.AllDigits;
    StoiTakes(s);
    if s[0] == 32 || 9 <= s[0] <= 13 {
      blanks, sign, digits, tail := StoiFound(s[1..]);
      blanks := [s[0]] + blanks;
    } else {
      blanks := [];
      sign, digits, tail := NumberHere(s);
    }
  }

  lemma NumberHere(s: Text) returns (sign: Text, digits: Text, tail: Text)
    requires s != [] && JsonGrammar.DigitSpan(s[if s[0] == 43 || s[0] == 45 then 1 else 0..]) > 0
    ensures Spelled(s, [], sign, digits, tail)
  {
    hide *;
    var n := if s[0] == 43 || s[0] == 45 then 1 else 0;
    var span := JsonGrammar.DigitSpan(s[n..]);
    JsonTokens.AfterDigits(s[n..]);
    sign, digits, tail := s[..n], s[n..][..span], s[n..][span..];
    ThreeParts(s, n, span);
    SpelledStep(s, sign, digits, tail);
  }

  lemma ThreeParts(s: Text, n: nat, span: nat)
    requires n <= 1 && n + span <= |s| && s != []
    ensures s == s[..n] + (s[n..][..span] + s[n..][span..])
    ensures s[..n] == (if n == 1 then [s[0]] else []) && (n + span < |s| ==> s[n..][span..][0] == s[n..][span])
  {
  }

  lemma SpelledStep(s: Text, sign: Text, digits: Text, tail: Text)
    requires s == sign + (digits + tail) && (sign == [] || sign == [43] || sign == [45])
    requires digits != [] && JsonTokens.AllDigits(digits) && (tail == [] || !JsonGrammar.IsDigit(tail[0]))
    ensures Spelled(s, [], sign, digits, tail)
  {
    hide JsonTokens.AllDigits;
    assert [] + s == s;
  }

  lemma StoiTakes(s: Text)
    requires Stoi(s).Some?
    ensures s != []
    ensures s[0] == 32 || 9 <= s[0] <= 13 ==> Stoi(s[1..]).Some?
    ensures !(s[0] == 32 || 9 <= s[0] <= 13) ==>
              JsonGrammar.DigitSpan(s[if s[0] == 43 || s[0] == 45 then 1 else 0..]) > 0
  {
    hide JsonGrammar.DigitsValue;
  }

  /** A range whose start is no address of four parts is passed over. */
  lemma NotFourParts(start: Text, end: Text)
    requires '-' as int !in start && Occurrences(start, '.' as int) != 3
    ensures Segment(start + ['-' as int] + end) == Some([])
  {
    var s := start + ['-' as int] + end;
    assert s == start + (['-' as int] + end);
    FindBehind(start, ['-' as int] + end, '-' as int);
    assert s[..|start|] == start;
  }
}
