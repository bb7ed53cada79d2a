/**
  What the verdicts and events mean, in the numbers of the source and without the
  tables of FlowSpec: which packets are inspected, which rule decides, which HTTP
  rule is the first that fits, and what is done then.
 */
module FlowVerdicts {
  import opened Bytes
  import opened FlowRuns
  import opened FlowSpec
  import opened PolicyTypes

  // ---------- Packets ----------

  /** Long enough, understood, and not let through by a mark that an earlier verdict left. */
  predicate Inspected(dir: Direction, m: Message) {
    && m.mark != 1 && m.mark != (match dir case Ingress => 3 case Egress => 4)
    && |m.payload| >= 20 && m.recognized
  }

  predicate Carries(m: Message) {
    (m.decision.kind == 3 || m.decision.kind == 4 || m.decision.kind == 5) && m.decision.payloadOffset < |m.payload|
  }

  /** A TCP packet with data that the parser of its flow has not had. */
  predicate Fresh(dir: Direction, m: Message) {
    Inspected(dir, m) && m.tuple.proto == 6 && Carries(m) && m.decision.kind != 4 && !m.decision.syn
  }

  lemma Classes(dir: Direction, m: Message)
    ensures Examined(dir, m) <==> Inspected(dir, m)
    ensures Seen(dir, m) <==> Inspected(dir, m) && m.tuple.proto == 6 && m.decision.kind != 0
    ensures Matchable(dir, m) <==>
              && Inspected(dir, m) && m.tuple.proto == 6 && m.decision.kind != 0
              && (m.decision.syn || Carries(m))
    ensures Feeds(dir, m) <==> Fresh(dir, m)
    ensures Fresh(dir, m) ==> Fed(dir, m) == [m.payload[m.decision.payloadOffset..]]
  {
  }

  /** The mark of one direction's verdicts lets the packet through in the other direction and not in its own. */
  lemma MarksPass(dir: Direction, m: Message)
    requires m.mark == OwnMark(dir)
    ensures m.mark == match dir case Ingress => 4 case Egress => 3
    ensures !Examined(Opposite(dir), m)
    ensures |m.payload| >= 20 && m.recognized ==> Examined(dir, m)
  {
  }

  // ---------- The rule that decides ----------

  /** No rule holds for packets from the node itself. */
  lemma NodesHaveNoRule(rules: Rules, t: Tuple, dir: Direction)
    ensures rules.Rule(t, dir) == None <==> t.src in rules.nodes || rules.engine(t, dir) == None
    ensures rules.Rule(t, dir).Some? ==> rules.Rule(t, dir) == rules.engine(t, dir)
  {
  }

  /**
    Without a rule of this direction nothing is decided. A rule that allows decides.
    Otherwise the rule with the smaller number decides, this one on a tie, and the
    tuple and direction are those that the deciding rule was found for.
   */
  lemma SmallerDecides(rules: Rules, t: Tuple, dir: Direction)
    ensures var back := Tuple(t.proto, t.dst, t.src, t.dstPort, t.srcPort);
            var other := match dir case Ingress => Egress case Egress => Ingress;
            var here, there, r := rules.Rule(t, dir), rules.Rule(back, other), Match(rules, t, dir);
            && (here.None? ==> r == Matched(5, [], t, dir))
            && (here.Some? && (there.None? || here.value.action == 1)
                ==> r == Matched(here.value.action, here.value.key, t, dir))
            && (here.Some? && there.Some? && here.value.action != 1 && here.value.priority <= there.value.priority
                ==> r == Matched(here.value.action, here.value.key, t, dir))
            && (here.Some? && there.Some? && here.value.action != 1 && there.value.priority < here.value.priority
                ==> r == Matched(there.value.action, there.value.key, back, other))
  {
  }

  // ---------- Tracked flows ----------

  /** A flow that is not tracked becomes so exactly on a SYN or data of its own whose rule has HTTP rules. */
  lemma TrackedIff(s: State, i: Input, timeout: int, id: ConnId)
    requires id !in s.conns
    ensures id in Step(s, i, timeout).conns <==>
              && i.Packet? && Inspected(i.dir, i.m) && i.m.tuple.proto == 6 && i.m.decision.kind != 0
              && i.m.decision.conn == id && (i.m.decision.syn || Carries(i.m))
              && var r := Match(s.rules, i.m.tuple, i.dir); r.action != 5 && WithHttp(s.rules, i.dir, r.key)
  {
  }

  /** The time of a tracked flow is that of its last packet that is neither a repetition nor of no interest. */
  lemma Refreshed(s: State, i: Input, timeout: int, id: ConnId)
    requires id in s.conns && id in Step(s, i, timeout).conns
    ensures Step(s, i, timeout).conns[id].lastSeen
            == if i.Packet? && Inspected(i.dir, i.m) && i.m.tuple.proto == 6 && i.m.decision.conn == id
                  && i.m.decision.kind != 0 && i.m.decision.kind != 4
               then i.now
               else s.conns[id].lastSeen
  {
  }

  // ---------- The HTTP rule that decides ----------

  /** An empty field fits everything. */
  predicate Fits(rule: HttpRule, h: Header) {
    rule.host in [[], h.host] && rule.verb in [[], h.verb] && rule.path in [[], h.path]
  }

  function TableOf(rules: Rules, dir: Direction): Table {
    match dir
    case Ingress => rules.input
    case Egress => rules.output
  }

  /** The key has HTTP rules in this direction. */
  predicate WithHttp(rules: Rules, dir: Direction, key: Key) {
    key in TableOf(rules, dir) && TableOf(rules, dir)[key] != []
  }

  /** Rule `i` of the key is the first that fits. */
  predicate FirstFit(table: Table, key: Key, h: Header, i: nat) {
    && key in table && i < |table[key]| && Fits(table[key][i], h)
    && forall j :: 0 <= j < i ==> !Fits(table[key][j], h)
  }

  /** The packet completes the header `h` of a flow whose rule key is `key`. */
  predicate Completes(
      conns: Conns, rules: Rules, parse: seq<Text> -> Option<Header>, dir: Direction, m: Message, key: Key, h: Header)
  {
    && Fresh(dir, m)
    && var data := m.payload[m.decision.payloadOffset..];
       var r := Match(rules, m.tuple, dir);
       if m.decision.conn in conns
       then key == conns[m.decision.conn].key && parse(conns[m.decision.conn].fed + [data]) == Some(h)
       else key == r.key && r.action != 5 && WithHttp(rules, dir, key) && parse([data]) == Some(h)
  }

  /** First rule that fits, or none: what the search yields. */
  lemma {:induction false} SearchFinds(rules: seq<HttpRule>, h: Header) returns (i: nat)
    ensures i <= |rules| && forall j :: 0 <= j < i ==> !Fits(rules[j], h)
    ensures i < |rules| ==> Fits(rules[i], h)
    ensures HttpAction(rules, h) == if i < |rules| then rules[i].action else 5
  {
    if rules == [] || Admits(rules[0], h) {
      i := 0;
    } else {
      i := SearchFinds(rules[1..], h);
      i := i + 1;
      assert forall j :: 1 <= j < i ==> rules[j] == rules[1..][j - 1];
    }
  }

  /** What a completed header gets: the number of the first rule that fits decides, and there is at most one. */
  lemma FirstFitAction(rules: Rules, dir: Direction, key: Key, h: Header, i: nat)
    requires FirstFit(TableOf(rules, dir), key, h, i)
    ensures key in rules.Http(dir) && HttpAction(rules.Http(dir)[key], h) == TableOf(rules, dir)[key][i].action
  {
    var k := SearchFinds(TableOf(rules, dir)[key], h);
  }

  lemma FitOrDefault(rules: Rules, dir: Direction, key: Key, h: Header)
    requires key in TableOf(rules, dir)
    ensures key in rules.Http(dir)
    ensures (exists i: nat :: FirstFit(TableOf(rules, dir), key, h, i)) || HttpAction(rules.Http(dir)[key], h) == 5
  {
    var k := SearchFinds(TableOf(rules, dir)[key], h);
    assert k < |TableOf(rules, dir)[key]| ==> FirstFit(TableOf(rules, dir), key, h, k);
  }

  /** The verdict on a packet that completes a header, in all three cases. */
  lemma CompletedVerdict(
      conns: Conns, rules: Rules, parse: seq<Text> -> Option<Header>, dir: Direction, m: Message, key: Key, h: Header)
    requires Completes(conns, rules, parse, dir, m, key, h)
    ensures var v, own := VerdictOf(conns, rules, parse, dir, m), match dir case Ingress => 4 case Egress => 3;
            && (key !in TableOf(rules, dir) ==> v == Verdict(m.id, true, Some(5), Nothing))
            && (key in TableOf(rules, dir) && (forall i: nat :: !FirstFit(TableOf(rules, dir), key, h, i))
                ==> v == Verdict(m.id, true, Some(own), Nothing))
            && (forall i: nat :: FirstFit(TableOf(rules, dir), key, h, i) ==>
                  var action := TableOf(rules, dir)[key][i].action;
                  v == Verdict(m.id, true, Some(own),
                               if action == 0 then Reset else if action == 5 then Nothing else Original))
  {
    if key in TableOf(rules, dir) {
      FitOrDefault(rules, dir, key, h);
    }
    forall i: nat | FirstFit(TableOf(rules, dir), key, h, i)
      ensures key in rules.Http(dir) && HttpAction(rules.Http(dir)[key], h) == TableOf(rules, dir)[key][i].action
    {
      FirstFitAction(rules, dir, key, h, i);
    }
    hide HttpAction;
    hide FirstFit;
  }

  /** Nothing is sent along with a verdict unless a header is completed. */
  lemma SentCompletes(
      conns: Conns, rules: Rules, parse: seq<Text> -> Option<Header>, dir: Direction, m: Message)
    returns (key: Key, h: Header)
    requires VerdictOf(conns, rules, parse, dir, m).sent != Nothing
    ensures Completes(conns, rules, parse, dir, m, key, h)
  {
    hide HttpAction;
    var d := m.decision;
    if d.conn in conns {
      key, h := conns[d.conn].key, parse(conns[d.conn].fed + [Data(m)]).value;
    } else {
      key, h := Match(rules, m.tuple, dir).key, parse([Data(m)]).value;
    }
  }

  /**
    A packet comes back reset exactly when it completes a header, the key of its flow is
    in the table of this direction, and the first rule that fits the header denies.
   */
  lemma ResetIff(conns: Conns, rules: Rules, parse: seq<Text> -> Option<Header>, dir: Direction, m: Message)
    ensures VerdictOf(conns, rules, parse, dir, m).sent == Reset <==>
              exists key, h, i: nat ::
                && Completes(conns, rules, parse, dir, m, key, h) && FirstFit(TableOf(rules, dir), key, h, i)
                && TableOf(rules, dir)[key][i].action == 0
    ensures VerdictOf(conns, rules, parse, dir, m).sent == Original <==>
              exists key, h, i: nat ::
                && Completes(conns, rules, parse, dir, m, key, h) && FirstFit(TableOf(rules, dir), key, h, i)
                && TableOf(rules, dir)[key][i].action != 0 && TableOf(rules, dir)[key][i].action != 5
  {
    hide VerdictOf;
    hide Completes;
    hide FirstFit;
    var v := VerdictOf(conns, rules, parse, dir, m);
    if v.sent != Nothing {
      var key, h := SentCompletes(conns, rules, parse, dir, m);
      CompletedVerdict(conns, rules, parse, dir, m, key, h);
      var i: nat :| FirstFit(TableOf(rules, dir), key, h, i);
      FirstFitKey(TableOf(rules, dir), key, h, i);
    }
    forall key, h, i: nat | Completes(conns, rules, parse, dir, m, key, h) && FirstFit(TableOf(rules, dir), key, h, i)
      ensures key in TableOf(rules, dir) && i < |TableOf(rules, dir)[key]|
      ensures var action := TableOf(rules, dir)[key][i].action;
              v.sent == if action == 0 then Reset else if action == 5 then Nothing else Original
    {
      FirstFitKey(TableOf(rules, dir), key, h, i);
      CompletedVerdict(conns, rules, parse, dir, m, key, h);
    }
  }

  lemma FirstFitKey(table: Table, key: Key, h: Header, i: nat)
    requires FirstFit(table, key, h, i)
    ensures key in table && i < |table[key]|
  {
  }

  // ---------- Every other verdict ----------

  /** The rule engine's rule decides by itself: no TCP, or the first word on a flow that has no HTTP rules. */
  predicate ByRule(conns: Conns, rules: Rules, dir: Direction, m: Message) {
    var r := Match(rules, m.tuple, dir);
    && Inspected(dir, m)
    && (|| m.tuple.proto == 17 || m.tuple.proto == 1
        || (&& m.tuple.proto == 6 && m.decision.kind != 0 && (m.decision.syn || Carries(m)) && m.decision.conn !in conns
            && (r.action == 5 || !WithHttp(rules, dir, r.key))))
  }

  lemma RuleDecides(conns: Conns, rules: Rules, parse: seq<Text> -> Option<Header>, dir: Direction, m: Message)
    requires ByRule(conns, rules, dir, m)
    ensures var v, r := VerdictOf(conns, rules, parse, dir, m), Match(rules, m.tuple, dir);
            && v == Verdict(m.id, r.action != 0, if r.action == 0 then None else Some(1), Nothing)
            && EventsOf(conns, rules, parse, dir, m)
               == if r.action == 5 then [] else [Event(r.tuple, r.action, r.dir, r.key)]
  {
  }

  /** Packets that nobody asks about, and data seen before on a tracked flow, pass without a mark. */
  predicate Unasked(conns: Conns, dir: Direction, m: Message) {
    || !Inspected(dir, m)
    || (m.tuple.proto != 1 && m.tuple.proto != 6 && m.tuple.proto != 17)
    || (m.tuple.proto == 6 && m.decision.conn in conns && m.decision.kind == 4 && Carries(m) && !m.decision.syn)
  }

  /**
    The whole verdict on a packet that completes no header and is not decided by a rule:
    no mark, the mark that ends inspection when a tracked flow closes, or the mark of the
    direction. No event is posted.
   */
  lemma OtherVerdict(conns: Conns, rules: Rules, parse: seq<Text> -> Option<Header>, dir: Direction, m: Message)
    requires !ByRule(conns, rules, dir, m) && forall key, h :: !Completes(conns, rules, parse, dir, m, key, h)
    ensures var own := match dir case Ingress => 4 case Egress => 3;
            VerdictOf(conns, rules, parse, dir, m)
            == if Unasked(conns, dir, m) then Verdict(m.id, true, None, Nothing)
               else if m.decision.kind == 2 && m.decision.conn in conns then Verdict(m.id, true, Some(1), Nothing)
               else Verdict(m.id, true, Some(own), Nothing)
    ensures EventsOf(conns, rules, parse, dir, m) == []
  {
    hide HttpAction;
    Classes(dir, m);
    HeadersComplete(conns, rules, parse, dir, m);
    hide Completes;
  }

  /** A parser that has a header after a packet with data has it completed. */
  lemma HeadersComplete(conns: Conns, rules: Rules, parse: seq<Text> -> Option<Header>, dir: Direction, m: Message)
    ensures Fresh(dir, m) ==>
              var d, data := m.decision, m.payload[m.decision.payloadOffset..];
              && (d.conn in conns && parse(conns[d.conn].fed + [data]).Some? ==>
                    exists key, h :: Completes(conns, rules, parse, dir, m, key, h))
              && (d.conn !in conns && Begins(rules, dir, m) && parse([data]).Some? ==>
                    exists key, h :: Completes(conns, rules, parse, dir, m, key, h))
  {
    if Fresh(dir, m) {
      var d, data := m.decision, m.payload[m.decision.payloadOffset..];
      if d.conn in conns {
        var header := parse(conns[d.conn].fed + [data]);
        assert header.Some? ==> Completes(conns, rules, parse, dir, m, conns[d.conn].key, header.value);
      } else {
        var header := parse([data]);
        assert header.Some? && Begins(rules, dir, m)
          ==> Completes(conns, rules, parse, dir, m, Match(rules, m.tuple, dir).key, header.value);
      }
    }
  }

  /** A completed header is reported exactly when a rule fits it that is not the default one. */
  lemma CompletedEvents(
      conns: Conns, rules: Rules, parse: seq<Text> -> Option<Header>, dir: Direction, m: Message, key: Key, h: Header)
    requires Completes(conns, rules, parse, dir, m, key, h)
    ensures var events := EventsOf(conns, rules, parse, dir, m);
            var tuple := if m.decision.conn in conns then m.tuple else Match(rules, m.tuple, dir).tuple;
            && ((forall i: nat :: !FirstFit(TableOf(rules, dir), key, h, i)) ==> events == [])
            && (forall i: nat :: FirstFit(TableOf(rules, dir), key, h, i) ==>
                  var action := TableOf(rules, dir)[key][i].action;
                  events == if action == 5 then [] else [Event(tuple, action, dir, key)])
  {
    if key in TableOf(rules, dir) {
      FitOrDefault(rules, dir, key, h);
    }
    forall i: nat | FirstFit(TableOf(rules, dir), key, h, i)
      ensures key in rules.Http(dir) && HttpAction(rules.Http(dir)[key], h) == TableOf(rules, dir)[key][i].action
    {
      FirstFitAction(rules, dir, key, h, i);
    }
    hide HttpAction;
    hide FirstFit;
  }
}
