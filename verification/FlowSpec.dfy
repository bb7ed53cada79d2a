/**
  What a packet does to the tracked flows and which verdict it gets, as tables.

  The flow engine's classification of a packet, the rule engine's match and the
  HTTP parser are inputs: the classification comes with the packet, the match is
  a function of tuple and direction, and a parser is a function of the chunks it
  has been fed.
 */
module FlowSpec {
  import opened Bytes
  import opened PolicyTypes

  const ICMP := 1
  const TCP := 6
  const UDP := 17
  const IP_HEADER := 20

  type ConnId = nat

  datatype Tuple = Tuple(proto: nat, src: nat, dst: nat, srcPort: nat, dstPort: nat)

  function Reverse(t: Tuple): (r: Tuple)
    ensures t == r.(src := r.dst, dst := r.src, srcPort := r.dstPort, dstPort := r.srcPort)
  {
    Tuple(t.proto, t.dst, t.src, t.dstPort, t.srcPort)
  }

  function Opposite(dir: Direction): Direction {
    if dir == Ingress then Egress else Ingress
  }

  /** `kind` is 1 for a new connection, 2 for a closed one, 3 and 5 for data, 4 for data seen before, and 0 for the rest. */
  datatype Decision = Decision(kind: nat, syn: bool, payloadOffset: nat, conn: ConnId, peer: ConnId)

  datatype Message = Message(id: nat, mark: nat, payload: Text, recognized: bool, tuple: Tuple, decision: Decision)

  // ---------- Policies ----------

  datatype Detail = Detail(key: Key, action: nat, priority: int)

  datatype Header = Header(host: Text, verb: Text, path: Text)

  datatype Rules = Rules(nodes: set<nat>, engine: (Tuple, Direction) -> Option<Detail>,
                         input: Table, output: Table)
  {
    function Http(dir: Direction): Table {
      if dir == Ingress then input else output
    }

    predicate HasHttp(dir: Direction, key: Key) {
      key in Http(dir) && Http(dir)[key] != []
    }

    function Rule(t: Tuple, dir: Direction): Option<Detail> {
      if t.src in nodes then None else engine(t, dir)
    }
  }

  /** The rule that decides, and the tuple and direction it was found for. */
  datatype Matched = Matched(action: nat, key: Key, tuple: Tuple, dir: Direction)

  /** A rule of the other direction wins when it has strictly higher priority (a lower number), unless this one allows. */
  function Match(rules: Rules, t: Tuple, dir: Direction): Matched {
    match rules.Rule(t, dir)
    case None => Matched(DEFAULT, [], t, dir)
    case Some(d) =>
      match rules.Rule(Reverse(t), Opposite(dir))
      case Some(r) =>
        if d.action != ALLOW && r.priority < d.priority then Matched(r.action, r.key, Reverse(t), Opposite(dir))
        else Matched(d.action, d.key, t, dir)
      case None => Matched(d.action, d.key, t, dir)
  }

  predicate Admits(rule: HttpRule, h: Header) {
    && (rule.host == [] || rule.host == h.host)
    && (rule.verb == [] || rule.verb == h.verb)
    && (rule.path == [] || rule.path == h.path)
  }

  /** The first rule that admits the header decides. */
  function HttpAction(rules: seq<HttpRule>, h: Header): nat {
    if rules == [] then DEFAULT
    else if Admits(rules[0], h) then rules[0].action
    else HttpAction(rules[1..], h)
  }

  // ---------- One packet ----------

  /** A tracked flow: its rule key, when it was last seen, and what its parser has been fed. */
  datatype Entry = Entry(key: Key, lastSeen: int, fed: seq<Text>)

  type Conns = map<ConnId, Entry>

  /** Packets already decided carry a mark and are not looked at again. */
  predicate Bypassed(dir: Direction, m: Message) {
    m.mark == ALLOW || m.mark == (if dir == Ingress then ALLOW_RSP else ALLOW_REQ)
  }

  predicate Examined(dir: Direction, m: Message) {
    !Bypassed(dir, m) && |m.payload| >= IP_HEADER && m.recognized
  }

  predicate HasPayload(m: Message) {
    3 <= m.decision.kind <= 5 && |m.payload| > m.decision.payloadOffset
  }

  function Data(m: Message): Text
    requires HasPayload(m)
  {
    m.payload[m.decision.payloadOffset..]
  }

  /** A TCP packet that the state machine sees. */
  predicate Seen(dir: Direction, m: Message) {
    Examined(dir, m) && m.tuple.proto == TCP && m.decision.kind != 0
  }

  /** On a flow that is not tracked, a rule is looked up for SYNs and for data only. */
  predicate Matchable(dir: Direction, m: Message) {
    Seen(dir, m) && (m.decision.syn || HasPayload(m))
  }

  /** Does this untracked packet begin a tracked flow? */
  predicate Begins(rules: Rules, dir: Direction, m: Message) {
    && Matchable(dir, m)
    && var r := Match(rules, m.tuple, dir); r.action != DEFAULT && rules.HasHttp(dir, r.key)
  }

  /** Data that goes to the parser of a tracked flow: not a SYN, not a duplicate. */
  predicate Feeds(dir: Direction, m: Message) {
    Seen(dir, m) && HasPayload(m) && !m.decision.syn && m.decision.kind != 4
  }

  function Fed(dir: Direction, m: Message): seq<Text> {
    if Feeds(dir, m) then [Data(m)] else []
  }

  function Touched(conns: Conns, d: Decision, now: int): Conns {
    if d.conn in conns && d.kind != 0 && d.kind != 4 then conns[d.conn := conns[d.conn].(lastSeen := now)] else conns
  }

  function NextConns(conns: Conns, rules: Rules, dir: Direction, m: Message, now: int): Conns {
    var d := m.decision;
    if !Seen(dir, m) then conns
    else
      var open := if d.kind == 2 then Touched(conns, d, now) - {d.conn, d.peer} else Touched(conns, d, now);
      if d.conn in conns then
        if Feeds(dir, m)
        then open[d.conn := Entry(conns[d.conn].key, now, conns[d.conn].fed + [Data(m)])]
        else open
      else if Begins(rules, dir, m)
      then open[d.conn := Entry(Match(rules, m.tuple, dir).key, now, Fed(dir, m))]
      else open
  }

  // ---------- Verdicts ----------

  /** The bytes that go with a verdict: none, the packet as it came, or the packet after rst_tcp_link. */
  datatype Sent = Nothing | Original | Reset

  datatype Verdict = Verdict(id: nat, accept: bool, mark: Option<nat>, sent: Sent)

  function Plain(m: Message): Verdict {
    Verdict(m.id, true, None, Nothing)
  }

  function Marked(m: Message, mark: nat): Verdict {
    Verdict(m.id, true, Some(mark), Nothing)
  }

  function Dropped(m: Message): Verdict {
    Verdict(m.id, false, None, Nothing)
  }

  /** The mark with which a direction lets a packet through without deciding its flow. */
  function OwnMark(dir: Direction): nat {
    if dir == Ingress then ALLOW_REQ else ALLOW_RSP
  }

  function RuleVerdict(m: Message, action: nat): Verdict {
    if action == DENY then Dropped(m) else Marked(m, ALLOW)
  }

  /** After the parser took the packet, with or without completing a header. */
  function HttpAnswer(rules: Rules, dir: Direction, m: Message, key: Key, header: Option<Header>): Verdict {
    if header.None? then Marked(m, OwnMark(dir))
    else if key !in rules.Http(dir) then Marked(m, DEFAULT)
    else
      var action := HttpAction(rules.Http(dir)[key], header.value);
      if action == DEFAULT then Marked(m, OwnMark(dir))
      else Verdict(m.id, true, Some(OwnMark(dir)), if action == DENY then Reset else Original)
  }

  function VerdictOf(conns: Conns, rules: Rules, parse: seq<Text> -> Option<Header>, dir: Direction, m: Message):
    Verdict
  {
    var d, r := m.decision, Match(rules, m.tuple, dir);
    if !Examined(dir, m) then Plain(m)
    else if m.tuple.proto == UDP || m.tuple.proto == ICMP then RuleVerdict(m, r.action)
    else if m.tuple.proto != TCP then Plain(m)
    else if d.kind == 0 then Marked(m, OwnMark(dir))
    else if d.conn in conns then
      if d.kind == 2 then Marked(m, ALLOW)
      else if d.kind == 4 && HasPayload(m) && !d.syn then Plain(m)
      else if !Feeds(dir, m) then Marked(m, OwnMark(dir))
      else HttpAnswer(rules, dir, m, conns[d.conn].key, parse(conns[d.conn].fed + [Data(m)]))
    else if !Matchable(dir, m) then Marked(m, OwnMark(dir))
    else if !Begins(rules, dir, m) then RuleVerdict(m, r.action)
    else if d.syn then Marked(m, OwnMark(dir))
    else HttpAnswer(rules, dir, m, r.key, if d.kind == 4 then None else parse(Fed(dir, m)))
  }

  // ---------- Events ----------

  /** A policy-match event for the listeners. */
  datatype Event = Event(tuple: Tuple, action: nat, dir: Direction, key: Key)

  function RuleEvents(r: Matched): seq<Event> {
    if r.action == DEFAULT then [] else [Event(r.tuple, r.action, r.dir, r.key)]
  }

  function HttpEvents(rules: Rules, dir: Direction, tuple: Tuple, key: Key, header: Option<Header>): seq<Event> {
    if header.None? || key !in rules.Http(dir) then []
    else
      var action := HttpAction(rules.Http(dir)[key], header.value);
      if action == DEFAULT then [] else [Event(tuple, action, dir, key)]
  }

  function EventsOf(conns: Conns, rules: Rules, parse: seq<Text> -> Option<Header>, dir: Direction, m: Message):
    seq<Event>
  {
    var d, r := m.decision, Match(rules, m.tuple, dir);
    if !Examined(dir, m) then []
    else if m.tuple.proto == UDP || m.tuple.proto == ICMP then RuleEvents(r)
    else if !Seen(dir, m) then []
    else if d.conn in conns then
      if !Feeds(dir, m) then []
      else HttpEvents(rules, dir, m.tuple, conns[d.conn].key, parse(conns[d.conn].fed + [Data(m)]))
    else if !Matchable(dir, m) then []
    else if !Begins(rules, dir, m) then RuleEvents(r)
    else if !Feeds(dir, m) then []
    else HttpEvents(rules, dir, r.tuple, r.key, parse(Fed(dir, m)))
  }

  // ---------- The reaper ----------

  /** The sweep keeps exactly the flows that the engine did not report and that are younger than the timeout. */
  function Swept(conns: Conns, reported: seq<ConnId>, now: int, timeout: int): Conns {
    map id | id in conns && id !in reported && now - conns[id].lastSeen < timeout :: conns[id]
  }
}
