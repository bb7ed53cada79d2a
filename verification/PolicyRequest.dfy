/** A policy request, the document written for it, and what must come of it. */
module PolicyRequest {
  import opened Bytes
  import opened JsonTree
  import opened JsonCompare
  import opened Policy
  import opened PolicyTypes
  import JsonGrammar
  import JsonRoundTrip
  import JsonPrinter
  import JsonReader

  datatype HttpSpec = HttpSpec(host: Text, verb: Text, path: Text)

  datatype Endpoint = Endpoint(ip: Text, pod: nat)

  datatype PortSpec = PortSpec(port: nat, end: nat)

  datatype RuleSpec = RuleSpec(action: int, direction: int, protocol: int, http: seq<HttpSpec>,
                               from: seq<Endpoint>, to: seq<Endpoint>, ports: seq<PortSpec>, priority: int)

  datatype Request = Request(name: Text, rules: seq<RuleSpec>)

  // ---------- The document ----------

  function ActionText(action: int): Text {
    if action == 2 then ALLOW_TEXT else if action == 3 then ALERT_TEXT else DENY_TEXT
  }

  function DirectionText(direction: int): Text {
    if direction == 1 then INGRESS_TEXT else EGRESS_TEXT
  }

  function ProtocolText(protocol: int): Text {
    if protocol == 1 then TCP_TEXT else if protocol == 2 then UDP_TEXT else if protocol == 3 then ICMP_TEXT else []
  }

  /** A member of an object, which may be left out. */
  datatype Field = Field(there: bool, key: Text, item: Json)

  function Build(fs: seq<Field>): Members {
    if fs == [] then NoMember
    else if fs[0].there then Member(fs[0].key, fs[0].item, Build(fs[1..]))
    else Build(fs[1..])
  }

  function HttpFields(h: HttpSpec): seq<Field> {
    [Field(true, HOST, String(h.host)), Field(true, METHOD, String(h.verb)), Field(true, PATH, String(h.path))]
  }

  function HttpItem(h: HttpSpec): Json {
    Object(Build(HttpFields(h)))
  }

  function HttpList(hs: seq<HttpSpec>): Elements {
    if hs == [] then NoElement else Element(HttpItem(hs[0]), HttpList(hs[1..]))
  }

  function AddressFields(e: Endpoint): seq<Field> {
    [Field(true, IP, String(e.ip)), Field(true, POD_ID, Number(e.pod as real))]
  }

  function AddressItem(e: Endpoint): Json {
    Object(Build(AddressFields(e)))
  }

  function AddressList(es: seq<Endpoint>): Elements {
    if es == [] then NoElement else Element(AddressItem(es[0]), AddressList(es[1..]))
  }

  function PortFields(p: PortSpec): seq<Field> {
    [Field(true, PORT, Number(p.port as real)), Field(true, END_PORT, Number(p.end as real))]
  }

  function PortItem(p: PortSpec): Json {
    Object(Build(PortFields(p)))
  }

  function PortList(ps: seq<PortSpec>): Elements {
    if ps == [] then NoElement else Element(PortItem(ps[0]), PortList(ps[1..]))
  }

  function RuleFields(r: RuleSpec): seq<Field> {
    [Field(true, ACTION, String(ActionText(r.action))),
     Field(true, DIRECTION, String(DirectionText(r.direction))),
     Field(r.protocol != 0, PROTOCOL, String(ProtocolText(r.protocol))),
     Field(r.http != [], HTTP, Array(HttpList(r.http))),
     Field(true, FROM_ADDRESSES, Array(AddressList(r.from))),
     Field(true, TO_ADDRESSES, Array(AddressList(r.to))),
     Field(r.ports != [], PORTS, Array(PortList(r.ports))),
     Field(true, PRIORITY, Number(r.priority as real))]
  }

  function RuleItem(r: RuleSpec): Json {
    Object(Build(RuleFields(r)))
  }

  function RuleList(rs: seq<RuleSpec>): Elements {
    if rs == [] then NoElement else Element(RuleItem(rs[0]), RuleList(rs[1..]))
  }

  function DocumentFields(q: Request): seq<Field> {
    [Field(true, POLICY_NAME, String(q.name)), Field(true, RULES, Array(RuleList(q.rules)))]
  }

  /** The document of GrpcDispatchAddPolicyRule. */
  function Document(q: Request): Json {
    Object(Build(DocumentFields(q)))
  }

  // ---------- What it is to mean ----------

  function ActionOf(action: int): nat {
    if action == 2 then ALLOW else if action == 3 then MARK else DENY
  }

  function DirectionOf(direction: int): Direction {
    if direction == 1 then Ingress else Egress
  }

  function ProtoOf(protocol: int): nat {
    if protocol == 1 then 6 else if protocol == 2 then 17 else if protocol == 3 then 1 else 0
  }

  function RuleOf(r: RuleSpec, name: Text): Rule {
    Rule(name, ActionOf(r.action), ActionText(r.action), DirectionOf(r.direction), ProtoOf(r.protocol), r.priority)
  }

  function HttpRulesOf(hs: seq<HttpSpec>, action: nat, dir: Direction): seq<HttpRule> {
    if hs == [] then []
    else [HttpRule(action, dir, hs[0].host, hs[0].verb, hs[0].path)] + HttpRulesOf(hs[1..], action, dir)
  }

  function HttpRules(r: RuleSpec): seq<HttpRule> {
    HttpRulesOf(r.http, ActionOf(r.action), DirectionOf(r.direction))
  }

  /** All addresses of a list, ranges written out; None when the bounds of a range are no numbers. */
  function Addresses(es: seq<Endpoint>): Option<seq<Text>> {
    if es == [] then Some([]) else Both(Expand(es[0].ip), Addresses(es[1..]))
  }

  predicate Expandable(r: RuleSpec) {
    Addresses(r.from).Some? && Addresses(r.to).Some?
  }

  /** What sixteen bits keep of the int that the JSON number is read as. */
  function Narrow(n: nat): nat {
    (if n >= INT_MAX then INT_MAX else n) % 65536
  }

  function PortRanges(ps: seq<PortSpec>, proto: nat): seq<Port> {
    if ps == [] then []
    else
      var port, end := Narrow(ps[0].port), Narrow(ps[0].end);
      [Port(port, if end == 0 then port else end, proto)] + PortRanges(ps[1..], proto)
  }

  function Ports(r: RuleSpec): seq<Port> {
    PortRanges(r.ports, ProtoOf(r.protocol))
  }

  /** The engine's entries of a rule: sources, within them destinations, within them ports. */
  function Entries(r: RuleSpec, name: Text): seq<EngineOp>
    requires Expandable(r)
  {
    Product(RuleOf(r, name), Addresses(r.from).value, Addresses(r.to).value, PortsOrAny(Ports(r)))
  }

  /** The entries of all rules, up to the first whose addresses make the reader throw. */
  function AllEntries(rs: seq<RuleSpec>, name: Text): seq<EngineOp> {
    if rs == [] || !Expandable(rs[0]) then [] else Entries(rs[0], name) + AllEntries(rs[1..], name)
  }

  /** The HTTP rules of one direction, in the order of the request, up to and with the rule that throws. */
  function AllHttp(rs: seq<RuleSpec>, dir: Direction): seq<HttpRule> {
    if rs == [] then []
    else
      (if DirectionOf(rs[0].direction) == dir then HttpRules(rs[0]) else [])
      + if Expandable(rs[0]) then AllHttp(rs[1..], dir) else []
  }

  /** The store after a request: the name's old rules are gone, the request's are there, all else is as it was. */
  function Meant(s: Store, q: Request): Store {
    var t := Deleted(s, q.name);
    Store(Push(t.input, q.name, AllHttp(q.rules, Ingress)),
          Push(t.output, q.name, AllHttp(q.rules, Egress)),
          t.engine + AllEntries(q.rules, q.name))
  }

  /** Applying a request again changes neither table, except that without a name nothing is deleted first. */
  lemma Again(s: Store, q: Request)
    ensures Meant(Meant(s, q), q).input == Meant(s, q).input && Meant(Meant(s, q), q).output == Meant(s, q).output
            <==> q.name != [] || (AllHttp(q.rules, Ingress) == [] && AllHttp(q.rules, Egress) == [])
  {
    var once := Meant(s, q);
    if q.name == [] {
      PushedTwice(once.input, q.name, AllHttp(q.rules, Ingress));
      PushedTwice(once.output, q.name, AllHttp(q.rules, Egress));
    } else {
      PushedAgain(s.input, q.name, AllHttp(q.rules, Ingress));
      PushedAgain(s.output, q.name, AllHttp(q.rules, Egress));
    }
  }

  /** It fails for a request without a name and with one HTTP rule: the rule is there twice. */
  lemma UnnamedAgain(s: Store, h: HttpSpec)
    ensures var q := Request([], [RuleSpec(2, 1, 0, [h], [], [], [], 1)]);
            Meant(Meant(s, q), q).input != Meant(s, q).input
  {
    var r := RuleSpec(2, 1, 0, [h], [], [], [], 1);
    var q := Request([], [r]);
    assert HttpRules(r) != [];
    assert AllHttp(q.rules, Ingress) != [];
    PushedTwice(Meant(s, q).input, q.name, AllHttp(q.rules, Ingress));
  }

  lemma PushedAgain(t: Table, key: Text, rules: seq<HttpRule>)
    ensures Push(Push(t - {key}, key, rules) - {key}, key, rules) == Push(t - {key}, key, rules)
  {
    assert Push(t - {key}, key, rules) - {key} == t - {key};
  }

  lemma PushedTwice(t: Table, key: Text, rules: seq<HttpRule>)
    ensures Push(t, key, rules) == t <==> rules == []
  {
    var before := if key in t then t[key] else [];
    assert rules != [] ==> |Push(t, key, rules)[key]| > |before|;
  }

  // ---------- Well-formed requests ----------

  predicate WellFormedRule(r: RuleSpec) {
    && (forall i :: 0 <= i < |r.http| ==> NulFree(r.http[i].host) && NulFree(r.http[i].verb) && NulFree(r.http[i].path))
    && WellFormedEndpoints(r.from) && WellFormedEndpoints(r.to)
    && (forall i :: 0 <= i < |r.ports| ==> r.ports[i].port < 0x1_0000_0000 && r.ports[i].end < 0x1_0000_0000)
    && INT_MIN <= r.priority <= INT_MAX
  }

  /** Pod numbers are carried as doubles, and printed exactly up to fifteen digits. */
  predicate WellFormedEndpoints(es: seq<Endpoint>) {
    forall i :: 0 <= i < |es| ==> NulFree(es[i].ip) && es[i].pod < 1_000_000_000_000_000
  }

  predicate WellFormed(q: Request) {
    NulFree(q.name) && forall i :: 0 <= i < |q.rules| ==> WellFormedRule(q.rules[i])
  }

  // ---------- Reading the document back ----------

  /** No two of the keys are the same key. */
  ghost predicate KeysApart(fs: seq<Field>) {
    forall i, j :: 0 <= i < |fs| && 0 <= j < |fs| && i != j ==> !SameKey(fs[i].key, fs[j].key, false)
  }

  /** Looking a key up in an object passes by every other key. */
  lemma {:induction false} FieldFound(fs: seq<Field>, i: nat)
    requires KeysApart(fs) && i < |fs|
    ensures Get(Object(Build(fs)), fs[i].key) == if fs[i].there then Some(fs[i].item) else None
  {
    hide SameKey;
    var f := fs[0];
    GetFirst(f.key, f.item, Build(fs[1..]), fs[i].key);
    if i > 0 {
      FieldFound(fs[1..], i - 1);
    } else {
      KeySame(f.key);
      if !f.there {
        NotFound(fs[1..], f.key);
      }
    }
  }

  lemma {:induction false} NotFound(fs: seq<Field>, key: Text)
    requires forall i :: 0 <= i < |fs| ==> !SameKey(key, fs[i].key, false)
    ensures Get(Object(Build(fs)), key) == None
  {
    if fs != [] {
      GetFirst(fs[0].key, fs[0].item, Build(fs[1..]), key);
      NotFound(fs[1..], key);
    }
  }

  lemma KeySame(key: Text)
    ensures SameKey(key, key, false)
  {
  }

  /** Keys of different length are different, and so are keys whose third letters are. */
  lemma TellApart(fs: seq<Field>)
    requires forall i, j :: 0 <= i < j < |fs| ==>
               |fs[i].key| != |fs[j].key|
               || (2 < |fs[i].key| && fs[i].key[2] != fs[j].key[2] && fs[i].key[2] >= 97 && fs[j].key[2] >= 97)
    ensures KeysApart(fs)
  {
    forall i, j | 0 <= i < |fs| && 0 <= j < |fs| && i != j ensures !SameKey(fs[i].key, fs[j].key, false) {
      KeysDiffer(fs[i].key, fs[j].key, 2);
    }
  }

  lemma HttpRead(h: HttpSpec, action: nat, dir: Direction)
    ensures HttpRuleOf(HttpItem(h), action, dir) == Some(HttpRule(action, dir, h.host, h.verb, h.path))
    ensures TypedHttpItem(HttpItem(h))
  {
    var fs := HttpFields(h);
    TellApart(fs);
    FieldFound(fs, 0);
    FieldFound(fs, 1);
    FieldFound(fs, 2);
    hide Get;
    hide Build;
    hide HttpFields;
  }

  lemma {:induction false} HttpListRead(hs: seq<HttpSpec>, action: nat, dir: Direction)
    ensures HttpOf(HttpList(hs), action, dir) == HttpRulesOf(hs, action, dir)
    ensures TypedHttp(HttpList(hs))
  {
    if hs != [] {
      HttpRead(hs[0], action, dir);
      HttpListRead(hs[1..], action, dir);
    }
  }

  lemma {:induction false} AddressListRead(es: seq<Endpoint>)
    ensures AddressesOf(AddressList(es)) == Addresses(es) && TypedAddresses(AddressList(es))
  {
    if es != [] {
      TellApart(AddressFields(es[0]));
      FieldFound(AddressFields(es[0]), 0);
      AddressListRead(es[1..]);
    }
  }

  lemma PortRead(p: PortSpec, proto: nat)
    ensures var port, end := Narrow(p.port), Narrow(p.end);
            PortOf(PortItem(p), proto) == Port(port, if end == 0 then port else end, proto)
  {
    var fs := PortFields(p);
    TellApart(fs);
    FieldFound(fs, 0);
    FieldFound(fs, 1);
    NumberRead(p.port);
    NumberRead(p.end);
    hide Get;
    hide Build;
    hide PortFields;
    hide Narrow;
    hide IntOf;
  }

  lemma NumberRead(n: nat)
    ensures IntOf(Some(Number(n as real))) % 65536 == Narrow(n)
  {
  }

  lemma {:induction false} PortListRead(ps: seq<PortSpec>, proto: nat)
    ensures PortsOf(PortList(ps), proto) == PortRanges(ps, proto)
  {
    if ps != [] {
      PortRead(ps[0], proto);
      PortListRead(ps[1..], proto);
    }
  }

  /** What each lookup in a rule's object finds. */
  predicate Reads(j: Json, r: RuleSpec) {
    && Get(j, ACTION) == Some(String(ActionText(r.action)))
    && Get(j, DIRECTION) == Some(String(DirectionText(r.direction)))
    && Get(j, PROTOCOL) == (if r.protocol != 0 then Some(String(ProtocolText(r.protocol))) else None)
    && Get(j, HTTP) == (if r.http != [] then Some(Array(HttpList(r.http))) else None)
    && Get(j, FROM_ADDRESSES) == Some(Array(AddressList(r.from)))
    && Get(j, TO_ADDRESSES) == Some(Array(AddressList(r.to)))
    && Get(j, PORTS) == (if r.ports != [] then Some(Array(PortList(r.ports))) else None)
    && Get(j, PRIORITY) == Some(Number(r.priority as real))
  }

  lemma RuleFound(r: RuleSpec)
    ensures Reads(RuleItem(r), r)
  {
    hide Get;
    hide Build;
    var fs := RuleFields(r);
    RuleKeysApart(r);
    FieldFound(fs, 0);
    FieldFound(fs, 1);
    FieldFound(fs, 2);
    FieldFound(fs, 3);
    FieldFound(fs, 4);
    FieldFound(fs, 5);
    FieldFound(fs, 6);
    FieldFound(fs, 7);
    assert Reads(RuleItem(r), r);
  }

  lemma RuleKeysApart(r: RuleSpec)
    ensures KeysApart(RuleFields(r))
  {
    TellApart(RuleFields(r));
  }

  lemma TextsConvert(r: RuleSpec)
    ensures ConvertRuleAction(ActionText(r.action)) == ActionOf(r.action)
    ensures (DirectionText(r.direction) == INGRESS_TEXT) == (DirectionOf(r.direction) == Ingress)
    ensures NetProtoConvert(ProtocolText(r.protocol)) == ProtoOf(r.protocol)
  {
  }

  /** What a rule of a request does by itself. */
  function RuleEffect(r: RuleSpec, name: Text): Effect {
    Effect(DirectionOf(r.direction), HttpRules(r), if Expandable(r) then Entries(r, name) else [],
           if Expandable(r) then Done else Threw)
  }

  /** A rule read back has the effect the request asks for. */
  lemma RuleMeans(j: Json, r: RuleSpec, name: Text)
    requires WellFormedRule(r) && Reads(j, r)
    ensures EffectOf(j, name) == RuleEffect(r, name)
  {
    hide *;
    RuleScalars(j, r, name);
    TurnByItself(j, name);
    RuleLists(j, r);
    RuleComplete(j, r);
    ListedMeans(j, r, name);
  }

  lemma TurnByItself(j: Json, name: Text)
    requires IsText(Get(j, ACTION)) && IsText(Get(j, DIRECTION))
    ensures EffectOf(j, name) == ListedTurn(j, RuleIn(j, name), [], [], [])
  {
    hide ListedTurn;
    hide RuleIn;
    hide Get;
  }

  lemma RuleComplete(j: Json, r: RuleSpec)
    requires Reads(j, r)
    ensures Get(j, FROM_ADDRESSES).Some? && Get(j, TO_ADDRESSES).Some? && Get(j, PRIORITY).Some?
  {
    hide Get;
  }

  lemma ListedMeans(j: Json, r: RuleSpec, name: Text)
    requires Get(j, FROM_ADDRESSES).Some? && Get(j, TO_ADDRESSES).Some? && Get(j, PRIORITY).Some?
    requires HttpOf(Items(Get(j, HTTP)), ActionOf(r.action), DirectionOf(r.direction)) == HttpRules(r)
    requires PortsOf(Items(Get(j, PORTS)), ProtoOf(r.protocol)) == Ports(r)
    requires AddressesOf(Items(Get(j, FROM_ADDRESSES))) == Addresses(r.from)
    requires AddressesOf(Items(Get(j, TO_ADDRESSES))) == Addresses(r.to)
    ensures ListedTurn(j, RuleOf(r, name), [], [], []) == RuleEffect(r, name)
  {
    hide Get;
    hide Items;
    hide Product;
    hide HttpOf;
    hide PortsOf;
    hide AddressesOf;
    hide Addresses;
    hide HttpRules;
    hide Ports;
    hide PortsOrAny;
    var srcs, dsts, ports := Addresses(r.from), Addresses(r.to), Ports(r);
    assert [] + ports == ports && (Expandable(r) ==> [] + srcs.value == srcs.value && [] + dsts.value == dsts.value);
  }

  lemma RuleScalars(j: Json, r: RuleSpec, name: Text)
    requires WellFormedRule(r) && Reads(j, r)
    ensures IsText(Get(j, ACTION)) && IsText(Get(j, DIRECTION)) && RuleIn(j, name) == RuleOf(r, name)
  {
    TextsConvert(r);
    assert JsonGrammar.ValueInt(r.priority as real) == r.priority;
    hide Get;
    hide ActionText;
    hide DirectionText;
    hide ProtocolText;
    hide ConvertRuleAction;
    hide NetProtoConvert;
    assert RuleIn(j, name) == RuleOf(r, name);
  }

  lemma RuleTyped(j: Json, r: RuleSpec)
    requires WellFormedRule(r) && Reads(j, r)
    ensures TypedRule(j)
  {
    RuleLists(j, r);
    hide Get;
    hide Items;
    hide TypedAddresses;
    hide TypedHttp;
    hide AddressesOf;
    assert TypedRule(j);
  }

  /** The lists inside a rule's object. */
  lemma RuleLists(j: Json, r: RuleSpec)
    requires WellFormedRule(r) && Reads(j, r)
    ensures HttpOf(Items(Get(j, HTTP)), ActionOf(r.action), DirectionOf(r.direction)) == HttpRules(r)
    ensures PortsOf(Items(Get(j, PORTS)), ProtoOf(r.protocol)) == Ports(r)
    ensures AddressesOf(Items(Get(j, FROM_ADDRESSES))) == Addresses(r.from)
    ensures AddressesOf(Items(Get(j, TO_ADDRESSES))) == Addresses(r.to)
    ensures TypedHttp(Items(Get(j, HTTP)))
    ensures TypedAddresses(Items(Get(j, FROM_ADDRESSES))) && TypedAddresses(Items(Get(j, TO_ADDRESSES)))
  {
    HttpListRead(r.http, ActionOf(r.action), DirectionOf(r.direction));
    AddressListRead(r.from);
    AddressListRead(r.to);
    PortListRead(r.ports, ProtoOf(r.protocol));
    hide Get;
    hide HttpOf;
    hide PortsOf;
    hide AddressesOf;
    hide Addresses;
    hide TypedAddresses;
    hide TypedHttp;
    assert Items(Get(j, HTTP)) == HttpList(r.http);
    assert Items(Get(j, PORTS)) == PortList(r.ports);
    assert Items(Get(j, FROM_ADDRESSES)) == AddressList(r.from);
    assert Items(Get(j, TO_ADDRESSES)) == AddressList(r.to);
  }

  lemma {:induction false} AllRules(s: Store, rs: seq<RuleSpec>, name: Text)
    requires forall i :: 0 <= i < |rs| ==> WellFormedRule(rs[i])
    ensures ApplyAll(s, name, RuleList(rs))
            == Store(Push(s.input, name, AllHttp(rs, Ingress)), Push(s.output, name, AllHttp(rs, Egress)),
                     s.engine + AllEntries(rs, name))
    decreases |rs|
  {
    if rs == [] {
      assert s.engine + [] == s.engine;
    } else {
      RuleFound(rs[0]);
      RuleMeans(RuleItem(rs[0]), rs[0], name);
      var t := Apply(s, name, RuleEffect(rs[0], name));
      hide EffectOf;
      hide RuleItem;
      hide Expandable;
      if Expandable(rs[0]) {
        AllRules(t, rs[1..], name);
        NextHttp(rs, name, Ingress);
        NextHttp(rs, name, Egress);
        NextEntries(rs, name);
        hide AllHttp;
        hide AllEntries;
        OneMore(s, name, RuleEffect(rs[0], name), AllHttp(rs[1..], Ingress), AllHttp(rs[1..], Egress),
                AllEntries(rs[1..], name));
      } else {
        LastOne(s, rs, name, t);
      }
    }
  }

  /** The document of a request is read without a null pointer, and throws exactly if some rule's addresses do. */
  lemma {:induction false} AllRulesRead(rs: seq<RuleSpec>, name: Text)
    requires forall i :: 0 <= i < |rs| ==> WellFormedRule(rs[i])
    ensures TypedRules(RuleList(rs), name)
    ensures Throws(RuleList(rs), name) <==> exists i :: 0 <= i < |rs| && !Expandable(rs[i])
    decreases |rs|
  {
    hide *;
    RulesStep(rs, name);
    if rs != [] {
      RuleFound(rs[0]);
      RuleMeans(RuleItem(rs[0]), rs[0], name);
      RuleTyped(RuleItem(rs[0]), rs[0]);
      RuleOutcome(rs[0], name);
      AllRulesRead(rs[1..], name);
      assert forall i :: 1 <= i < |rs| ==> rs[i] == rs[1..][i - 1];
    }
  }

  lemma RuleOutcome(r: RuleSpec, name: Text)
    ensures RuleEffect(r, name).outcome == if Expandable(r) then Done else Threw
  {
  }

  /** The list of rules, one rule unfolded. */
  lemma RulesStep(rs: seq<RuleSpec>, name: Text)
    ensures rs == [] ==> TypedRules(RuleList(rs), name) && !Throws(RuleList(rs), name)
    ensures rs != [] ==>
              var j, rest := RuleItem(rs[0]), RuleList(rs[1..]);
              var outcome := EffectOf(j, name).outcome;
              && (TypedRules(RuleList(rs), name) <==> TypedRule(j) && (outcome.Done? ==> TypedRules(rest, name)))
              && (Throws(RuleList(rs), name) <==> outcome.Threw? || (outcome.Done? && Throws(rest, name)))
  {
    hide RuleItem;
    hide EffectOf;
    hide TypedRule;
  }

  lemma NextHttp(rs: seq<RuleSpec>, name: Text, dir: Direction)
    requires rs != [] && Expandable(rs[0])
    ensures var e := RuleEffect(rs[0], name);
            AllHttp(rs, dir) == (if e.dir == dir then e.http else []) + AllHttp(rs[1..], dir)
  {
  }

  lemma NextEntries(rs: seq<RuleSpec>, name: Text)
    requires rs != [] && Expandable(rs[0])
    ensures AllEntries(rs, name) == RuleEffect(rs[0], name).ops + AllEntries(rs[1..], name)
  {
  }

  /** One rule's effect, and then what the others add. */
  lemma OneMore(s: Store, name: Text, e: Effect, input: seq<HttpRule>, output: seq<HttpRule>, later: seq<EngineOp>)
    ensures var t := Apply(s, name, e);
            && Push(t.input, name, input) == Push(s.input, name, (if e.dir == Ingress then e.http else []) + input)
            && Push(t.output, name, output) == Push(s.output, name, (if e.dir == Egress then e.http else []) + output)
            && t.engine + later == s.engine + (e.ops + later)
  {
    hide Push;
    assert s.engine + e.ops + later == s.engine + (e.ops + later);
    assert [] + input == input && [] + output == output;
    PushConcat(s.input, name, e.http, input);
    PushConcat(s.output, name, e.http, output);
  }

  lemma LastOne(s: Store, rs: seq<RuleSpec>, name: Text, t: Store)
    requires rs != [] && !Expandable(rs[0]) && t == Apply(s, name, RuleEffect(rs[0], name))
    ensures t == Store(Push(s.input, name, AllHttp(rs, Ingress)), Push(s.output, name, AllHttp(rs, Egress)),
                       s.engine + AllEntries(rs, name))
  {
    hide HttpRules;
    var now := HttpRules(rs[0]);
    assert now + [] == now && s.engine + [] == s.engine;
  }

  /** Reading the document of a request does what the request means. */
  lemma DocumentMeans(s: Store, q: Request)
    requires WellFormed(q)
    ensures var root := Document(q);
            && WellTyped(root)
            && Get(root, POLICY_NAME) == Some(String(q.name)) && Get(root, RULES).Some?
            && ApplyAll(Deleted(s, q.name), q.name, Items(Get(root, RULES))) == Meant(s, q)
            && (Throws(Items(Get(root, RULES)), q.name) <==> exists i :: 0 <= i < |q.rules| && !Expandable(q.rules[i]))
  {
    var fs := DocumentFields(q);
    TellApart(fs);
    FieldFound(fs, 0);
    FieldFound(fs, 1);
    hide Get;
    hide Build;
    AllRules(Deleted(s, q.name), q.rules, q.name);
    AllRulesRead(q.rules, q.name);
  }

  // ---------- Through the text ----------

  predicate FieldPrints(f: Field, depth: nat) {
    NulFree(f.key) && Printable(f.item) && Nesting(f.item) <= depth
  }

  predicate FieldsPrint(fs: seq<Field>, depth: nat) {
    forall i :: 0 <= i < |fs| ==> FieldPrints(fs[i], depth)
  }

  lemma {:induction false} BuildPrints(fs: seq<Field>, depth: nat)
    requires FieldsPrint(fs, depth)
    ensures PrintableMembers(Build(fs)) && MembersNesting(Build(fs)) <= depth
    ensures Printable(Object(Build(fs))) && Nesting(Object(Build(fs))) <= depth + 1
  {
    if fs != [] {
      BuildPrints(fs[1..], depth);
    }
  }

  lemma {:induction false} HttpListPrints(hs: seq<HttpSpec>)
    requires forall i :: 0 <= i < |hs| ==> NulFree(hs[i].host) && NulFree(hs[i].verb) && NulFree(hs[i].path)
    ensures PrintableElements(HttpList(hs)) && ElementsNesting(HttpList(hs)) <= 1
  {
    if hs != [] {
      assert NulFree(HOST) && NulFree(METHOD) && NulFree(PATH);
      BuildPrints(HttpFields(hs[0]), 0);
      hide Build;
      HttpListPrints(hs[1..]);
    }
  }

  lemma {:induction false} AddressListPrints(es: seq<Endpoint>)
    requires WellFormedEndpoints(es)
    ensures PrintableElements(AddressList(es)) && ElementsNesting(AddressList(es)) <= 1
  {
    if es != [] {
      assert NulFree(IP) && NulFree(POD_ID);
      BuildPrints(AddressFields(es[0]), 0);
      hide Build;
      AddressListPrints(es[1..]);
    }
  }

  lemma {:induction false} PortListPrints(ps: seq<PortSpec>)
    requires forall i :: 0 <= i < |ps| ==> ps[i].port < 0x1_0000_0000 && ps[i].end < 0x1_0000_0000
    ensures PrintableElements(PortList(ps)) && ElementsNesting(PortList(ps)) <= 1
  {
    if ps != [] {
      assert NulFree(PORT) && NulFree(END_PORT);
      BuildPrints(PortFields(ps[0]), 0);
      hide Build;
      PortListPrints(ps[1..]);
    }
  }

  lemma ListPrints(there: bool, key: Text, es: Elements)
    requires NulFree(key) && PrintableElements(es) && ElementsNesting(es) <= 1
    ensures FieldPrints(Field(there, key, Array(es)), 2)
  {
  }

  lemma RuleFieldsPrint(r: RuleSpec)
    requires WellFormedRule(r)
    ensures FieldsPrint(RuleFields(r), 2)
  {
    KeysPrint();
    HttpListPrints(r.http);
    ListPrints(r.http != [], HTTP, HttpList(r.http));
    AddressListPrints(r.from);
    ListPrints(true, FROM_ADDRESSES, AddressList(r.from));
    AddressListPrints(r.to);
    ListPrints(true, TO_ADDRESSES, AddressList(r.to));
    PortListPrints(r.ports);
    ListPrints(r.ports != [], PORTS, PortList(r.ports));
    assert FieldPrints(Field(true, PRIORITY, Number(r.priority as real)), 2);
    hide HttpList;
    hide AddressList;
    hide PortList;
    hide NulFree;
    assert FieldPrints(Field(true, ACTION, String(ActionText(r.action))), 2);
    assert FieldPrints(Field(true, DIRECTION, String(DirectionText(r.direction))), 2);
    assert FieldPrints(Field(r.protocol != 0, PROTOCOL, String(ProtocolText(r.protocol))), 2);
    hide FieldPrints;
    assert FieldsPrint(RuleFields(r), 2);
  }

  lemma RulePrints(r: RuleSpec)
    requires WellFormedRule(r)
    ensures Printable(RuleItem(r)) && Nesting(RuleItem(r)) <= 3
  {
    RuleFieldsPrint(r);
    hide RuleFields;
    hide Build;
    BuildPrints(RuleFields(r), 2);
  }

  lemma KeysPrint()
    ensures NulFree(POLICY_NAME) && NulFree(RULES) && NulFree(ACTION) && NulFree(DIRECTION) && NulFree(PROTOCOL)
    ensures NulFree(HTTP) && NulFree(FROM_ADDRESSES) && NulFree(TO_ADDRESSES) && NulFree(PORTS) && NulFree(PRIORITY)
    ensures forall n :: NulFree(ActionText(n)) && NulFree(DirectionText(n)) && NulFree(ProtocolText(n))
  {
  }

  lemma {:induction false} RuleListPrints(rs: seq<RuleSpec>)
    requires forall i :: 0 <= i < |rs| ==> WellFormedRule(rs[i])
    ensures PrintableElements(RuleList(rs)) && ElementsNesting(RuleList(rs)) <= 3
  {
    if rs != [] {
      RulePrints(rs[0]);
      hide RuleItem;
      RuleListPrints(rs[1..]);
    }
  }

  lemma DocumentPrints(q: Request)
    requires WellFormed(q)
    ensures Printable(Document(q)) && Nesting(Document(q)) <= NESTING_LIMIT
  {
    KeysPrint();
    RuleListPrints(q.rules);
    BuildPrints(DocumentFields(q), 4);
    hide Build;
  }

  /**
    GrpcDispatchAddPolicyRule, with the work it queues done at once: the request is
    printed without formatting, the text is parsed, and the document is applied. An
    exception ends at the queue, and leaves the result at the one it starts with.
   */
  method AddPolicyRule(store: Microseg, q: Request) returns (result: int)
    requires WellFormed(q) && |Render(Document(q), false, 0)| + 2 <= INT_MAX
    modifies store
    ensures store.State() == Meant(old(store.State()), q)
    ensures result == if exists i :: 0 <= i < |q.rules| && !Expandable(q.rules[i]) then 1 else 0
  {
    DocumentPrints(q);
    DocumentMeans(store.State(), q);
    JsonRoundTrip.PrintThenParse(Document(q), false, false);
    hide Document;
    hide Render;
    hide Meant;
    hide WellFormed;
    hide WellTyped;
    hide Get;
    var printed := JsonPrinter.Print(Document(q), false);
    var ok, root, _ := JsonReader.ParseWithOpts(printed[..], false);
    var ret := store.ParseNetPolicy(root);
    result := if ret.Some? then ret.value else 1;
  }
}
