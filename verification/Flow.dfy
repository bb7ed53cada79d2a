/**
  The two packet-queue callbacks of the daemon and the map of tracked flows they
  share. One method stands for both callbacks, which differ only in their
  direction's bypass mark, own mark and HTTP rule table.
 */
module Flow {
  import opened Bytes
  import opened FlowSpec
  import opened PolicyTypes
  import opened FlowRuns

  class Daemon {
    var conns: Conns
    var rules: Rules
    var verdicts: seq<Verdict>
    var posted: seq<Event>
    const parse: seq<Text> -> Option<Header>

    constructor (rules: Rules, parse: seq<Text> -> Option<Header>)
      ensures conns == map[] && verdicts == [] && posted == [] && this.rules == rules && this.parse == parse
    {
      conns, verdicts, posted := map[], [], [];
      this.rules, this.parse := rules, parse;
    }

    // ---------- Connection manager ----------

    predicate MicrosegTracked(d: Decision)
      reads this
    {
      d.conn in conns
    }

    function MicrosegRuleKey(d: Decision): Option<Key>
      reads this
    {
      if d.conn in conns then Some(conns[d.conn].key) else None
    }

    method MicrosegTouch(d: Decision, now: int)
      modifies `conns
      ensures conns == Touched(old(conns), d, now)
    {
      if d.kind == 0 || d.kind == 4 {
        return;
      }
      if d.conn in conns {
        conns := conns[d.conn := conns[d.conn].(lastSeen := now)];
      }
    }

    method MicrosegTrack(d: Decision, key: Key, now: int)
      modifies `conns
      ensures conns == if d.conn in old(conns) then old(conns) else old(conns)[d.conn := Entry(key, now, [])]
    {
      if d.conn !in conns {
        conns := conns[d.conn := Entry(key, now, [])];
      }
    }

    method MicrosegClose(d: Decision, pkg: Text, now: int) returns (closed: bool)
      modifies `conns
      ensures closed <==> d.kind == 2
      ensures conns == if closed then old(conns) - {d.conn, d.peer} else old(conns)
    {
      if d.kind != 2 {
        return false;
      }
      var _ := DispatchMicroseg(d, pkg, [], now);
      return true;
    }

    /** What a flow's parser makes of one more chunk. */
    method OnData(id: ConnId, data: Text, now: int) returns (header: Option<Header>)
      requires id in conns
      modifies `conns
      ensures conns == old(conns)[id := Entry(old(conns)[id].key, now, old(conns)[id].fed + [data])]
      ensures header == parse(old(conns)[id].fed + [data])
    {
      conns := conns[id := conns[id].(lastSeen := now)];
      conns := conns[id := conns[id].(fed := conns[id].fed + [data])];
      header := parse(conns[id].fed);
    }

    method DispatchMicroseg(d: Decision, pkg: Text, key: Key, now: int) returns (header: Option<Header>)
      requires d.kind == 3 || d.kind == 5 ==> d.payloadOffset <= |pkg|
      modifies `conns
      ensures d.kind == 2 ==> conns == old(conns) - {d.conn, d.peer}
      ensures d.kind == 1 && d.conn !in old(conns) ==> conns == old(conns)[d.conn := Entry(key, now, [])]
      ensures d.kind == 5 && d.conn !in old(conns) ==>
                var fed := [pkg[d.payloadOffset..]];
                conns == old(conns)[d.conn := Entry(key, now, fed)] && header == parse(fed)
      ensures (d.kind == 3 || d.kind == 5) && d.conn in old(conns) ==>
                var e := old(conns)[d.conn];
                var fed := e.fed + [pkg[d.payloadOffset..]];
                conns == old(conns)[d.conn := Entry(e.key, now, fed)] && header == parse(fed)
      ensures (d.kind == 1 && d.conn in old(conns)) || (d.kind == 3 && d.conn !in old(conns)) ==> conns == old(conns)
      ensures d.kind == 0 || d.kind == 4 || d.kind > 5 ==> conns == old(conns)
      ensures header.Some? ==> d.kind == 3 || d.kind == 5
    {
      match d.kind
      case 0 => return None;
      case 1 =>
        MicrosegTrack(d, key, now);
        return None;
      case 5 =>
        if d.conn !in conns {
          MicrosegTrack(d, key, now);
          assert conns[d.conn].fed + [pkg[d.payloadOffset..]] == [pkg[d.payloadOffset..]];
        }
        header := OnData(d.conn, pkg[d.payloadOffset..], now);
      case 2 =>
        conns := conns - {d.conn};
        conns := conns - {d.peer};
        assert conns == old(conns) - {d.conn, d.peer};
        return None;
      case 3 =>
        if d.conn !in conns {
          return None;
        }
        header := OnData(d.conn, pkg[d.payloadOffset..], now);
      case _ => return None;
    }

    /** The reaper: flows the engine gave up on, then flows not seen for `timeout`. */
    method EvictStale(reported: seq<ConnId>, now: int, timeout: int)
      modifies `conns
      ensures conns == Swept(old(conns), reported, now, timeout)
    {
      ForgetReported(reported);
      ForgetOld(now, timeout);
    }

    method ForgetReported(reported: seq<ConnId>)
      modifies `conns
      ensures conns == map id | id in old(conns) && id !in reported :: old(conns)[id]
    {
      for i := 0 to |reported|
        invariant conns == map id | id in old(conns) && id !in reported[..i] :: old(conns)[id]
      {
        conns := conns - {reported[i]};
      }
      assert reported[..|reported|] == reported;
    }

    method ForgetOld(now: int, timeout: int)
      modifies `conns
      ensures conns == map id | id in old(conns) && now - old(conns)[id].lastSeen < timeout :: old(conns)[id]
    {
      ghost var kept := conns;
      var left := conns.Keys;
      while left != {}
        invariant left <= kept.Keys && left <= conns.Keys
        invariant forall id :: id in conns <==> id in kept && (id in left || now - kept[id].lastSeen < timeout)
        invariant forall id :: id in conns ==> conns[id] == kept[id]
        decreases |left|
      {
        var id :| id in left;
        if now - conns[id].lastSeen >= timeout {
          conns := conns - {id};
        }
        left := left - {id};
      }
    }

    // ---------- Policy ----------

    method MatchMicroPolicyRule(tuple: Tuple, dir: Direction) returns (r: Matched)
      ensures r == Match(rules, tuple, dir)
    {
      var detail := rules.Rule(tuple, dir);
      if detail.None? {
        return Matched(DEFAULT, [], tuple, dir);
      }
      if detail.value.action == ALLOW {
        return Matched(ALLOW, detail.value.key, tuple, dir);
      }
      var reverse := rules.Rule(Reverse(tuple), Opposite(dir));
      if reverse.None? || detail.value.priority <= reverse.value.priority {
        return Matched(detail.value.action, detail.value.key, tuple, dir);
      }
      return Matched(reverse.value.action, reverse.value.key, Reverse(tuple), Opposite(dir));
    }

    static method MatchHttpPolicyRule(rules: seq<HttpRule>, h: Header) returns (action: nat)
      ensures action == HttpAction(rules, h)
      ensures (forall i :: 0 <= i < |rules| ==> !Admits(rules[i], h)) ==> action == DEFAULT
      ensures forall i :: 0 <= i < |rules| && Admits(rules[i], h) && (forall j :: 0 <= j < i ==> !Admits(rules[j], h))
                ==> action == rules[i].action
    {
      var i := 0;
      while i < |rules|
        invariant i <= |rules| && forall j :: 0 <= j < i ==> !Admits(rules[j], h)
        invariant HttpAction(rules, h) == HttpAction(rules[i..], h)
      {
        if Admits(rules[i], h) {
          return rules[i].action;
        }
        assert rules[i..][1..] == rules[i + 1..];
        i := i + 1;
      }
      return DEFAULT;
    }

    method Post(tuple: Tuple, action: nat, dir: Direction, key: Key)
      modifies `posted
      ensures posted == old(posted) + [Event(tuple, action, dir, key)]
    {
      posted := posted + [Event(tuple, action, dir, key)];
    }

    method Answer(v: Verdict)
      modifies `verdicts
      ensures verdicts == old(verdicts) + [v]
    {
      verdicts := verdicts + [v];
    }

    // ---------- The callbacks ----------

    /** input_nfq_cb and output_nfq_cb. */
    method Callback(dir: Direction, m: Message, now: int)
      modifies `conns, `verdicts, `posted
      ensures conns == NextConns(old(conns), rules, dir, m, now)
      ensures verdicts == old(verdicts) + [VerdictOf(old(conns), rules, parse, dir, m)]
      ensures posted == old(posted) + EventsOf(old(conns), rules, parse, dir, m)
    {
      if m.mark == ALLOW || m.mark == (if dir == Ingress then ALLOW_RSP else ALLOW_REQ) {
        Answer(Plain(m));
        return;
      }
      if |m.payload| < IP_HEADER {
        Answer(Plain(m));
        return;
      }
      if !m.recognized {
        Answer(Plain(m));
        return;
      }
      if m.tuple.proto == UDP || m.tuple.proto == ICMP {
        var r := MatchMicroPolicyRule(m.tuple, dir);
        if r.action == DEFAULT {
          Answer(Marked(m, ALLOW));
          return;
        }
        Post(r.tuple, r.action, r.dir, r.key);
        if r.action == DENY {
          Answer(Dropped(m));
          return;
        }
        Answer(Marked(m, ALLOW));
        return;
      }
      if m.tuple.proto != TCP {
        Answer(Plain(m));
        return;
      }
      TcpCallback(dir, m, now);
    }

    method TcpCallback(dir: Direction, m: Message, now: int)
      requires Examined(dir, m) && m.tuple.proto == TCP
      modifies `conns, `verdicts, `posted
      ensures conns == NextConns(old(conns), rules, dir, m, now)
      ensures verdicts == old(verdicts) + [VerdictOf(old(conns), rules, parse, dir, m)]
      ensures posted == old(posted) + EventsOf(old(conns), rules, parse, dir, m)
    {
      var d := m.decision;
      var tracked := MicrosegTracked(d);
      MicrosegTouch(d, now);
      var hasPayload := (d.kind == 3 || d.kind == 4 || d.kind == 5) && |m.payload| > d.payloadOffset;
      if d.kind == 0 {
        Answer(Marked(m, OwnMark(dir)));
        return;
      }
      var _ := MicrosegClose(d, m.payload, now);
      var key, tuple := [], m.tuple;
      if tracked {
        if d.kind == 2 {
          Answer(Marked(m, ALLOW));
          return;
        }
        if !hasPayload {
          Answer(Marked(m, OwnMark(dir)));
          return;
        }
        if d.syn {
          Answer(Marked(m, OwnMark(dir)));
          return;
        }
        if d.kind == 4 {
          Answer(Plain(m));
          return;
        }
        assert MicrosegRuleKey(d).Some?;
        key := if MicrosegRuleKey(d).Some? then MicrosegRuleKey(d).value else [];
      } else {
        if !d.syn && !hasPayload {
          Answer(Marked(m, OwnMark(dir)));
          return;
        }
        var r := MatchMicroPolicyRule(m.tuple, dir);
        if r.action == DEFAULT {
          Answer(Marked(m, ALLOW));
          return;
        }
        if r.key !in rules.Http(dir) || rules.Http(dir)[r.key] == [] {
          Post(r.tuple, r.action, r.dir, r.key);
          if r.action == DENY {
            Answer(Dropped(m));
            return;
          }
          Answer(Marked(m, ALLOW));
          return;
        }
        MicrosegTrack(d, r.key, now);
        if d.syn {
          Answer(Marked(m, OwnMark(dir)));
          return;
        }
        key, tuple := r.key, r.tuple;
      }
      // The shared dispatch always finds the flow, with the key looked up here.
      assert d.conn in conns && conns[d.conn].key == key;
      assert [] + Fed(dir, m) == Fed(dir, m);
      Inspect(dir, m, tuple, key, now);
    }

    /** The single call that feeds a parser, and what follows from its header. */
    method Inspect(dir: Direction, m: Message, tuple: Tuple, key: Key, now: int)
      requires m.decision.conn in conns && conns[m.decision.conn].key == key
      requires HasPayload(m)
      modifies `conns, `verdicts, `posted
      ensures var d := m.decision;
              var e := old(conns)[d.conn];
              var header := if d.kind == 4 then None else parse(e.fed + [Data(m)]);
              && conns == (if d.kind == 4 then old(conns) else old(conns)[d.conn := Entry(key, now, e.fed + [Data(m)])])
              && verdicts == old(verdicts) + [HttpAnswer(rules, dir, m, key, header)]
              && posted == old(posted) + HttpEvents(rules, dir, tuple, key, header)
    {
      var header := DispatchMicroseg(m.decision, m.payload, key, now);
      AnswerHttp(dir, m, tuple, key, header);
    }

    method AnswerHttp(dir: Direction, m: Message, tuple: Tuple, key: Key, header: Option<Header>)
      modifies `verdicts, `posted
      ensures verdicts == old(verdicts) + [HttpAnswer(rules, dir, m, key, header)]
      ensures posted == old(posted) + HttpEvents(rules, dir, tuple, key, header)
    {
      if header.None? {
        Answer(Marked(m, OwnMark(dir)));
        return;
      }
      if key !in rules.Http(dir) {
        Answer(Marked(m, DEFAULT));
        return;
      }
      var action := MatchHttpPolicyRule(rules.Http(dir)[key], header.value);
      if action == DEFAULT {
        Answer(Marked(m, OwnMark(dir)));
        return;
      }
      Post(tuple, action, dir, key);
      Answer(Verdict(m.id, true, Some(OwnMark(dir)), if action == DENY then Reset else Original));
    }

    /** The epoll loop: one callback after another, on one thread. */
    method Run(run: seq<Input>, timeout: int)
      modifies this
      ensures var start := State(old(conns), old(rules));
              && State(conns, rules) == After(start, run, timeout)
              && verdicts == old(verdicts) + Verdicts(start, run, timeout, parse)
              && posted == old(posted) + Events(start, run, timeout, parse)
    {
      ghost var start := State(conns, rules);
      ghost var before, earlier := verdicts, posted;
      for i := 0 to |run|
        invariant State(conns, rules) == After(start, run[..i], timeout)
        invariant verdicts == before + Verdicts(start, run[..i], timeout, parse)
        invariant posted == earlier + Events(start, run[..i], timeout, parse)
      {
        assert run[..i + 1][..i] == run[..i] && run[..i + 1][i] == run[i];
        ghost var s := State(conns, rules);
        Handle(run[i], timeout);
        ghost var done, next := Verdicts(start, run[..i], timeout, parse), VerdictsAt(s, run[i], parse);
        assert before + done + next == before + (done + next);
        ghost var sent, now := Events(start, run[..i], timeout, parse), EventsAt(s, run[i], parse);
        assert earlier + sent + now == earlier + (sent + now);
      }
      assert run[..|run|] == run;
    }

    method Handle(i: Input, timeout: int)
      modifies this
      ensures State(conns, rules) == Step(State(old(conns), old(rules)), i, timeout)
      ensures verdicts == old(verdicts) + VerdictsAt(State(old(conns), old(rules)), i, parse)
      ensures posted == old(posted) + EventsAt(State(old(conns), old(rules)), i, parse)
    {
      match i
      case Packet(now, dir, m) => Callback(dir, m, now);
      case Sweep(now, reported) => EvictStale(reported, now, timeout);
      case Update(_, newRules) => rules := newRules;
    }
  }
}
