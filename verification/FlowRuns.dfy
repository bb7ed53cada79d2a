/** Properties of every run of the daemon: packets of both directions, sweeps and policy updates in any order. */
module FlowRuns {
  import opened Bytes
  import opened FlowSpec
  import opened PolicyTypes

  datatype Input =
    | Packet(now: int, dir: Direction, m: Message)
    | Sweep(now: int, reported: seq<ConnId>)
    | Update(now: int, newRules: Rules)

  datatype State = State(conns: Conns, rules: Rules)

  function Step(s: State, i: Input, timeout: int): State {
    match i
    case Packet(now, dir, m) => s.(conns := NextConns(s.conns, s.rules, dir, m, now))
    case Sweep(now, reported) => s.(conns := Swept(s.conns, reported, now, timeout))
    case Update(_, rules) => s.(rules := rules)
  }

  function After(s: State, run: seq<Input>, timeout: int): State {
    if run == [] then s
    else Step(After(s, run[..|run| - 1], timeout), run[|run| - 1], timeout)
  }

  // ---------- The life of a tracked flow ----------

  /** A flow is tracked only by its own packet, with a key that has HTTP rules in that packet's direction. */
  lemma Birth(s: State, i: Input, timeout: int, id: ConnId)
    requires id !in s.conns && id in Step(s, i, timeout).conns
    ensures i.Packet? && i.m.decision.conn == id && Matchable(i.dir, i.m)
    ensures var key := Step(s, i, timeout).conns[id].key;
            key == Match(s.rules, i.m.tuple, i.dir).key && s.rules.HasHttp(i.dir, key)
  {
  }

  /** A flow is given up only on a Closed packet that names it, or in a sweep that has a reason to. */
  lemma Death(s: State, i: Input, timeout: int, id: ConnId)
    requires id in s.conns
    ensures id !in Step(s, i, timeout).conns <==>
            (i.Packet? && Seen(i.dir, i.m) && i.m.decision.kind == 2
             && (i.m.decision.conn == id
                 || (i.m.decision.peer == id)))
            || (i.Sweep? && (id in i.reported || i.now - s.conns[id].lastSeen >= timeout))
  {
  }

  /** What one input gives to the parser of a flow. */
  function FedBy(i: Input, id: ConnId): seq<Text> {
    if i.Packet? && i.m.decision.conn == id then Fed(i.dir, i.m) else []
  }

  function FedTo(run: seq<Input>, id: ConnId): seq<Text> {
    if run == [] then [] else FedTo(run[..|run| - 1], id) + FedBy(run[|run| - 1], id)
  }

  lemma StepKeeps(s: State, i: Input, timeout: int, id: ConnId)
    requires id in s.conns && id in Step(s, i, timeout).conns
    ensures var before, after := s.conns[id], Step(s, i, timeout).conns[id];
            after.key == before.key && after.fed == before.fed + FedBy(i, id)
  {
  }

  ghost predicate Lives(s: State, run: seq<Input>, timeout: int, id: ConnId) {
    forall k :: 0 <= k <= |run| ==> id in After(s, run[..k], timeout).conns
  }

  /**
    While a flow lives, whatever else happens, its rule key stays, and its parser
    gets every payload of its own packets that are neither SYNs nor duplicates:
    each once, in order, and nothing else.
   */
  lemma {:induction false} Lifetime(s: State, run: seq<Input>, timeout: int, id: ConnId)
    requires id in s.conns && Lives(s, run, timeout, id)
    ensures var after := After(s, run, timeout).conns;
            && id in after && after[id].key == s.conns[id].key
            && after[id].fed == s.conns[id].fed + FedTo(run, id)
  {
    assert run[..|run|] == run;
    if run != [] {
      var last := |run| - 1;
      var front := run[..last];
      assert forall k :: 0 <= k <= last ==> front[..k] == run[..k];
      Lifetime(s, front, timeout, id);
      StepKeeps(After(s, front, timeout), run[last], timeout, id);
      assert After(s, run, timeout) == Step(After(s, front, timeout), run[last], timeout);
      var fed := s.conns[id].fed;
      assert fed + FedTo(front, id) + FedBy(run[last], id) == fed + (FedTo(front, id) + FedBy(run[last], id));
    }
  }

  /**
    Every entry has a packet that brought it: one of its own, for which the rules of
    that moment gave it its key and had HTTP rules for it in the packet's direction.
    It has lived since, and its parser has been fed what came with and after it.
   */
  lemma {:induction false} Origin(s: State, run: seq<Input>, timeout: int, id: ConnId) returns (k: nat)
    requires id !in s.conns && id in After(s, run, timeout).conns
    ensures k < |run| && run[k].Packet? && run[k].m.decision.conn == id && Matchable(run[k].dir, run[k].m)
    ensures var before, entry := After(s, run[..k], timeout), After(s, run, timeout).conns[id];
            && id !in before.conns
            && entry.key == Match(before.rules, run[k].m.tuple, run[k].dir).key
            && before.rules.HasHttp(run[k].dir, entry.key)
            && entry.fed == FedTo(run[k..], id)
    ensures forall j :: k < j <= |run| ==> id in After(s, run[..j], timeout).conns
  {
    hide *;
    LastStep(s, run, timeout);
    var last := |run| - 1;
    var front := run[..last];
    var before := After(s, front, timeout);
    assert run[..|run|] == run;
    if id in before.conns {
      k := Origin(s, front, timeout, id);
      StepKeeps(before, run[last], timeout, id);
      assert front[..k] == run[..k] && front[k] == run[k];
      assert forall j :: 0 <= j <= last ==> front[..j] == run[..j];
    } else {
      k := last;
      Birth(before, run[last], timeout, id);
      BornFed(before, run[last], timeout, id);
    }
    FedLast(run, k, id);
  }

  lemma LastStep(s: State, run: seq<Input>, timeout: int)
    ensures run == [] ==> After(s, run, timeout) == s
    ensures run != [] ==> After(s, run, timeout) == Step(After(s, run[..|run| - 1], timeout), run[|run| - 1], timeout)
  {
  }

  lemma FedLast(run: seq<Input>, k: nat, id: ConnId)
    requires k < |run|
    ensures var last := |run| - 1;
            FedTo(run[k..], id) == if k == last then FedBy(run[last], id)
                                   else FedTo(run[..last][k..], id) + FedBy(run[last], id)
  {
    hide FedBy;
    var s, last := run[k..], |run| - 1;
    assert s[|s| - 1] == run[last] && s[..|s| - 1] == run[..last][k..];
    assert FedTo(s, id) == FedTo(s[..|s| - 1], id) + FedBy(run[last], id);
    assert k == last ==> s[..|s| - 1] == [] && [] + FedBy(run[last], id) == FedBy(run[last], id);
  }

  lemma BornFed(s: State, i: Input, timeout: int, id: ConnId)
    requires id !in s.conns && id in Step(s, i, timeout).conns
    ensures Step(s, i, timeout).conns[id].fed == FedBy(i, id)
  {
  }

  /**
    A Closed packet that is looked at leaves no entry for either direction. The
    one exception is exact: a packet that is a SYN as well and begins a flow.
   */
  lemma Closed(s: State, i: Input, timeout: int)
    requires i.Packet? && Seen(i.dir, i.m) && i.m.decision.kind == 2
    ensures var d, after := i.m.decision, Step(s, i, timeout).conns;
            && (d.conn in after <==> d.conn !in s.conns && Begins(s.rules, i.dir, i.m))
            && (Begins(s.rules, i.dir, i.m) ==> d.syn)
            && (d.peer in after ==> d.peer == d.conn)
  {
  }

  // ---------- Verdicts ----------

  /** The verdicts of a run, in order. */
  function Verdicts(s: State, run: seq<Input>, timeout: int, parse: seq<Text> -> Option<Header>): seq<Verdict> {
    if run == [] then []
    else
      var before := After(s, run[..|run| - 1], timeout);
      Verdicts(s, run[..|run| - 1], timeout, parse) + VerdictsAt(before, run[|run| - 1], parse)
  }

  function VerdictsAt(s: State, i: Input, parse: seq<Text> -> Option<Header>): seq<Verdict> {
    if i.Packet? then [VerdictOf(s.conns, s.rules, parse, i.dir, i.m)] else []
  }

  /** The events of a run, in order. */
  function Events(s: State, run: seq<Input>, timeout: int, parse: seq<Text> -> Option<Header>): seq<Event> {
    if run == [] then []
    else
      var before := After(s, run[..|run| - 1], timeout);
      Events(s, run[..|run| - 1], timeout, parse) + EventsAt(before, run[|run| - 1], parse)
  }

  function EventsAt(s: State, i: Input, parse: seq<Text> -> Option<Header>): seq<Event> {
    if i.Packet? then EventsOf(s.conns, s.rules, parse, i.dir, i.m) else []
  }

  function PacketIds(run: seq<Input>): seq<nat> {
    if run == [] then []
    else PacketIds(run[..|run| - 1]) + if run[|run| - 1].Packet? then [run[|run| - 1].m.id] else []
  }

  function Ids(vs: seq<Verdict>): (ids: seq<nat>)
    ensures |ids| == |vs| && forall k :: 0 <= k < |vs| ==> ids[k] == vs[k].id
  {
    seq(|vs|, k requires 0 <= k < |vs| => vs[k].id)
  }

  /** Every packet gets exactly one verdict. */
  lemma {:induction false} OneVerdictEach(s: State, run: seq<Input>, timeout: int,
                                          parse: seq<Text> -> Option<Header>)
    ensures Ids(Verdicts(s, run, timeout, parse)) == PacketIds(run)
  {
    hide After;
    if run != [] {
      var front, last := run[..|run| - 1], run[|run| - 1];
      OneVerdictEach(s, front, timeout, parse);
      if last.Packet? {
        var before := After(s, front, timeout);
        AnswersPacket(before.conns, before.rules, parse, last.dir, last.m);
      }
      hide VerdictOf;
      assert Ids(Verdicts(s, run, timeout, parse)) == PacketIds(run);
    }
  }

  lemma AnswersPacket(conns: Conns, rules: Rules, parse: seq<Text> -> Option<Header>, dir: Direction, m: Message)
    ensures VerdictOf(conns, rules, parse, dir, m).id == m.id
  {
  }

  /** When a packet is dropped. */
  lemma DroppedIff(conns: Conns, rules: Rules, parse: seq<Text> -> Option<Header>, dir: Direction, m: Message)
    ensures !VerdictOf(conns, rules, parse, dir, m).accept <==>
            && Match(rules, m.tuple, dir).action == DENY
            && Examined(dir, m)
            && (m.tuple.proto == UDP || m.tuple.proto == ICMP
                || (Matchable(dir, m) && m.decision.conn !in conns
                    && !rules.HasHttp(dir, Match(rules, m.tuple, dir).key)))
  {
  }

  // ---------- Deny over a whole run ----------

  predicate Denied(rules: Rules, t: Tuple, dir: Direction) {
    var r := Match(rules, t, dir);
    r.action == DENY && !rules.HasHttp(dir, r.key)
  }

  /** All packets of the connection have this tuple and direction, and no update lifts the denial. */
  ghost predicate StaysDenied(run: seq<Input>, id: ConnId, t: Tuple, dir: Direction) {
    forall k :: 0 <= k < |run| ==>
      match run[k]
      case Packet(_, d, m) => m.decision.conn == id && Seen(d, m) ==> m.tuple == t && d == dir
      case Update(_, rules) => Denied(rules, t, dir)
      case Sweep(_, _) => true
  }

  /** A denied flow is never tracked, whatever packets, sweeps and updates come. */
  lemma {:induction false} NeverTracked(s: State, run: seq<Input>, timeout: int,
                                        id: ConnId, t: Tuple, dir: Direction)
    requires id !in s.conns && Denied(s.rules, t, dir) && StaysDenied(run, id, t, dir)
    ensures var after := After(s, run, timeout); id !in after.conns && Denied(after.rules, t, dir)
  {
    if run != [] {
      var last := |run| - 1;
      var front := run[..last];
      assert forall k :: 0 <= k < last ==> front[k] == run[k];
      NeverTracked(s, front, timeout, id, t, dir);
      var before := After(s, front, timeout);
      if id in Step(before, run[last], timeout).conns {
        Birth(before, run[last], timeout, id);
        assert false;
      }
    }
  }

  /**
    Every packet of a denied flow that is a SYN (also a SYN-ACK or a repeated
    SYN) or carries data is dropped, however often and however late it comes.
   */
  lemma DenyHolds(s: State, run: seq<Input>, timeout: int, parse: seq<Text> -> Option<Header>,
                  id: ConnId, t: Tuple, dir: Direction, k: nat)
    requires id !in s.conns && Denied(s.rules, t, dir) && StaysDenied(run, id, t, dir)
    requires k < |run| && run[k].Packet? && run[k].m.decision.conn == id && Matchable(run[k].dir, run[k].m)
    ensures var before := After(s, run[..k], timeout);
            VerdictsAt(before, run[k], parse) == [Dropped(run[k].m)]
  {
    var front := run[..k];
    assert forall j :: 0 <= j < k ==> front[j] == run[j];
    NeverTracked(s, front, timeout, id, t, dir);
  }

  // ---------- The reaper ----------

  function LastSweep(run: seq<Input>, start: int): int {
    if run == [] then start
    else if run[|run| - 1].Sweep? then run[|run| - 1].now
    else LastSweep(run[..|run| - 1], start)
  }

  /** Time does not run backwards. */
  ghost predicate Clocked(run: seq<Input>, start: int) {
    && (forall k :: 0 <= k < |run| ==> start <= run[k].now)
    && (forall j, k :: 0 <= j < k < |run| ==> run[j].now <= run[k].now)
  }

  ghost predicate YoungAtSweep(conns: Conns, swept: int, timeout: int) {
    forall id :: id in conns ==> swept - conns[id].lastSeen < timeout
  }

  lemma LastSweepBefore(run: seq<Input>, start: int, now: int)
    requires Clocked(run, start) && start <= now && forall k :: 0 <= k < |run| ==> run[k].now <= now
    ensures LastSweep(run, start) <= now
  {
    if run != [] && !run[|run| - 1].Sweep? {
      LastSweepBefore(run[..|run| - 1], start, now);
    }
  }

  /** No entry was ever too old at the last sweep: it survived it, or was refreshed since. */
  lemma {:induction false} AgesAtSweep(s: State, run: seq<Input>, timeout: int, start: int)
    requires timeout > 0 && Clocked(run, start) && YoungAtSweep(s.conns, start, timeout)
    ensures YoungAtSweep(After(s, run, timeout).conns, LastSweep(run, start), timeout)
  {
    if run != [] {
      var last := |run| - 1;
      var front := run[..last];
      assert forall k :: 0 <= k < last ==> front[k] == run[k];
      AgesAtSweep(s, front, timeout, start);
      LastSweepBefore(front, start, run[last].now);
    }
  }

  /** With a sweep at least every `interval`, no entry ever gets older than the timeout plus the interval. */
  lemma ReaperBound(s: State, run: seq<Input>, timeout: int, start: int, interval: int, id: ConnId, now: int)
    requires timeout > 0 && Clocked(run, start) && YoungAtSweep(s.conns, start, timeout)
    requires now <= LastSweep(run, start) + interval
    requires id in After(s, run, timeout).conns
    ensures now - After(s, run, timeout).conns[id].lastSeen < timeout + interval
  {
    AgesAtSweep(s, run, timeout, start);
  }
}
