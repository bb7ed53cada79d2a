/**
  Connection tuples as conntrack messages carry them: a nest of addresses and a
  nest of protocol fields, built in place and read back through attribute tables.
 */
module Conntrack {
  import opened Bytes
  import opened Netlink

  const AF_INET := 2
  const AF_INET6 := 10

  // enum ctattr_tuple
  const CTA_TUPLE_IP := 1
  const CTA_TUPLE_PROTO := 2
  const CTA_TUPLE_ZONE := 3
  const CTA_TUPLE_MAX := 3

  // enum ctattr_ip
  const CTA_IP_V4_SRC := 1
  const CTA_IP_V4_DST := 2
  const CTA_IP_V6_SRC := 3
  const CTA_IP_V6_DST := 4
  const CTA_IP_MAX := 4

  // enum ctattr_l4proto
  const CTA_PROTO_NUM := 1
  const CTA_PROTO_SRC_PORT := 2
  const CTA_PROTO_DST_PORT := 3
  const CTA_PROTO_ICMP_ID := 4
  const CTA_PROTO_ICMP_TYPE := 5
  const CTA_PROTO_ICMP_CODE := 6
  const CTA_PROTO_ICMPV6_ID := 7
  const CTA_PROTO_ICMPV6_TYPE := 8
  const CTA_PROTO_ICMPV6_CODE := 9
  const CTA_PROTO_MAX := 9

  const ICMP := 1
  const ICMPV6 := 58

  /** TCP, UDP, DCCP, GRE, SCTP and UDPLITE. */
  predicate HasPorts(proto: nat) {
    proto in {6, 17, 33, 47, 132, 136}
  }

  /**
    struct __nfct_tuple, its unions as the bytes they occupy: an IPv4 address is the
    first four of sixteen; the source port and the ICMP id share two bytes, and so
    do the destination port and the ICMP type and code.
   */
  datatype Tuple = Tuple(src: Text, dst: Text, l3: nat, proto: byte, zone: nat, l4src: Text, l4dst: Text)

  predicate WellFormed(t: Tuple) {
    |t.src| == |t.dst| == 16 && |t.l4src| == |t.l4dst| == 2
  }

  // ---------- What is built ----------

  predicate Supported(t: Tuple) {
    && (t.l3 == AF_INET || t.l3 == AF_INET6)
    && (HasPorts(t.proto) || t.proto == ICMP || t.proto == ICMPV6)
  }

  function IpAttrs(t: Tuple): Attrs
    requires WellFormed(t)
  {
    if t.l3 == AF_INET then
      Cons(Leaf(CTA_IP_V4_SRC, t.src[..4]), Cons(Leaf(CTA_IP_V4_DST, t.dst[..4]), Nil))
    else
      Cons(Leaf(CTA_IP_V6_SRC, t.src), Cons(Leaf(CTA_IP_V6_DST, t.dst), Nil))
  }

  function ProtoAttrs(t: Tuple): Attrs
    requires WellFormed(t)
  {
    var num := Leaf(CTA_PROTO_NUM, [t.proto]);
    if HasPorts(t.proto) then
      Cons(num, Cons(Leaf(CTA_PROTO_SRC_PORT, t.l4src), Cons(Leaf(CTA_PROTO_DST_PORT, t.l4dst), Nil)))
    else if t.proto == ICMP then
      Cons(num, Cons(Leaf(CTA_PROTO_ICMP_CODE, t.l4dst[1..]), Cons(Leaf(CTA_PROTO_ICMP_TYPE, t.l4dst[..1]),
           Cons(Leaf(CTA_PROTO_ICMP_ID, t.l4src), Nil))))
    else
      Cons(num, Cons(Leaf(CTA_PROTO_ICMPV6_CODE, t.l4dst[1..]), Cons(Leaf(CTA_PROTO_ICMPV6_TYPE, t.l4dst[..1]),
           Cons(Leaf(CTA_PROTO_ICMPV6_ID, t.l4src), Nil))))
  }

  function TupleAttr(t: Tuple, kind: nat): Attr
    requires WellFormed(t)
  {
    Nest(kind, Cons(Nest(CTA_TUPLE_IP, IpAttrs(t)), Cons(Nest(CTA_TUPLE_PROTO, ProtoAttrs(t)), Nil)))
  }

  /** The most room a tuple takes. */
  const MAX_TUPLE := 84

  lemma LeafFits(kind: nat, payload: Text, rest: Attrs)
    requires kind < NLA_TYPE_LIMIT && |payload| <= 16 && AllSmall(rest)
    ensures AllSmall(Cons(Leaf(kind, payload), rest))
    ensures SizeAll(Cons(Leaf(kind, payload), rest)) <= 4 + (|payload| + 3) + SizeAll(rest)
    ensures |payload| % 4 == 0 ==> SizeAll(Cons(Leaf(kind, payload), rest)) == 4 + |payload| + SizeAll(rest)
    ensures |payload| <= 4 ==> SizeAll(Cons(Leaf(kind, payload), rest)) <= 8 + SizeAll(rest)
  {
  }

  lemma ListsFit(t: Tuple)
    requires WellFormed(t)
    ensures SizeAll(IpAttrs(t)) <= 40 && AllSmall(IpAttrs(t))
    ensures SizeAll(ProtoAttrs(t)) <= 32 && AllSmall(ProtoAttrs(t))
  {
    hide AllSmall;
    hide SizeAll;
    assert AllSmall(Nil) && SizeAll(Nil) == 0 by {
      NoneFit();
    }
    var ip, proto := IpAttrs(t), ProtoAttrs(t);
    LeafFits(ip.tail.head.kind, ip.tail.head.payload, Nil);
    LeafFits(ip.head.kind, ip.head.payload, ip.tail);
    var last := proto.tail.tail;
    if last.tail.Cons? {
      LeafFits(last.tail.head.kind, last.tail.head.payload, Nil);
    }
    LeafFits(last.head.kind, last.head.payload, last.tail);
    LeafFits(proto.tail.head.kind, proto.tail.head.payload, last);
    LeafFits(proto.head.kind, proto.head.payload, proto.tail);
  }

  lemma NoneFit()
    ensures AllSmall(Nil) && SizeAll(Nil) == 0
  {
  }

  lemma TupleFits(t: Tuple, kind: nat)
    requires WellFormed(t) && kind < NLA_TYPE_LIMIT
    ensures Small(TupleAttr(t, kind)) && Size(TupleAttr(t, kind)) <= MAX_TUPLE
  {
    ListsFit(t);
    hide IpAttrs;
    hide ProtoAttrs;
    var ip, proto := Nest(CTA_TUPLE_IP, IpAttrs(t)), Cons(Nest(CTA_TUPLE_PROTO, ProtoAttrs(t)), Nil);
    assert SizeAll(proto) <= 36 && AllSmall(proto);
    assert Small(ip);
    assert TupleAttr(t, kind).children == Cons(ip, proto);
    assert AllSmall(Cons(ip, proto)) && SizeAll(Cons(ip, proto)) == Size(ip) + SizeAll(proto);
  }

  // ---------- What is built, byte by byte ----------

  /** Four bytes in front of an attribute of less than 256 bytes. */
  function Head(length: byte, kind: byte, nested: bool): Text {
    [length, 0, kind, if nested then 128 else 0]
  }

  predicate IpWire(t: Tuple, b: Text) {
    if t.l3 == 2
    then
      && |t.src| == |t.dst| == 16
      && b == Head(8, 1, false) + t.src[..4] + (Head(8, 2, false) + t.dst[..4])
    else b == Head(20, 3, false) + t.src + (Head(20, 4, false) + t.dst)
  }

  /** The ports; or code, type and id of a message of ICMP, with the numbers of its version. */
  predicate ProtoWire(t: Tuple, b: Text) {
    && |t.l4dst| == 2 && |b| >= 24
    && b[..4] == Head(5, 1, false) && b[4] == t.proto
    && if t.proto in {1, 58}
       then
         var v6 := if t.proto == 58 then 3 else 0;
         && |b| == 32
         && b[8..12] == Head(5, 6 + v6, false) && b[12] == t.l4dst[1]
         && b[16..20] == Head(5, 5 + v6, false) && b[20] == t.l4dst[0]
         && b[24..28] == Head(6, 4 + v6, false) && b[28..30] == t.l4src
       else
         && |b| == 24
         && b[8..12] == Head(6, 2, false) && b[12..14] == t.l4src
         && b[16..20] == Head(6, 3, false) && b[20..22] == t.l4dst
  }

  /** All bytes of a tuple but those that only pad. */
  predicate Wire(t: Tuple, kind: nat, b: Text) {
    var n, m := if t.l3 == 2 then 16 else 40, if t.proto in {1, 58} then 32 else 24;
    && kind < 0x4000 && |b| == 12 + n + m
    && b[..4] == [12 + n + m, 0, kind % 256, 128 + kind / 256]
    && b[4..8] == Head(4 + n, 1, true) && IpWire(t, b[8..8 + n])
    && b[8 + n..12 + n] == Head(4 + m, 2, true) && ProtoWire(t, b[12 + n..])
  }

  /** Which tuples can be built, by the numbers of address families and protocols. */
  lemma SupportedNumbers(t: Tuple)
    ensures Supported(t) <==> t.l3 in {2, 10} && t.proto in {1, 6, 17, 33, 47, 58, 132, 136}
  {
  }

  lemma HeadRead(length: nat, field: nat, b: Text)
    requires length < 65536 && field < 65536 && |b| >= 4 && ReadLe16(b) == length && ReadLe16(b[2..]) == field
    ensures b[..4] == [length % 256, length / 256, field % 256, field / 256]
  {
    ByteTwo(b[0], b[1]);
    ByteTwo(b[2], b[3]);
  }

  lemma ByteTwo(low: byte, high: byte)
    ensures (low as int + 256 * (high as int)) % 256 == low && (low as int + 256 * (high as int)) / 256 == high
  {
  }

  /** A leaf at the front of a list. */
  lemma LeafWire(kind: byte, payload: Text, rest: Attrs, b: Text)
    requires 1 <= |payload| <= 16 && EncodesAll(Cons(Leaf(kind, payload), rest), b)
    ensures var n := if |payload| <= 4 then 8 else if |payload| == 16 then 20 else 4 + Align(|payload|);
            && |b| >= n && b[..4] == Head(4 + |payload|, kind, false) && b[4..4 + |payload|] == payload
            && EncodesAll(rest, b[n..])
  {
    hide EncodesAll;
    AlignNumbers(|payload|);
    hide Align;
    ConsRead(Leaf(kind, payload), rest, b);
    var front := b[..Size(Leaf(kind, payload))];
    HeadRead(4 + |payload|, kind, front);
    assert b[..4] == front[..4] && b[4..4 + |payload|] == front[4..4 + |payload|];
  }

  lemma AlignNumbers(n: nat)
    ensures 1 <= n <= 4 ==> Align(n) == 4
    ensures n == 16 ==> Align(n) == 16
  {
  }

  lemma ConsRead(t: Attr, rest: Attrs, b: Text)
    requires EncodesAll(Cons(t, rest), b)
    ensures Size(t) <= |b| && Encodes(t, b[..Size(t)]) && EncodesAll(rest, b[Size(t)..])
  {
  }

  lemma IpWired(t: Tuple, b: Text)
    requires WellFormed(t) && t.l3 in {2, 10} && EncodesAll(IpAttrs(t), b)
    ensures IpWire(t, b)
  {
    hide EncodesAll;
    var list := IpAttrs(t);
    LeafWire(list.head.kind, list.head.payload, list.tail, b);
    var n := if t.l3 == 2 then 8 else 20;
    LeafWire(list.tail.head.kind, list.tail.head.payload, Nil, b[n..]);
    NothingLeft(b[n..][n..]);
    assert b == b[..4] + b[4..n] + (b[n..][..4] + b[n..][4..n]);
  }

  lemma NothingLeft(b: Text)
    requires EncodesAll(Nil, b)
    ensures b == []
  {
  }

  lemma ProtoWired(t: Tuple, b: Text)
    requires WellFormed(t) && t.proto in {1, 6, 17, 33, 47, 58, 132, 136} && EncodesAll(ProtoAttrs(t), b)
    ensures ProtoWire(t, b)
  {
    hide EncodesAll;
    var list := ProtoAttrs(t);
    LeafWire(list.head.kind, list.head.payload, list.tail, b);
    var second := list.tail;
    LeafWire(second.head.kind, second.head.payload, second.tail, b[8..]);
    var third := second.tail;
    LeafWire(third.head.kind, third.head.payload, third.tail, b[8..][8..]);
    assert b[8..][8..] == b[16..] && b[16..][8..] == b[24..];
    Shifted(b, 8, 2);
    Shifted(b, 16, 2);
    if t.proto in {1, 58} {
      LeafWire(third.tail.head.kind, third.tail.head.payload, Nil, b[24..]);
      NothingLeft(b[24..][8..]);
      Shifted(b, 24, 2);
    } else {
      NothingLeft(b[24..]);
    }
  }

  lemma Shifted(b: Text, at: nat, n: nat)
    requires at + 4 + n <= |b| && n > 0
    ensures b[at..][..4] == b[at..at + 4] && b[at..][4..4 + n] == b[at + 4..at + 4 + n] && b[at..][4] == b[at + 4]
  {
  }

  /** A built tuple is these bytes. */
  lemma TupleWired(t: Tuple, kind: nat, b: Text)
    requires WellFormed(t) && Supported(t) && kind < 0x4000 && Encodes(TupleAttr(t, kind), b)
    ensures Wire(t, kind, b)
  {
    hide EncodesAll;
    hide IpAttrs;
    hide ProtoAttrs;
    hide IpWire;
    hide ProtoWire;
    TupleFits(t, kind);
    assert |b| < 256;
    NestOpens(kind, TupleAttr(t, kind).children, b);
    hide Encodes;
    NestsWired(t, b[4..]);
    var n := if t.l3 == 2 then 16 else 40;
    Within(b, 4, 0, 4);
    Within(b, 4, 4, 4 + n);
    Within(b, 4, 4 + n, 8 + n);
    Within(b, 4, 8 + n, |b| - 4);
    assert b[12 + n..|b|] == b[12 + n..];
  }

  lemma Within(b: Text, at: nat, i: nat, j: nat)
    requires i <= j && at + j <= |b|
    ensures b[at..][i..j] == b[at + i..at + j]
  {
  }

  lemma WireLengths(t: Tuple, b: Text)
    requires WellFormed(t)
    ensures IpWire(t, b) ==> |b| == if t.l3 == 2 then 16 else 40
    ensures ProtoWire(t, b) ==> |b| == if t.proto in {1, 58} then 32 else 24
  {
  }

  /** The two nests inside. */
  lemma NestsWired(t: Tuple, b: Text)
    requires WellFormed(t) && Supported(t)
    requires EncodesAll(Cons(Nest(CTA_TUPLE_IP, IpAttrs(t)), Cons(Nest(CTA_TUPLE_PROTO, ProtoAttrs(t)), Nil)), b)
    ensures var n, m := if t.l3 == 2 then 16 else 40, if t.proto in {1, 58} then 32 else 24;
            && |b| == 8 + n + m
            && b[0..4] == Head(4 + n, 1, true) && IpWire(t, b[4..4 + n])
            && b[4 + n..8 + n] == Head(4 + m, 2, true) && ProtoWire(t, b[8 + n..8 + n + m])
  {
    hide *;
    SupportedNumbers(t);
    ListsFit(t);
    TupleTypes();
    var n, m := SizeAll(IpAttrs(t)), SizeAll(ProtoAttrs(t));
    NestWire(1, IpAttrs(t), Cons(Nest(CTA_TUPLE_PROTO, ProtoAttrs(t)), Nil), b);
    IpWired(t, b[4..4 + n]);
    WireLengths(t, b[4..4 + n]);
    ProtoNestWired(t, b[4 + n..]);
    Within(b, 4 + n, 0, 4);
    Within(b, 4 + n, 4, 4 + m);
  }

  lemma ProtoNestWired(t: Tuple, b: Text)
    requires WellFormed(t) && t.proto in {1, 6, 17, 33, 47, 58, 132, 136}
    requires EncodesAll(Cons(Nest(CTA_TUPLE_PROTO, ProtoAttrs(t)), Nil), b)
    ensures var m := if t.proto in {1, 58} then 32 else 24;
            && SizeAll(ProtoAttrs(t)) == m && |b| == 4 + m
            && b[0..4] == Head(4 + m, 2, true) && ProtoWire(t, b[4..4 + m])
  {
    hide *;
    ListsFit(t);
    TupleTypes();
    var m := SizeAll(ProtoAttrs(t));
    NestWire(2, ProtoAttrs(t), Nil, b);
    ProtoWired(t, b[4..4 + m]);
    WireLengths(t, b[4..4 + m]);
    NothingLeft(b[4 + m..]);
  }

  lemma TupleTypes()
    ensures CTA_TUPLE_IP == 1 && CTA_TUPLE_PROTO == 2 && CTA_TUPLE_ZONE == 3
  {
  }

  lemma NestOpens(kind: nat, children: Attrs, b: Text)
    requires kind < 0x4000 && Encodes(Nest(kind, children), b) && |b| < 256
    ensures |b| >= 4 && b[..4] == [|b|, 0, kind % 256, 128 + kind / 256] && EncodesAll(children, b[4..])
  {
    hide EncodesAll;
    hide SizeAll;
    HeadRead(|b|, 0x8000 + kind, b);
    NestedByte(kind);
  }

  lemma NestedByte(kind: nat)
    requires kind < 0x4000
    ensures (0x8000 + kind) / 256 == 128 + kind / 256 && (0x8000 + kind) % 256 == kind % 256
  {
  }

  /** A nest at the front of a list. */
  lemma NestWire(kind: byte, children: Attrs, rest: Attrs, b: Text)
    requires SizeAll(children) < 100 && EncodesAll(Cons(Nest(kind, children), rest), b)
    ensures var n := SizeAll(children);
            && |b| >= 4 + n && b[..4] == Head(4 + n, kind, true)
            && EncodesAll(children, b[4..4 + n]) && EncodesAll(rest, b[4 + n..])
  {
    hide EncodesAll;
    ConsRead(Nest(kind, children), rest, b);
    var n := SizeAll(children);
    var front := b[..4 + n];
    HeadRead(4 + n, 0x8000 + kind, front);
    assert b[..4] == front[..4] && b[4..4 + n] == front[4..];
  }

  // ---------- Building ----------

  function Snoc(ts: Attrs, t: Attr): Attrs {
    match ts
    case Nil => Cons(t, Nil)
    case Cons(head, tail) => Cons(head, Snoc(tail, t))
  }

  lemma Snocs(a: Attr, b: Attr, c: Attr, d: Attr)
    ensures Snoc(Cons(a, Nil), b) == Cons(a, Cons(b, Nil))
    ensures Snoc(Cons(a, Cons(b, Nil)), c) == Cons(a, Cons(b, Cons(c, Nil)))
    ensures Snoc(Cons(a, Cons(b, Cons(c, Nil))), d) == Cons(a, Cons(b, Cons(c, Cons(d, Nil))))
  {
    assert Snoc(Nil, d) == Cons(d, Nil) && Snoc(Cons(b, Nil), c) == Cons(b, Cons(c, Nil));
    assert Snoc(Cons(c, Nil), d) == Cons(c, Cons(d, Nil));
    assert Snoc(Cons(b, Cons(c, Nil)), d) == Cons(b, Cons(c, Cons(d, Nil)));
  }

  lemma {:induction false} EncodesSnoc(ts: Attrs, t: Attr, b: Text, c: Text)
    requires EncodesAll(ts, b) && Encodes(t, c)
    ensures EncodesAll(Snoc(ts, t), b + c)
  {
    match ts
    case Nil =>
      ConsStored(t, Nil, c, [], b + c);
    case Cons(head, tail) =>
      var n := Size(head);
      EncodesSnoc(tail, t, b[n..], c);
      assert b == b[..n] + b[n..];
      Assoc(b[..n], b[n..], c);
      ConsStored(head, Snoc(tail, t), b[..n], b[n..] + c, b + c);
  }

  /** The message has grown by `t`, behind the attributes that already filled it from `from` on. */
  lemma Appended(was: Text, now: Text, from: nat, ts: Attrs, t: Attr)
    requires from <= |was| <= |now| && now[..|was|] == was
    requires EncodesAll(ts, was[from..]) && Encodes(t, now[|was|..])
    ensures EncodesAll(Snoc(ts, t), now[from..]) && now[..from] == was[..from]
  {
    EncodesSnoc(ts, t, was[from..], now[|was|..]);
    assert now[from..] == was[from..] + now[|was|..];
  }

  /** A message's contents before and after an attribute was put at its tail. */
  lemma Grown(m: NlMsg, middle: nat)
    requires m.Valid() && middle <= m.len
    ensures m.Contents()[..middle] == m.buf[..middle] && m.Contents()[middle..] == m.buf[middle..m.len]
  {
    Cut(m.buf, 0, m.len, 0, middle);
    Cut(m.buf, 0, m.len, middle, m.len);
  }

  method PutLeaf(m: NlMsg, ghost from: nat, ghost ts: Attrs, kind: nat, payload: Text)
    requires m.Valid() && from <= m.len && EncodesAll(ts, m.Contents()[from..])
    requires kind < NLA_TYPE_LIMIT && |payload| <= 16 && m.len + 4 + Align(|payload|) <= m.buf.Length
    modifies m.buf, m`len
    ensures m.Valid() && m.len == old(m.len) + 4 + Align(|payload|)
    ensures m.Contents()[..from] == old(m.Contents())[..from]
    ensures EncodesAll(Snoc(ts, Leaf(kind, payload)), m.Contents()[from..])
  {
    hide EncodesAll;
    hide Encodes;
    hide Align;
    ghost var middle, was := m.len, m.Contents();
    AlignHeader(|payload|);
    m.Put(kind, payload);
    Grown(m, middle);
    Appended(was, m.Contents(), from, ts, Leaf(kind, payload));
  }

  /** nfct_build_tuple_ip */
  method BuildTupleIp(m: NlMsg, t: Tuple) returns (ok: bool)
    requires m.Valid() && WellFormed(t) && m.len + 44 <= m.buf.Length
    modifies m.buf, m`len
    ensures ok <==> t.l3 in {2, 10}
    ensures m.Valid() && old(m.len) <= m.len <= old(m.len) + 44 && m.Contents()[..old(m.len)] == old(m.Contents())
    ensures !ok ==> m.len == old(m.len)
    ensures ok ==> Encodes(Nest(CTA_TUPLE_IP, IpAttrs(t)), m.Contents()[old(m.len)..])
  {
    hide EncodesAll;
    hide Encodes;
    ghost var was := m.Contents();
    var start := m.NestStart(CTA_TUPLE_IP);
    ghost var from := m.len;
    NestOpened(m, was, start, CTA_TUPLE_IP);
    ghost var begun := m.Contents();
    if t.l3 == AF_INET {
      PutLeaf(m, from, Nil, CTA_IP_V4_SRC, t.src[..4]);
      PutLeaf(m, from, Cons(Leaf(CTA_IP_V4_SRC, t.src[..4]), Nil), CTA_IP_V4_DST, t.dst[..4]);
    } else if t.l3 == AF_INET6 {
      PutLeaf(m, from, Nil, CTA_IP_V6_SRC, t.src);
      PutLeaf(m, from, Cons(Leaf(CTA_IP_V6_SRC, t.src), Nil), CTA_IP_V6_DST, t.dst);
    } else {
      m.NestCancel(start);
      return false;
    }
    ListsFit(t);
    CloseNest(m, Nest(CTA_TUPLE_IP, IpAttrs(t)), start, begun);
    return true;
  }

  /** What NestStart leaves: the message, and four bytes that end in the type. */
  lemma NestOpened(m: NlMsg, was: Text, start: nat, kind: nat)
    requires m.Valid() && start == |was| && m.len == start + 4 && m.buf[..start] == was
    requires kind < NLA_TYPE_LIMIT && ReadLe16(m.buf[start + 2..m.len]) == NLA_F_NESTED + kind
    ensures m.Contents()[..start] == was && m.Contents()[m.len..] == [] && EncodesAll(Nil, m.Contents()[m.len..])
    ensures ReadLe16(m.Contents()[start + 2..]) == NLA_F_NESTED + kind
  {
    Cut(m.buf, 0, m.len, 0, start);
    Cut(m.buf, 0, m.len, start + 2, m.len);
  }

  /** mnl_attr_nest_end on a nest whose children are in place. */
  method CloseNest(m: NlMsg, ghost t: Attr, start: nat, ghost begun: Text)
    requires t.Nest? && Small(t) && m.Valid() && start + 4 == |begun| <= m.len
    requires m.Contents()[..|begun|] == begun && ReadLe16(begun[start + 2..]) == NLA_F_NESTED + t.kind
    requires EncodesAll(t.children, m.Contents()[start + 4..])
    modifies m.buf
    ensures m.Contents()[..start] == begun[..start] && Encodes(t, m.Contents()[start..])
  {
    hide Encodes;
    Sizes(t.children, m.Contents()[start + 4..]);
    hide EncodesAll;
    Cut(m.buf, 0, m.len, start + 4, m.len);
    Cut(m.buf, 0, m.len, 0, start + 4);
    Cut(m.buf, 0, start + 4, start + 2, start + 4);
    Cut(m.buf, 0, start + 4, 0, start);
    m.EndNest(t, start);
    Grown(m, start);
  }

  /** nfct_build_tuple_proto */
  method BuildTupleProto(m: NlMsg, t: Tuple) returns (ok: bool)
    requires m.Valid() && WellFormed(t) && m.len + 36 <= m.buf.Length
    modifies m.buf, m`len
    ensures ok <==> t.proto in {1, 6, 17, 33, 47, 58, 132, 136}
    ensures m.Valid() && old(m.len) <= m.len <= old(m.len) + 36 && m.Contents()[..old(m.len)] == old(m.Contents())
    ensures !ok ==> m.len == old(m.len)
    ensures ok ==> Encodes(Nest(CTA_TUPLE_PROTO, ProtoAttrs(t)), m.Contents()[old(m.len)..])
  {
    hide EncodesAll;
    hide Encodes;
    ghost var was := m.Contents();
    var start := m.NestStart(CTA_TUPLE_PROTO);
    ghost var from := m.len;
    NestOpened(m, was, start, CTA_TUPLE_PROTO);
    ghost var begun := m.Contents();
    PutLeaf(m, from, Nil, CTA_PROTO_NUM, [t.proto]);
    ghost var ts := Cons(Leaf(CTA_PROTO_NUM, [t.proto]), Nil);
    if HasPorts(t.proto) {
      PutLeaf(m, from, ts, CTA_PROTO_SRC_PORT, t.l4src);
      PutLeaf(m, from, Snoc(ts, Leaf(CTA_PROTO_SRC_PORT, t.l4src)), CTA_PROTO_DST_PORT, t.l4dst);
    } else if t.proto == ICMP {
      PutIcmp(m, from, ts, CTA_PROTO_ICMP_CODE, CTA_PROTO_ICMP_TYPE, CTA_PROTO_ICMP_ID, t);
    } else if t.proto == ICMPV6 {
      PutIcmp(m, from, ts, CTA_PROTO_ICMPV6_CODE, CTA_PROTO_ICMPV6_TYPE, CTA_PROTO_ICMPV6_ID, t);
    } else {
      m.NestCancel(start);
      return false;
    }
    ListsFit(t);
    ghost var rest := ProtoAttrs(t).tail;
    Snocs(ts.head, rest.head, rest.tail.head, if HasPorts(t.proto) then ts.head else rest.tail.tail.head);
    CloseNest(m, Nest(CTA_TUPLE_PROTO, ProtoAttrs(t)), start, begun);
    return true;
  }

  /** The three attributes of either ICMP version. */
  method PutIcmp(m: NlMsg, ghost from: nat, ghost ts: Attrs, code: nat, kind: nat, id: nat, t: Tuple)
    requires m.Valid() && from <= m.len && EncodesAll(ts, m.Contents()[from..]) && WellFormed(t)
    requires code < 16 && kind < 16 && id < 16 && m.len + 24 <= m.buf.Length
    modifies m.buf, m`len
    ensures m.Valid() && m.len == old(m.len) + 24 && m.Contents()[..from] == old(m.Contents())[..from]
    ensures EncodesAll(Snoc(Snoc(Snoc(ts, Leaf(code, t.l4dst[1..])), Leaf(kind, t.l4dst[..1])), Leaf(id, t.l4src)),
                       m.Contents()[from..])
  {
    hide EncodesAll;
    hide Snoc;
    PutLeaf(m, from, ts, code, t.l4dst[1..]);
    ghost var two := Snoc(ts, Leaf(code, t.l4dst[1..]));
    PutLeaf(m, from, two, kind, t.l4dst[..1]);
    PutLeaf(m, from, Snoc(two, Leaf(kind, t.l4dst[..1])), id, t.l4src);
  }

  /** nfct_build_tuple: a build that fails leaves the message as it was. */
  method BuildTuple(m: NlMsg, t: Tuple, kind: nat) returns (ok: bool)
    requires m.Valid() && WellFormed(t) && kind < NLA_TYPE_LIMIT && m.len + MAX_TUPLE <= m.buf.Length
    modifies m.buf, m`len
    ensures ok <==> t.l3 in {2, 10} && t.proto in {1, 6, 17, 33, 47, 58, 132, 136}
    ensures m.Valid() && old(m.len) <= m.len && m.Contents()[..old(m.len)] == old(m.Contents())
    ensures !ok ==> m.len == old(m.len) && m.Contents() == old(m.Contents())
    ensures ok ==> Encodes(TupleAttr(t, kind), m.Contents()[old(m.len)..])
    ensures ok ==> Wire(t, kind, m.Contents()[old(m.len)..])
  {
    SupportedNumbers(t);
    hide Wire;
    hide EncodesAll;
    hide Encodes;
    hide HasPorts;
    ghost var was := m.Contents();
    var start := m.NestStart(kind);
    ghost var from := m.len;
    NestOpened(m, was, start, kind);
    ghost var begun := m.Contents();
    ok := BuildTupleRaw(m, t, from);
    if !ok {
      m.NestCancel(start);
      return;
    }
    TupleFits(t, kind);
    CloseNest(m, TupleAttr(t, kind), start, begun);
    TupleWired(t, kind, m.Contents()[start..]);
  }

  /** nfct_build_tuple_raw: may leave the address part behind when it fails. */
  method BuildTupleRaw(m: NlMsg, t: Tuple, ghost from: nat) returns (ok: bool)
    requires m.Valid() && WellFormed(t) && m.len + 80 <= m.buf.Length
    requires from == m.len && EncodesAll(Nil, m.Contents()[from..])
    modifies m.buf, m`len
    ensures ok <==> Supported(t)
    ensures m.Valid() && from <= m.len && m.Contents()[..from] == old(m.Contents())
    ensures ok ==> EncodesAll(TupleAttr(t, 0).children, m.Contents()[from..])
  {
    hide EncodesAll;
    hide Encodes;
    hide HasPorts;
    hide IpAttrs;
    hide ProtoAttrs;
    SupportedNumbers(t);
    ghost var was := m.Contents();
    ok := BuildTupleIp(m, t);
    if !ok {
      return;
    }
    ghost var ip, middle := Nest(CTA_TUPLE_IP, IpAttrs(t)), m.Contents();
    Appended(was, middle, from, Nil, ip);
    ok := BuildTupleProto(m, t);
    if !ok {
      assert m.Contents() == middle;
      return;
    }
    Snocs(ip, Nest(CTA_TUPLE_PROTO, ProtoAttrs(t)), ip, ip);
    Appended(middle, m.Contents(), from, Cons(ip, Nil), Nest(CTA_TUPLE_PROTO, ProtoAttrs(t)));
  }

  // ---------- Attribute tables ----------

  /** What a table holds for a type: the payload of the last attribute of that type. */
  function Last(rs: seq<Raw>, kind: nat): Option<Text> {
    if rs == [] then None
    else if TypeOf(rs[|rs| - 1]) == kind then Some(rs[|rs| - 1].payload)
    else Last(rs[..|rs| - 1], kind)
  }

  /** How long the payload of a type must be; `Nested` is empty or holds at least a header. */
  datatype Width = Any | Exactly(n: nat) | Nested

  predicate Fits(w: Width, payload: Text) {
    match w
    case Any => true
    case Exactly(n) => |payload| == n
    case Nested => |payload| == 0 || |payload| >= ATTR_HDRLEN
  }

  function IpWidth(kind: nat): Width {
    if kind == CTA_IP_V4_SRC || kind == CTA_IP_V4_DST then Exactly(4)
    else if kind == CTA_IP_V6_SRC || kind == CTA_IP_V6_DST then Exactly(16)
    else Any
  }

  function ProtoWidth(kind: nat): Width {
    if kind in {CTA_PROTO_SRC_PORT, CTA_PROTO_DST_PORT, CTA_PROTO_ICMP_ID, CTA_PROTO_ICMPV6_ID} then Exactly(2)
    else if kind == 0 then Any
    else Exactly(1)
  }

  function TupleWidth(kind: nat): Width {
    if kind == CTA_TUPLE_IP || kind == CTA_TUPLE_PROTO then Nested
    else if kind == CTA_TUPLE_ZONE then Exactly(2)
    else Any
  }

  /** Every known attribute has the length its type asks for. */
  predicate Accepted(rs: seq<Raw>, max: nat, width: nat -> Width) {
    forall i :: 0 <= i < |rs| && TypeOf(rs[i]) <= max ==> Fits(width(TypeOf(rs[i])), rs[i].payload)
  }

  /**
    mnl_attr_parse_nested with one of the attribute callbacks: unknown types are
    skipped, a known one of the wrong length ends the program (`ok` is false), and
    a later attribute replaces an earlier one of its type.
   */
  method ParseNested(nest: Text, max: nat, width: nat -> Width) returns (ok: bool, tb: array<Option<Text>>)
    ensures fresh(tb) && tb.Length == max + 1
    ensures ok <==> Accepted(Flat(nest), max, width)
    ensures ok ==> forall k :: 0 <= k <= max ==> tb[k] == Last(Flat(nest), k)
                                                 && (tb[k].Some? ==> Fits(width(k), tb[k].value))
  {
    hide Flat;
    tb := new Option<Text>[max + 1](_ => None);
    var rs, _ := ForEach(nest);
    for i := 0 to |rs|
      invariant Accepted(rs[..i], max, width)
      invariant forall k :: 0 <= k <= max ==> tb[k] == Last(rs[..i], k)
                                              && (tb[k].Some? ==> Fits(width(k), tb[k].value))
    {
      assert rs[..i + 1][..i] == rs[..i];
      var kind := TypeOf(rs[i]);
      if kind <= max {
        if !Fits(width(kind), rs[i].payload) {
          return false, tb;
        }
        tb[kind] := Some(rs[i].payload);
      }
    }
    assert rs[..|rs|] == rs;
    return true, tb;
  }

  // ---------- Reading a tuple ----------

  datatype Dir = Orig | Repl | Master

  function AttrIpv4Src(dir: Dir): nat { match dir case Orig => 0 case Repl => 2 case Master => 37 }

  function AttrIpv4Dst(dir: Dir): nat { match dir case Orig => 1 case Repl => 3 case Master => 38 }

  function AttrIpv6Src(dir: Dir): nat { match dir case Orig => 4 case Repl => 6 case Master => 39 }

  function AttrIpv6Dst(dir: Dir): nat { match dir case Orig => 5 case Repl => 7 case Master => 40 }

  function AttrPortSrc(dir: Dir): nat { match dir case Orig => 8 case Repl => 10 case Master => 41 }

  function AttrPortDst(dir: Dir): nat { match dir case Orig => 9 case Repl => 11 case Master => 42 }

  function AttrL4Proto(dir: Dir): nat { match dir case Orig => 17 case Repl => 18 case Master => 44 }

  const ATTR_ICMP_TYPE := 12
  const ATTR_ICMP_CODE := 13
  const ATTR_ICMP_ID := 14

  function AttrZone(dir: Dir): set<nat> { match dir case Orig => {68} case Repl => {69} case Master => {} }

  /** Bytes written over the beginning of a field. */
  function Over(field: Text, bytes: Option<Text>): Text {
    if bytes.Some? && |bytes.value| <= |field| then bytes.value + field[|bytes.value|..] else field
  }

  function If(o: Option<Text>, bit: nat): set<nat> {
    if o.Some? then {bit} else {}
  }

  function IpOver(t: Tuple, rs: seq<Raw>): Tuple {
    t.(src := Over(Over(t.src, Last(rs, CTA_IP_V4_SRC)), Last(rs, CTA_IP_V6_SRC)),
       dst := Over(Over(t.dst, Last(rs, CTA_IP_V4_DST)), Last(rs, CTA_IP_V6_DST)))
  }

  function IpBits(rs: seq<Raw>, dir: Dir): set<nat> {
    If(Last(rs, CTA_IP_V4_SRC), AttrIpv4Src(dir)) + If(Last(rs, CTA_IP_V4_DST), AttrIpv4Dst(dir))
    + If(Last(rs, CTA_IP_V6_SRC), AttrIpv6Src(dir)) + If(Last(rs, CTA_IP_V6_DST), AttrIpv6Dst(dir))
  }

  /** nfct_parse_ip: an IPv6 address is written after, and so over, an IPv4 one. */
  method ParseIp(nest: Text, t: Tuple, dir: Dir, bits: set<nat>) returns (ok: bool, t': Tuple, bits': set<nat>)
    requires WellFormed(t)
    ensures ok <==> Accepted(Flat(nest), CTA_IP_MAX, IpWidth)
    ensures ok ==> t' == IpOver(t, Flat(nest)) && bits' == bits + IpBits(Flat(nest), dir) && WellFormed(t')
  {
    hide Flat;
    hide Last;
    hide Accepted;
    var tb;
    ok, tb := ParseNested(nest, CTA_IP_MAX, IpWidth);
    t', bits' := t, bits;
    if !ok {
      return;
    }
    if tb[CTA_IP_V4_SRC].Some? {
      t' := t'.(src := tb[CTA_IP_V4_SRC].value + t'.src[4..]);
      bits' := bits' + {AttrIpv4Src(dir)};
    }
    if tb[CTA_IP_V4_DST].Some? {
      t' := t'.(dst := tb[CTA_IP_V4_DST].value + t'.dst[4..]);
      bits' := bits' + {AttrIpv4Dst(dir)};
    }
    if tb[CTA_IP_V6_SRC].Some? {
      t' := t'.(src := tb[CTA_IP_V6_SRC].value);
      bits' := bits' + {AttrIpv6Src(dir)};
    }
    if tb[CTA_IP_V6_DST].Some? {
      t' := t'.(dst := tb[CTA_IP_V6_DST].value);
      bits' := bits' + {AttrIpv6Dst(dir)};
    }
  }

  function Byte0(field: Text, b: Option<Text>): Text
    requires |field| == 2
  {
    if b.Some? && |b.value| == 1 then [b.value[0], field[1]] else field
  }

  function Byte1(field: Text, b: Option<Text>): Text
    requires |field| == 2
  {
    if b.Some? && |b.value| == 1 then [field[0], b.value[0]] else field
  }

  /** The tuple with the protocol and port attributes that are present written over it. */
  function PortsOver(t: Tuple, num: Option<Text>, src: Option<Text>, dst: Option<Text>): (r: Tuple)
    requires WellFormed(t)
    ensures WellFormed(r)
  {
    t.(proto := Over([t.proto], num)[0], l4src := Over(t.l4src, src), l4dst := Over(t.l4dst, dst))
  }

  /** The same for the attributes of one ICMP version. */
  function IcmpOver(t: Tuple, kind: Option<Text>, code: Option<Text>, id: Option<Text>): (r: Tuple)
    requires WellFormed(t)
    ensures WellFormed(r)
  {
    t.(l4dst := Byte1(Byte0(t.l4dst, kind), code), l4src := Over(t.l4src, id))
  }

  function IcmpBits(kind: Option<Text>, code: Option<Text>, id: Option<Text>): set<nat> {
    If(kind, ATTR_ICMP_TYPE) + If(code, ATTR_ICMP_CODE) + If(id, ATTR_ICMP_ID)
  }

  predicate Sized(o: Option<Text>, n: nat) {
    o.Some? ==> |o.value| == n
  }

  method TakePorts(num: Option<Text>, src: Option<Text>, dst: Option<Text>, t: Tuple, dir: Dir, bits: set<nat>)
    returns (t': Tuple, bits': set<nat>)
    requires WellFormed(t) && Sized(num, 1) && Sized(src, 2) && Sized(dst, 2)
    ensures t' == PortsOver(t, num, src, dst)
    ensures bits' == bits + If(num, AttrL4Proto(dir)) + If(src, AttrPortSrc(dir)) + If(dst, AttrPortDst(dir))
  {
    t', bits' := t, bits;
    if num.Some? {
      t', bits' := t'.(proto := num.value[0]), bits' + {AttrL4Proto(dir)};
    }
    if src.Some? {
      t', bits' := t'.(l4src := src.value), bits' + {AttrPortSrc(dir)};
    }
    if dst.Some? {
      t', bits' := t'.(l4dst := dst.value), bits' + {AttrPortDst(dir)};
    }
  }

  method TakeIcmp(kind: Option<Text>, code: Option<Text>, id: Option<Text>, t: Tuple, bits: set<nat>)
    returns (t': Tuple, bits': set<nat>)
    requires WellFormed(t) && Sized(kind, 1) && Sized(code, 1) && Sized(id, 2)
    ensures t' == IcmpOver(t, kind, code, id) && bits' == bits + IcmpBits(kind, code, id)
  {
    t', bits' := t, bits;
    if kind.Some? {
      t', bits' := t'.(l4dst := [kind.value[0], t'.l4dst[1]]), bits' + {ATTR_ICMP_TYPE};
    }
    if code.Some? {
      t', bits' := t'.(l4dst := [t'.l4dst[0], code.value[0]]), bits' + {ATTR_ICMP_CODE};
    }
    if id.Some? {
      t', bits' := t'.(l4src := id.value), bits' + {ATTR_ICMP_ID};
    }
  }

  /** nfct_parse_proto */
  method ParseProto(nest: Text, t: Tuple, dir: Dir, bits: set<nat>) returns (ok: bool, t': Tuple, bits': set<nat>)
    requires WellFormed(t)
    ensures ok <==> Accepted(Flat(nest), CTA_PROTO_MAX, ProtoWidth)
    ensures ok ==> t' == ProtoOver(t, Flat(nest)) && bits' == bits + ProtoBits(Flat(nest), dir)
  {
    hide Flat;
    hide Last;
    hide Accepted;
    hide PortsOver;
    hide IcmpOver;
    hide If;
    var tb;
    ok, tb := ParseNested(nest, CTA_PROTO_MAX, ProtoWidth);
    t', bits' := t, bits;
    if !ok {
      return;
    }
    t', bits' := TakePorts(tb[CTA_PROTO_NUM], tb[CTA_PROTO_SRC_PORT], tb[CTA_PROTO_DST_PORT], t', dir, bits');
    t', bits' := TakeIcmp(tb[CTA_PROTO_ICMP_TYPE], tb[CTA_PROTO_ICMP_CODE], tb[CTA_PROTO_ICMP_ID], t', bits');
    t', bits' := TakeIcmp(tb[CTA_PROTO_ICMPV6_TYPE], tb[CTA_PROTO_ICMPV6_CODE], tb[CTA_PROTO_ICMPV6_ID], t', bits');
  }

  function ProtoOver(t: Tuple, rs: seq<Raw>): Tuple
    requires WellFormed(t)
  {
    var ports := PortsOver(t, Last(rs, CTA_PROTO_NUM), Last(rs, CTA_PROTO_SRC_PORT), Last(rs, CTA_PROTO_DST_PORT));
    var icmp := IcmpOver(ports, Last(rs, CTA_PROTO_ICMP_TYPE), Last(rs, CTA_PROTO_ICMP_CODE), Last(rs, CTA_PROTO_ICMP_ID));
    IcmpOver(icmp, Last(rs, CTA_PROTO_ICMPV6_TYPE), Last(rs, CTA_PROTO_ICMPV6_CODE), Last(rs, CTA_PROTO_ICMPV6_ID))
  }

  function ProtoBits(rs: seq<Raw>, dir: Dir): set<nat> {
    If(Last(rs, CTA_PROTO_NUM), AttrL4Proto(dir))
    + If(Last(rs, CTA_PROTO_SRC_PORT), AttrPortSrc(dir)) + If(Last(rs, CTA_PROTO_DST_PORT), AttrPortDst(dir))
    + IcmpBits(Last(rs, CTA_PROTO_ICMP_TYPE), Last(rs, CTA_PROTO_ICMP_CODE), Last(rs, CTA_PROTO_ICMP_ID))
    + IcmpBits(Last(rs, CTA_PROTO_ICMPV6_TYPE), Last(rs, CTA_PROTO_ICMPV6_CODE), Last(rs, CTA_PROTO_ICMPV6_ID))
  }

  /** nfct_parse_tuple; `ok` is false when an attribute of the wrong length ends the program. */
  method ParseTuple(nest: Text, t: Tuple, dir: Dir, bits: set<nat>) returns (ok: bool, t': Tuple, bits': set<nat>)
    requires WellFormed(t)
    ensures ok <==> TupleAccepted(Flat(nest))
    ensures ok ==> t' == TupleOver(t, Flat(nest)) && bits' == bits + TupleBits(Flat(nest), dir)
  {
    hide Flat;
    hide Last;
    hide Accepted;
    hide IpOver;
    hide IpBits;
    hide ProtoOver;
    hide ProtoBits;
    var tb;
    ok, tb := ParseNested(nest, CTA_TUPLE_MAX, TupleWidth);
    t', bits' := t, bits;
    if !ok {
      return;
    }
    ghost var rs := Flat(nest);
    if tb[CTA_TUPLE_IP].Some? {
      ok, t', bits' := ParseIp(tb[CTA_TUPLE_IP].value, t', dir, bits');
      if !ok {
        return;
      }
    }
    if tb[CTA_TUPLE_PROTO].Some? {
      ok, t', bits' := ParseProto(tb[CTA_TUPLE_PROTO].value, t', dir, bits');
      if !ok {
        return;
      }
    }
    if tb[CTA_TUPLE_ZONE].Some? {
      t' := t'.(zone := Be16(tb[CTA_TUPLE_ZONE].value));
      bits' := bits' + AttrZone(dir);
    }
  }

  /** A number in network byte order. */
  function Be16(b: Text): nat {
    if |b| == 2 then 256 * (b[0] as int) + b[1] as int else 0
  }

  predicate TupleAccepted(rs: seq<Raw>) {
    && Accepted(rs, CTA_TUPLE_MAX, TupleWidth)
    && (Last(rs, CTA_TUPLE_IP).Some? ==> Accepted(Flat(Last(rs, CTA_TUPLE_IP).value), CTA_IP_MAX, IpWidth))
    && (Last(rs, CTA_TUPLE_PROTO).Some? ==> Accepted(Flat(Last(rs, CTA_TUPLE_PROTO).value), CTA_PROTO_MAX, ProtoWidth))
  }

  function TupleOver(t: Tuple, rs: seq<Raw>): Tuple
    requires WellFormed(t) && TupleAccepted(rs)
  {
    var ip := if Last(rs, CTA_TUPLE_IP).Some? then IpOver(t, Flat(Last(rs, CTA_TUPLE_IP).value)) else t;
    assert WellFormed(ip);
    var proto := if Last(rs, CTA_TUPLE_PROTO).Some? then ProtoOver(ip, Flat(Last(rs, CTA_TUPLE_PROTO).value)) else ip;
    if Last(rs, CTA_TUPLE_ZONE).Some? then proto.(zone := Be16(Last(rs, CTA_TUPLE_ZONE).value)) else proto
  }

  function TupleBits(rs: seq<Raw>, dir: Dir): set<nat> {
    (if Last(rs, CTA_TUPLE_IP).Some? then IpBits(Flat(Last(rs, CTA_TUPLE_IP).value), dir) else {})
    + (if Last(rs, CTA_TUPLE_PROTO).Some? then ProtoBits(Flat(Last(rs, CTA_TUPLE_PROTO).value), dir) else {})
    + (if Last(rs, CTA_TUPLE_ZONE).Some? then AttrZone(dir) else {})
  }

  /** The zone of a tuple is in network byte order; without the attribute it stays. */
  lemma ZoneRead(t: Tuple, rs: seq<Raw>, dir: Dir, high: byte, low: byte)
    requires WellFormed(t) && TupleAccepted(rs)
    ensures Last(rs, 3) == Some([high, low]) ==>
              TupleOver(t, rs).zone == 256 * (high as int) + low as int && AttrZone(dir) <= TupleBits(rs, dir)
    ensures Last(rs, 3) == None ==> TupleOver(t, rs).zone == t.zone
  {
    hide Last;
    hide Flat;
    hide Accepted;
    hide Over;
    hide Byte0;
    hide Byte1;
  }

  // ---------- The round trip ----------

  function Raws(ts: Attrs): seq<Raw> {
    match ts
    case Nil => []
    case Cons(Leaf(kind, payload), rest) => [Raw(kind, payload)] + Raws(rest)
    case Cons(Nest(_, _), rest) => Raws(rest)
  }

  predicate Leaves(ts: Attrs) {
    match ts
    case Nil => true
    case Cons(t, rest) => t.Leaf? && Leaves(rest)
  }

  lemma {:induction false} FlatLeaves(ts: Attrs, b: Text)
    requires EncodesAll(ts, b) && AllSmall(ts) && Leaves(ts)
    ensures Flat(b) == Raws(ts)
    decreases ts
  {
    match ts
    case Nil =>
    case Cons(t, rest) =>
      HeadEncoded(t, rest, b);
      var n := Align(ReadLe16(b));
      FlatLeaves(rest, b[n..]);
      IterateStep(b);
  }

  /** What parsing must recover of `t` when it writes over `into`. */
  function Recovered(t: Tuple, into: Tuple): Tuple
    requires WellFormed(t) && WellFormed(into)
  {
    into.(src := if t.l3 == AF_INET then t.src[..4] + into.src[4..] else t.src,
          dst := if t.l3 == AF_INET then t.dst[..4] + into.dst[4..] else t.dst,
          proto := t.proto, l4src := t.l4src, l4dst := t.l4dst)
  }

  function RecoveredBits(t: Tuple, dir: Dir): set<nat> {
    (if t.l3 == AF_INET then {AttrIpv4Src(dir), AttrIpv4Dst(dir)} else {AttrIpv6Src(dir), AttrIpv6Dst(dir)})
    + {AttrL4Proto(dir)}
    + if HasPorts(t.proto) then {AttrPortSrc(dir), AttrPortDst(dir)} else {ATTR_ICMP_TYPE, ATTR_ICMP_CODE, ATTR_ICMP_ID}
  }

  /** The bits of each direction, by their numbers. */
  lemma BitNumbers(t: Tuple, dir: Dir)
    ensures RecoveredBits(t, dir)
            == (match dir case Orig => {17} case Repl => {18} case Master => {44})
               + (match dir
                  case Orig => if t.l3 == 2 then {0, 1} else {4, 5}
                  case Repl => if t.l3 == 2 then {2, 3} else {6, 7}
                  case Master => if t.l3 == 2 then {37, 38} else {39, 40})
               + (if t.proto in {6, 17, 33, 47, 132, 136}
                  then match dir case Orig => {8, 9} case Repl => {10, 11} case Master => {41, 42}
                  else {12, 13, 14})
  {
  }

  /** Which attribute sets which of them. */
  lemma BitOf(dir: Dir)
    ensures AttrIpv4Src(dir) == [0, 2, 37][Index(dir)] && AttrIpv4Dst(dir) == [1, 3, 38][Index(dir)]
    ensures AttrIpv6Src(dir) == [4, 6, 39][Index(dir)] && AttrIpv6Dst(dir) == [5, 7, 40][Index(dir)]
    ensures AttrPortSrc(dir) == [8, 10, 41][Index(dir)] && AttrPortDst(dir) == [9, 11, 42][Index(dir)]
    ensures AttrL4Proto(dir) == [17, 18, 44][Index(dir)] && AttrZone(dir) == [{68}, {69}, {}][Index(dir)]
    ensures ATTR_ICMP_TYPE == 12 && ATTR_ICMP_CODE == 13 && ATTR_ICMP_ID == 14
  {
  }

  /** __DIR_ORIG, __DIR_REPL and __DIR_MASTER. */
  function Index(dir: Dir): (i: nat)
    ensures i < 3
  {
    match dir case Orig => 0 case Repl => 1 case Master => 2
  }

  /** How long the payload of each attribute must be, by the numbers of the types. */
  lemma WidthNumbers(kind: nat)
    ensures IpWidth(kind) == if kind in {1, 2} then Exactly(4) else if kind in {3, 4} then Exactly(16) else Any
    ensures kind in {2, 3, 4, 7} ==> ProtoWidth(kind) == Exactly(2)
    ensures kind in {1, 5, 6, 8, 9} ==> ProtoWidth(kind) == Exactly(1)
    ensures TupleWidth(kind) == if kind in {1, 2} then Nested else if kind == 3 then Exactly(2) else Any
  {
  }

  function Pick(r: Raw, kind: nat, otherwise: Option<Text>): Option<Text> {
    if TypeOf(r) == kind then Some(r.payload) else otherwise
  }

  lemma LastSnoc(rs: seq<Raw>, r: Raw, kind: nat)
    ensures Last(rs + [r], kind) == Pick(r, kind, Last(rs, kind))
  {
    assert (rs + [r])[..|rs|] == rs;
  }

  lemma LastOfTwo(a: Raw, b: Raw, kind: nat)
    ensures Last([a, b], kind) == Pick(b, kind, Pick(a, kind, None))
  {
    LastSnoc([], a, kind);
    LastSnoc([a], b, kind);
    assert [] + [a] == [a] && [a] + [b] == [a, b];
  }

  lemma LastOfFour(a: Raw, b: Raw, c: Raw, d: Raw, kind: nat)
    ensures Last([a, b, c], kind) == Pick(c, kind, Last([a, b], kind))
    ensures Last([a, b, c, d], kind) == Pick(d, kind, Last([a, b, c], kind))
  {
    LastSnoc([a, b], c, kind);
    LastSnoc([a, b, c], d, kind);
    assert [a, b] + [c] == [a, b, c] && [a, b, c] + [d] == [a, b, c, d];
  }

  lemma RawsOf(a: Attr, b: Attr, c: Attr, d: Attr)
    requires a.Leaf? && b.Leaf? && c.Leaf? && d.Leaf?
    ensures var ra, rb, rc, rd := RawLeaf(a), RawLeaf(b), RawLeaf(c), RawLeaf(d);
            && Raws(Cons(a, Cons(b, Nil))) == [ra, rb]
            && Raws(Cons(a, Cons(b, Cons(c, Nil)))) == [ra, rb, rc]
            && Raws(Cons(a, Cons(b, Cons(c, Cons(d, Nil))))) == [ra, rb, rc, rd]
  {
    var rb, rc, rd := RawLeaf(b), RawLeaf(c), RawLeaf(d);
    assert Raws(Nil) == [];
    assert Raws(Cons(b, Nil)) == [rb] && Raws(Cons(c, Nil)) == [rc] && Raws(Cons(d, Nil)) == [rd];
    assert Raws(Cons(b, Cons(c, Nil))) == [rb, rc] && Raws(Cons(c, Cons(d, Nil))) == [rc, rd];
    assert Raws(Cons(b, Cons(c, Cons(d, Nil)))) == [rb, rc, rd];
  }

  function RawLeaf(t: Attr): Raw
    requires t.Leaf?
  {
    Raw(t.kind, t.payload)
  }

  lemma IpRecovered(t: Tuple, into: Tuple, dir: Dir, rs: seq<Raw>)
    requires WellFormed(t) && WellFormed(into) && Supported(t) && rs == Raws(IpAttrs(t))
    ensures Accepted(rs, CTA_IP_MAX, IpWidth)
    ensures IpOver(into, rs) == into.(src := Recovered(t, into).src, dst := Recovered(t, into).dst)
    ensures IpBits(rs, dir) == if t.l3 == AF_INET then {AttrIpv4Src(dir), AttrIpv4Dst(dir)}
                               else {AttrIpv6Src(dir), AttrIpv6Dst(dir)}
  {
    var a, b := IpAttrs(t).head, IpAttrs(t).tail.head;
    RawsOf(a, b, a, a);
    hide Raws;
    hide Last;
    LastOfTwo(RawLeaf(a), RawLeaf(b), CTA_IP_V4_SRC);
    LastOfTwo(RawLeaf(a), RawLeaf(b), CTA_IP_V4_DST);
    LastOfTwo(RawLeaf(a), RawLeaf(b), CTA_IP_V6_SRC);
    LastOfTwo(RawLeaf(a), RawLeaf(b), CTA_IP_V6_DST);
    assert t.l3 == AF_INET6 ==> t.src + into.src[16..] == t.src && t.dst + into.dst[16..] == t.dst;
  }

  /** The attributes of a protocol nest, as the build left them. */
  lemma ProtoRaws(t: Tuple)
    requires WellFormed(t) && Supported(t)
    ensures var num, v6 := Raw(CTA_PROTO_NUM, [t.proto]), if t.proto == ICMP then 0 else 3;
            Raws(ProtoAttrs(t)) ==
              if HasPorts(t.proto) then [num, Raw(CTA_PROTO_SRC_PORT, t.l4src), Raw(CTA_PROTO_DST_PORT, t.l4dst)]
              else [num, Raw(CTA_PROTO_ICMP_CODE + v6, t.l4dst[1..]), Raw(CTA_PROTO_ICMP_TYPE + v6, t.l4dst[..1]),
                    Raw(CTA_PROTO_ICMP_ID + v6, t.l4src)]
  {
    var list := ProtoAttrs(t);
    var a, b, c := list.head, list.tail.head, list.tail.tail.head;
    var d := if HasPorts(t.proto) then a else list.tail.tail.tail.head;
    RawsOf(a, b, c, d);
    hide Raws;
  }

  /** The table of a protocol nest, as the build left it. */
  lemma ProtoTable(t: Tuple, rs: seq<Raw>, kind: nat)
    requires WellFormed(t) && Supported(t) && rs == Raws(ProtoAttrs(t))
    ensures Last(rs, kind) == ProtoField(t, kind)
  {
    ProtoRaws(t);
    hide Raws;
    hide Last;
    hide HasPorts;
    LastOfTwo(rs[0], rs[1], kind);
    LastOfFour(rs[0], rs[1], rs[2], if |rs| == 4 then rs[3] else rs[0], kind);
    assert rs == if |rs| == 4 then [rs[0], rs[1], rs[2], rs[3]] else [rs[0], rs[1], rs[2]];
  }

  lemma ProtoAccepted(t: Tuple, rs: seq<Raw>)
    requires WellFormed(t) && Supported(t) && rs == Raws(ProtoAttrs(t))
    ensures Accepted(rs, CTA_PROTO_MAX, ProtoWidth)
  {
    ProtoRaws(t);
    hide Raws;
    hide HasPorts;
  }

  function ProtoField(t: Tuple, kind: nat): Option<Text>
    requires WellFormed(t)
  {
    if kind == CTA_PROTO_NUM then Some([t.proto])
    else if HasPorts(t.proto) then
      if kind == CTA_PROTO_SRC_PORT then Some(t.l4src) else if kind == CTA_PROTO_DST_PORT then Some(t.l4dst) else None
    else
      var v6 := if t.proto == ICMP then 0 else 3;
      if kind == CTA_PROTO_ICMP_ID + v6 then Some(t.l4src)
      else if kind == CTA_PROTO_ICMP_TYPE + v6 then Some(t.l4dst[..1])
      else if kind == CTA_PROTO_ICMP_CODE + v6 then Some(t.l4dst[1..])
      else None
  }

  lemma ProtoRecovered(t: Tuple, into: Tuple, dir: Dir, rs: seq<Raw>)
    requires WellFormed(t) && WellFormed(into) && Supported(t) && rs == Raws(ProtoAttrs(t))
    ensures Accepted(rs, CTA_PROTO_MAX, ProtoWidth)
    ensures ProtoOver(into, rs) == into.(proto := t.proto, l4src := t.l4src, l4dst := t.l4dst)
    ensures ProtoBits(rs, dir)
            == {AttrL4Proto(dir)}
               + if HasPorts(t.proto) then {AttrPortSrc(dir), AttrPortDst(dir)}
                 else {ATTR_ICMP_TYPE, ATTR_ICMP_CODE, ATTR_ICMP_ID}
  {
    forall kind: nat ensures Last(rs, kind) == ProtoField(t, kind) {
      ProtoTable(t, rs, kind);
    }
    ProtoAccepted(t, rs);
    ProtoBytes(t, into, rs);
    ProtoMarks(t, dir, rs);
    hide *;
  }

  lemma ProtoBytes(t: Tuple, into: Tuple, rs: seq<Raw>)
    requires WellFormed(t) && WellFormed(into) && Supported(t) && Accepted(rs, CTA_PROTO_MAX, ProtoWidth)
    requires forall kind: nat :: Last(rs, kind) == ProtoField(t, kind)
    ensures ProtoOver(into, rs) == into.(proto := t.proto, l4src := t.l4src, l4dst := t.l4dst)
  {
    hide Last;
    hide HasPorts;
    hide Accepted;
    assert t.l4dst == [t.l4dst[0], t.l4dst[1]] && t.l4src + into.l4src[2..] == t.l4src;
    assert t.l4dst + into.l4dst[2..] == t.l4dst;
  }

  lemma ProtoMarks(t: Tuple, dir: Dir, rs: seq<Raw>)
    requires WellFormed(t) && Supported(t) && Accepted(rs, CTA_PROTO_MAX, ProtoWidth)
    requires forall kind: nat :: Last(rs, kind) == ProtoField(t, kind)
    ensures ProtoBits(rs, dir)
            == {AttrL4Proto(dir)}
               + if HasPorts(t.proto) then {AttrPortSrc(dir), AttrPortDst(dir)}
                 else {ATTR_ICMP_TYPE, ATTR_ICMP_CODE, ATTR_ICMP_ID}
  {
    hide Last;
    hide HasPorts;
    hide Accepted;
  }

  /** The two nests of a built tuple, as iteration meets them. */
  lemma TupleNests(t: Tuple, kind: nat, b: Text) returns (ip: Text, proto: Text)
    requires WellFormed(t) && kind < NLA_TYPE_LIMIT && Encodes(TupleAttr(t, kind), b)
    ensures Flat(b[4..]) == [Raw(NLA_F_NESTED + CTA_TUPLE_IP, ip), Raw(NLA_F_NESTED + CTA_TUPLE_PROTO, proto)]
    ensures EncodesAll(IpAttrs(t), ip) && EncodesAll(ProtoAttrs(t), proto)
    ensures |ip| >= 4 && |proto| >= 4
  {
    var nest := b[4..];
    var list := TupleAttr(t, kind).children;
    TupleFits(t, kind);
    ListsFit(t);
    assert EncodesAll(list, nest);
    hide Encodes;
    hide EncodesAll;
    hide IpAttrs;
    hide ProtoAttrs;
    ip, proto := TwoNests(list.head, list.tail.head, nest);
    Sizes(IpAttrs(t), ip);
    Sizes(ProtoAttrs(t), proto);
    ListsNotEmpty(t);
  }

  lemma TwoNests(s: Attr, t: Attr, nest: Text) returns (first: Text, second: Text)
    requires s.Nest? && t.Nest? && Small(s) && Small(t) && EncodesAll(Cons(s, Cons(t, Nil)), nest)
    ensures Flat(nest) == [Raw(NLA_F_NESTED + s.kind, first), Raw(NLA_F_NESTED + t.kind, second)]
    ensures EncodesAll(s.children, first) && EncodesAll(t.children, second)
  {
    hide Encodes;
    hide Small;
    hide Flat;
    hide Align;
    HeadEncoded(s, Cons(t, Nil), nest);
    IterateStep(nest);
    first := First(nest).payload;
    var rest := nest[Align(ReadLe16(nest))..];
    HeadEncoded(t, Nil, rest);
    IterateStep(rest);
    second := First(rest).payload;
    var last := rest[Align(ReadLe16(rest))..];
    assert last == [];
    IterateEnd(last);
    assert Flat(rest) == [First(rest)];
    assert Flat(nest) == [First(nest)] + [First(rest)];
  }

  lemma ListsNotEmpty(t: Tuple)
    requires WellFormed(t)
    ensures SizeAll(IpAttrs(t)) >= 4 && SizeAll(ProtoAttrs(t)) >= 4
  {
    SizeAllPositive(IpAttrs(t));
    SizeAllPositive(ProtoAttrs(t));
  }

  lemma SizeAllPositive(ts: Attrs)
    requires ts.Cons?
    ensures SizeAll(ts) >= 4
  {
  }

  /** Parsing a built tuple recovers it, and sets exactly the bits of what it carries. */
  lemma TupleRoundTrip(t: Tuple, kind: nat, b: Text, into: Tuple, dir: Dir)
    requires WellFormed(t) && Supported(t) && WellFormed(into)
    requires kind < NLA_TYPE_LIMIT && Encodes(TupleAttr(t, kind), b)
    ensures var rs := Flat(b[4..]);
            && TupleAccepted(rs)
            && TupleOver(into, rs) == Recovered(t, into)
            && TupleBits(rs, dir) == RecoveredBits(t, dir)
  {
    hide Encodes;
    hide EncodesAll;
    hide Flat;
    hide HasPorts;
    hide TupleOver;
    hide TupleBits;
    hide TupleAccepted;
    var ip, proto := TupleNests(t, kind, b);
    ListsFit(t);
    LeafLists(t);
    FlatLeaves(IpAttrs(t), ip);
    FlatLeaves(ProtoAttrs(t), proto);
    EncodedSize(t, kind, b);
    TupleTable(Flat(b[4..]), ip, proto);
    NestsRecovered(t, into, dir, Flat(b[4..]), ip, proto);
  }

  lemma TupleTable(rs: seq<Raw>, ip: Text, proto: Text)
    requires rs == [Raw(NLA_F_NESTED + CTA_TUPLE_IP, ip), Raw(NLA_F_NESTED + CTA_TUPLE_PROTO, proto)]
    requires |ip| >= 4 && |proto| >= 4
    ensures Accepted(rs, CTA_TUPLE_MAX, TupleWidth)
    ensures Last(rs, CTA_TUPLE_IP) == Some(ip) && Last(rs, CTA_TUPLE_PROTO) == Some(proto)
    ensures Last(rs, CTA_TUPLE_ZONE) == None
  {
    LastOfTwo(rs[0], rs[1], CTA_TUPLE_IP);
    LastOfTwo(rs[0], rs[1], CTA_TUPLE_PROTO);
    LastOfTwo(rs[0], rs[1], CTA_TUPLE_ZONE);
  }

  lemma NestsRecovered(t: Tuple, into: Tuple, dir: Dir, rs: seq<Raw>, ip: Text, proto: Text)
    requires WellFormed(t) && Supported(t) && WellFormed(into)
    requires Accepted(rs, CTA_TUPLE_MAX, TupleWidth)
    requires Last(rs, CTA_TUPLE_IP) == Some(ip) && Last(rs, CTA_TUPLE_PROTO) == Some(proto)
    requires Last(rs, CTA_TUPLE_ZONE) == None
    requires Flat(ip) == Raws(IpAttrs(t)) && Flat(proto) == Raws(ProtoAttrs(t))
    ensures TupleAccepted(rs)
    ensures TupleOver(into, rs) == Recovered(t, into) && TupleBits(rs, dir) == RecoveredBits(t, dir)
  {
    hide Flat;
    hide Last;
    hide Raws;
    hide Accepted;
    hide HasPorts;
    hide IpAttrs;
    hide ProtoAttrs;
    hide IpOver;
    hide ProtoOver;
    hide IpBits;
    hide ProtoBits;
    IpRecovered(t, into, dir, Flat(ip));
    ProtoRecovered(t, IpOver(into, Flat(ip)), dir, Flat(proto));
  }

  lemma LeafLists(t: Tuple)
    requires WellFormed(t)
    ensures Leaves(IpAttrs(t)) && Leaves(ProtoAttrs(t))
  {
    var list := ProtoAttrs(t);
    assert Leaves(Nil) && Leaves(list.tail.tail.tail);
    assert Leaves(list.tail.tail) && Leaves(IpAttrs(t).tail);
  }

  /** Build, then read the message's new attribute back. */
  method BuildThenParse(m: NlMsg, t: Tuple, kind: nat, into: Tuple, dir: Dir, bits: set<nat>)
    returns (ok: bool, t': Tuple, bits': set<nat>)
    requires m.Valid() && WellFormed(t) && WellFormed(into)
    requires kind < NLA_TYPE_LIMIT && m.len + MAX_TUPLE <= m.buf.Length
    modifies m.buf, m`len
    ensures ok <==> t.l3 in {2, 10} && t.proto in {1, 6, 17, 33, 47, 58, 132, 136}
    ensures ok ==> t' == Recovered(t, into) && bits' == bits + RecoveredBits(t, dir)
    ensures !ok ==> m.len == old(m.len)
  {
    SupportedNumbers(t);
    hide Wire;
    hide Encodes;
    hide EncodesAll;
    hide HasPorts;
    hide Flat;
    hide TupleOver;
    hide TupleBits;
    hide TupleAccepted;
    hide Recovered;
    hide RecoveredBits;
    t', bits' := into, bits;
    var start := m.len;
    ok := BuildTuple(m, t, kind);
    if ok {
      ghost var b := m.Contents()[start..];
      TupleRoundTrip(t, kind, b, into, dir);
      EncodedSize(t, kind, b);
      Grown(m, start);
      Cut(m.buf, start, m.len, 4, m.len - start);
      ok, t', bits' := ParseTuple(m.buf[start + 4..m.len], into, dir, bits);
    }
  }

  lemma EncodedSize(t: Tuple, kind: nat, b: Text)
    requires WellFormed(t) && Encodes(TupleAttr(t, kind), b)
    ensures |b| >= 4
  {
  }
}
