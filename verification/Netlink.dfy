/**
  Netlink messages: type-length-value attributes, aligned to four bytes and
  nested, built in place at the tail of a message and read back by iteration.
  Header fields are little-endian, as on the hosts the daemon runs on.
 */
module Netlink {
  import opened Bytes

  const ATTR_HDRLEN := 4
  const NLMSG_HDRLEN := 16
  const NLA_F_NESTED := 0x8000
  const NLA_TYPE_LIMIT := 0x4000

  function Align(n: nat): (r: nat)
    ensures n <= r < n + 4 && r % 4 == 0
  {
    (n + 3) / 4 * 4
  }

  /** A conversion to uint16_t. */
  function U16(n: nat): (r: nat)
    ensures r < 65536
  {
    n % 65536
  }

  lemma AlignHeader(n: nat)
    ensures Align(ATTR_HDRLEN + n) == ATTR_HDRLEN + Align(n)
    ensures Align(U16(ATTR_HDRLEN + n)) <= ATTR_HDRLEN + Align(n)
    ensures ATTR_HDRLEN + n < 65536 ==> U16(ATTR_HDRLEN + n) == ATTR_HDRLEN + n
  {
    assert (ATTR_HDRLEN + n + 3) / 4 == 1 + (n + 3) / 4;
    AlignMonotone(U16(ATTR_HDRLEN + n), ATTR_HDRLEN + n);
  }

  lemma AlignMonotone(m: nat, n: nat)
    requires m <= n
    ensures Align(m) <= Align(n)
  {
    assert (m + 3) / 4 <= (n + 3) / 4;
  }

  function Le16(n: nat): (r: Text)
    requires n < 65536
    ensures |r| == 2 && ReadLe16(r) == n
  {
    [n % 256, n / 256]
  }

  function ReadLe16(b: Text): (n: nat)
    requires |b| >= 2
    ensures n < 65536
  {
    b[0] as int + 256 * (b[1] as int)
  }

  // ---------- Attribute trees and what encodes them ----------

  datatype Attr = Leaf(kind: nat, payload: Text) | Nest(kind: nat, children: Attrs)

  datatype Attrs = Nil | Cons(head: Attr, tail: Attrs)

  function Size(t: Attr): nat {
    match t
    case Leaf(_, payload) => ATTR_HDRLEN + Align(|payload|)
    case Nest(_, children) => ATTR_HDRLEN + SizeAll(children)
  }

  function SizeAll(ts: Attrs): nat {
    match ts
    case Nil => 0
    case Cons(t, rest) => Size(t) + SizeAll(rest)
  }

  /** What the sixteen bits of a length and the fourteen of a type can express. */
  predicate Small(t: Attr) {
    && t.kind < NLA_TYPE_LIMIT
    && match t
       case Leaf(_, payload) => ATTR_HDRLEN + |payload| < 65536
       case Nest(_, children) => ATTR_HDRLEN + SizeAll(children) < 65536 && AllSmall(children)
  }

  predicate AllSmall(ts: Attrs) {
    match ts
    case Nil => true
    case Cons(t, rest) => Small(t) && AllSmall(rest)
  }

  /** The bytes of an attribute; those that only pad a payload may be anything. */
  ghost predicate Encodes(t: Attr, b: Text) {
    match t
    case Leaf(kind, payload) =>
      var n := ATTR_HDRLEN + |payload|;
      && |b| == Size(t)
      && ReadLe16(b) == n
      && ReadLe16(b[2..]) == kind
      && b[4..n] == payload
    case Nest(kind, children) =>
      && |b| == Size(t)
      && ReadLe16(b) == |b|
      && ReadLe16(b[2..]) == NLA_F_NESTED + kind
      && EncodesAll(children, b[4..])
  }

  ghost predicate EncodesAll(ts: Attrs, b: Text) {
    match ts
    case Nil => b == []
    case Cons(t, rest) =>
      && Size(t) <= |b|
      && Encodes(t, b[..Size(t)])
      && EncodesAll(rest, b[Size(t)..])
  }

  lemma {:induction false} Sizes(ts: Attrs, b: Text)
    requires EncodesAll(ts, b)
    ensures |b| == SizeAll(ts)
  {
    if ts.Cons? {
      Sizes(ts.tail, b[Size(ts.head)..]);
    }
  }

  lemma {:induction false} SizeAligned(t: Attr)
    ensures Size(t) % 4 == 0 && Size(t) >= 4
  {
    hide Align;
    match t
    case Leaf(_, payload) => SumAligned(ATTR_HDRLEN, Align(|payload|));
    case Nest(_, children) =>
      SizeAllAligned(children);
      SumAligned(ATTR_HDRLEN, SizeAll(children));
  }

  lemma SumAligned(m: nat, n: nat)
    requires m % 4 == 0 && n % 4 == 0
    ensures (m + n) % 4 == 0
  {
  }

  lemma {:induction false} SizeAllAligned(ts: Attrs)
    ensures SizeAll(ts) % 4 == 0
  {
    hide Size;
    if ts.Cons? {
      SizeAligned(ts.head);
      SizeAllAligned(ts.tail);
      SumAligned(Size(ts.head), SizeAll(ts.tail));
    }
  }

  // ---------- Iteration ----------

  /** One attribute as the iteration meets it: its type field and its payload. */
  datatype Raw = Raw(field: nat, payload: Text)

  /** mnl_attr_get_type */
  function TypeOf(r: Raw): nat {
    r.field % NLA_TYPE_LIMIT
  }

  predicate IsNest(r: Raw) {
    r.field / NLA_F_NESTED % 2 == 1
  }

  /** mnl_attr_ok on the attribute at the front of the remaining bytes. */
  predicate AttrOk(b: Text) {
    |b| >= ATTR_HDRLEN && ATTR_HDRLEN <= ReadLe16(b) <= |b|
  }

  function First(b: Text): Raw
    requires AttrOk(b)
  {
    Raw(ReadLe16(b[2..]), b[ATTR_HDRLEN..ReadLe16(b)])
  }

  /** What iterating over a region yields. */
  function Flat(b: Text): seq<Raw>
    decreases |b|
  {
    if !AttrOk(b) then []
    else
      var next := Align(ReadLe16(b));
      [First(b)] + if next <= |b| then Flat(b[next..]) else []
  }

  /** Where the iteration stops. */
  function Stop(b: Text): nat
    decreases |b|
  {
    if !AttrOk(b) then 0
    else
      var next := Align(ReadLe16(b));
      next + if next <= |b| then Stop(b[next..]) else 0
  }

  /** Iterating into every nest. */
  function Tree(b: Text): Attrs
    decreases |b|
  {
    if !AttrOk(b) then Nil
    else
      var r, next := First(b), Align(ReadLe16(b));
      Cons(if IsNest(r) then Nest(TypeOf(r), Tree(r.payload)) else Leaf(TypeOf(r), r.payload),
           if next <= |b| then Tree(b[next..]) else Nil)
  }

  /** One attribute with all that is inside it. */
  function Branch(r: Raw): Attr {
    if IsNest(r) then Nest(TypeOf(r), Tree(r.payload)) else Leaf(TypeOf(r), r.payload)
  }

  function Branches(rs: seq<Raw>): Attrs {
    if rs == [] then Nil else Cons(Branch(rs[0]), Branches(rs[1..]))
  }

  /** The plain iteration yields the top level of what iterating into every nest yields. */
  lemma {:induction false} FlatIsTop(b: Text)
    ensures Branches(Flat(b)) == Tree(b)
    decreases |b|
  {
    if AttrOk(b) {
      var next := Align(ReadLe16(b));
      var rest := if next <= |b| then Flat(b[next..]) else [];
      if next <= |b| {
        FlatIsTop(b[next..]);
      }
      assert ([First(b)] + rest)[1..] == rest;
    }
  }

  lemma NestedField(r: Raw, kind: nat)
    requires kind < NLA_TYPE_LIMIT
    ensures r.field == NLA_F_NESTED + kind ==> IsNest(r) && TypeOf(r) == kind
    ensures r.field == kind ==> !IsNest(r) && TypeOf(r) == kind
  {
  }

  /** The head of an encoded list, as the iteration sees it. */
  lemma HeadEncoded(t: Attr, rest: Attrs, b: Text)
    requires EncodesAll(Cons(t, rest), b) && Small(t)
    ensures AttrOk(b) && Align(ReadLe16(b)) == Size(t) <= |b|
    ensures First(b).field == (if t.Nest? then NLA_F_NESTED + t.kind else t.kind)
    ensures t.Leaf? ==> First(b).payload == t.payload
    ensures t.Nest? ==> First(b).payload == b[4..Size(t)] && EncodesAll(t.children, First(b).payload)
    ensures EncodesAll(rest, b[Align(ReadLe16(b))..])
  {
    SizeAligned(t);
    var front, n := b[..Size(t)], ReadLe16(b);
    assert Encodes(t, front);
    FrontFields(b, Size(t));
    AlignExact(Size(t));
    if t.Leaf? {
      AlignHeader(|t.payload|);
    }
    hide Align;
    hide EncodesAll;
    if t.Leaf? {
      assert b[4..n] == front[4..n];
    } else {
      assert b[4..n] == front[4..];
    }
    assert AttrOk(b) && Align(n) == Size(t);
  }

  lemma AlignExact(n: nat)
    requires n % 4 == 0
    ensures Align(n) == n
  {
  }

  lemma FrontFields(b: Text, k: nat)
    requires 4 <= k <= |b|
    ensures ReadLe16(b) == ReadLe16(b[..k]) && ReadLe16(b[2..]) == ReadLe16(b[..k][2..])
  {
  }

  /** Reading a built tree back returns the tree, and stops exactly at its end. */
  lemma {:induction false} ReadBack(ts: Attrs, b: Text)
    requires EncodesAll(ts, b) && AllSmall(ts)
    ensures Tree(b) == ts && Stop(b) == |b|
    decreases ts
  {
    hide Encodes;
    hide Tree;
    hide Stop;
    hide First;
    hide Align;
    match ts
    case Nil =>
      NothingToRead(b);
    case Cons(t, rest) =>
      HeadEncoded(t, rest, b);
      ReadStep(b);
      NestedField(First(b), t.kind);
      ReadBack(rest, b[Size(t)..]);
      if t.Nest? {
        ReadBack(t.children, First(b).payload);
      }
  }

  lemma NothingToRead(b: Text)
    requires b == []
    ensures Tree(b) == Nil && Stop(b) == 0
  {
  }

  /** One turn of the iteration. */
  lemma ReadStep(b: Text)
    requires AttrOk(b) && Align(ReadLe16(b)) <= |b|
    ensures var r, n := First(b), Align(ReadLe16(b));
            && Tree(b) == Cons(Branch(r), Tree(b[n..]))
            && Stop(b) == n + Stop(b[n..])
  {
  }

  // ---------- Building ----------

  class NlMsg {
    /** The buffer and nlmsg_len; the tail of the message is at `len`, which is kept aligned. */
    const buf: array<byte>
    var len: nat

    ghost predicate Valid()
      reads this
    {
      len % 4 == 0 && NLMSG_HDRLEN <= len <= buf.Length
    }

    /** The message as it stands. */
    ghost function Contents(): Text
      reads this, buf
      requires Valid()
    {
      buf[..len]
    }

    /** mnl_nlmsg_put_header */
    constructor (buf: array<byte>)
      requires NLMSG_HDRLEN <= buf.Length
      modifies buf
      ensures Valid() && this.buf == buf && len == NLMSG_HDRLEN
      ensures forall i :: 0 <= i < NLMSG_HDRLEN ==> buf[i] == 0
    {
      this.buf, len := buf, NLMSG_HDRLEN;
      new;
      for i := 0 to NLMSG_HDRLEN
        invariant forall j :: 0 <= j < i ==> buf[j] == 0
        modifies buf
      {
        buf[i] := 0;
      }
    }

    /** Bytes stored somewhere in the buffer; nothing else changes. */
    method Store(at: nat, bytes: Text)
      requires at + |bytes| <= buf.Length
      modifies buf
      ensures buf[..at] == old(buf[..at]) && buf[at..at + |bytes|] == bytes
      ensures buf[at + |bytes|..] == old(buf[at + |bytes|..])
    {
      for i := 0 to |bytes|
        invariant buf[..at] == old(buf[..at]) && buf[at..at + i] == bytes[..i]
        invariant buf[at + |bytes|..] == old(buf[at + |bytes|..])
      {
        buf[at + i] := bytes[i];
        assert buf[at..at + i + 1] == buf[at..at + i] + [bytes[i]];
      }
    }

    /** Bytes stored at the tail, which then moves by a multiple of four. */
    method StoreAtTail(bytes: Text, grow: nat)
      requires Valid() && len + |bytes| <= buf.Length && len + grow <= buf.Length && grow % 4 == 0
      modifies buf, `len
      ensures Valid() && len == old(len) + grow
      ensures buf[..old(len)] == old(Contents()) && buf[old(len)..old(len) + |bytes|] == bytes
    {
      Store(len, bytes);
      SumAligned(len, grow);
      len := len + grow;
    }

    /**
      mnl_attr_put. The attribute's length is kept in sixteen bits, and the message
      grows by what those bits say; the caller must have made room.
     */
    method Put(kind: nat, payload: Text)
      requires Valid() && kind < 65536 && len + ATTR_HDRLEN + Align(|payload|) <= buf.Length
      modifies buf, `len
      ensures Valid() && len == old(len) + Align((4 + |payload|) % 65536)
      ensures buf[..old(len)] == old(Contents())
      ensures ATTR_HDRLEN + |payload| < 65536 ==> Encodes(Leaf(kind, payload), buf[old(len)..len])
      ensures var n := (4 + |payload|) % 65536;
              buf[old(len)..old(len) + 4 + |payload|] == [n % 256, n / 256, kind % 256, kind / 256] + payload
    {
      var n := U16(ATTR_HDRLEN + |payload|);
      var at := len;
      AlignHeader(|payload|);
      hide Align;
      hide U16;
      hide Encodes;
      hide Le16;
      var bytes := Le16(n) + Le16(kind) + payload;
      assert |bytes| == ATTR_HDRLEN + |payload| <= ATTR_HDRLEN + Align(|payload|);
      StoreAtTail(bytes, Align(n));
      HeaderBytes(n, kind, payload, bytes);
      if ATTR_HDRLEN + |payload| < 65536 {
        Cut(buf, at, len, 0, |bytes|);
        LeafStored(kind, payload, bytes, buf[at..len]);
      }
    }

    /** mnl_attr_put_check */
    method PutCheck(buflen: nat, kind: nat, payload: Text) returns (ok: bool)
      requires Valid() && kind < 65536 && buflen <= buf.Length
      modifies buf, `len
      ensures ok <==> old(len) + ATTR_HDRLEN + Align(|payload|) <= buflen
      ensures Valid() && old(len) <= len && buf[..old(len)] == old(Contents())
      ensures !ok ==> len == old(len) && buf[..] == old(buf[..])
      ensures ok && ATTR_HDRLEN + |payload| < 65536 ==>
                len <= buflen && Encodes(Leaf(kind, payload), buf[old(len)..len])
    {
      if len + ATTR_HDRLEN + Align(|payload|) > buflen {
        return false;
      }
      Put(kind, payload);
      return true;
    }

    /** mnl_attr_nest_start: only the type is written; the length waits for NestEnd. */
    method NestStart(kind: nat) returns (start: nat)
      requires Valid() && kind < 65536 && len + ATTR_HDRLEN <= buf.Length
      modifies buf, `len
      ensures Valid() && start == old(len) && len == start + ATTR_HDRLEN
      ensures buf[..start] == old(Contents())
      ensures ReadLe16(buf[start + 2..len]) == if kind < NLA_F_NESTED then NLA_F_NESTED + kind else kind
    {
      start := len;
      var field := if kind < NLA_F_NESTED then NLA_F_NESTED + kind else kind;
      Store(start + 2, Le16(field));
      assert buf[..start] == buf[..start + 2][..start];
      len := start + ATTR_HDRLEN;
    }

    /** mnl_attr_nest_start_check */
    method NestStartCheck(buflen: nat, kind: nat) returns (start: Option<nat>)
      requires Valid() && kind < 65536 && buflen <= buf.Length
      modifies buf, `len
      ensures start.Some? <==> old(len) + ATTR_HDRLEN <= buflen
      ensures Valid() && buf[..old(len)] == old(Contents())
      ensures start.None? ==> len == old(len)
      ensures start.Some? ==> start.value == old(len) && len == start.value + ATTR_HDRLEN
    {
      if len + ATTR_HDRLEN > buflen {
        return None;
      }
      var at := NestStart(kind);
      return Some(at);
    }

    /** mnl_attr_nest_end: what was put since NestStart becomes the payload of the nest. */
    method NestEnd(start: nat)
      requires Valid() && start + ATTR_HDRLEN <= len
      modifies buf
      ensures buf[..start] == old(buf[..start]) && buf[start + 2..len] == old(buf[start + 2..len])
      ensures buf[start..start + 2] == Le16(U16(len - start))
    {
      Store(start, Le16(U16(len - start)));
      assert buf[start + 2..len] == buf[start + 2..][..len - start - 2];
    }

    /** mnl_attr_nest_cancel: the message is again what it was at NestStart. */
    method NestCancel(start: nat)
      requires Valid() && start <= len && start % 4 == 0 && NLMSG_HDRLEN <= start
      modifies `len
      ensures Valid() && len == start && Contents() == old(Contents())[..start]
    {
      len := len - (len - start);
    }

    // ---------- Building whole trees ----------

    method PutLeaf(kind: nat, payload: Text)
      requires Valid() && Small(Leaf(kind, payload)) && len + Size(Leaf(kind, payload)) <= buf.Length
      modifies buf, `len
      ensures Valid() && len == old(len) + Size(Leaf(kind, payload))
      ensures buf[..old(len)] == old(Contents()) && Encodes(Leaf(kind, payload), buf[old(len)..len])
    {
      hide Encodes;
      AlignHeader(|payload|);
      hide Align;
      Put(kind, payload);
    }

    method PutAttr(t: Attr)
      requires Valid() && Small(t) && len + Size(t) <= buf.Length
      modifies buf, `len
      ensures Valid() && len == old(len) + Size(t)
      ensures buf[..old(len)] == old(Contents()) && Encodes(t, buf[old(len)..len])
      decreases t
    {
      match t
      case Leaf(kind, payload) =>
        PutLeaf(kind, payload);
      case Nest(kind, children) =>
        ghost var before := Contents();
        SizeAllAligned(children);
        var start := NestStart(kind);
        ghost var middle := len;
        Cut(buf, 0, middle, start + 2, middle);
        Cut(buf, 0, middle, 0, start);
        PutAttrs(children);
        Cut(buf, 0, middle, start + 2, middle);
        Cut(buf, 0, middle, 0, start);
        assert buf[..start] == before;
        EndNest(t, start);
    }

    method EndNest(ghost t: Attr, start: nat)
      requires t.Nest? && Small(t) && Valid() && len == start + Size(t)
      requires ReadLe16(buf[start + 2..start + 4]) == NLA_F_NESTED + t.kind
      requires EncodesAll(t.children, buf[start + 4..len])
      modifies buf
      ensures buf[..start] == old(buf[..start]) && Encodes(t, buf[start..len])
    {
      assert 4 <= Size(t) < 65536;
      hide Encodes;
      hide EncodesAll;
      hide Small;
      hide Size;
      ghost var inside := buf[start + 2..len];
      Cut(buf, start + 2, len, 0, 2);
      Cut(buf, start + 2, len, 2, len - start - 2);
      assert U16(len - start) == Size(t);
      NestEnd(start);
      Joined(buf, start, start + 2, len);
      NestStored(t, inside, buf[start..len]);
    }

    method PutAttrs(ts: Attrs)
      requires Valid() && AllSmall(ts) && len + SizeAll(ts) <= buf.Length
      modifies buf, `len
      ensures Valid() && len == old(len) + SizeAll(ts)
      ensures buf[..old(len)] == old(Contents()) && EncodesAll(ts, buf[old(len)..len])
      decreases ts
    {
      StoredOf(ts);
      hide Encodes;
      hide EncodesAll;
      match ts
      case Nil =>
        assert buf[len..len] == [];
      case Cons(t, rest) =>
        ghost var start := len;
        ghost var before := Contents();
        PutAttr(t);
        ghost var middle := len;
        ghost var first := buf[start..middle];
        assert buf[..middle] == before + first;
        PutAttrs(rest);
        ConsStored(t, rest, first, buf[middle..len], buf[start..len]);
    }

    /** The round trip: what was built is what iteration returns, up to exactly the tail. */
    method BuildAndRead(ts: Attrs) returns (from: nat, rs: seq<Raw>, stop: nat)
      requires Valid() && AllSmall(ts) && len + SizeAll(ts) <= buf.Length
      modifies buf, `len
      ensures Valid() && from == old(len) <= len && buf[..from] == old(Contents())
      ensures Tree(buf[from..len]) == ts && rs == Flat(buf[from..len]) && from + stop == len
    {
      from := len;
      PutAttrs(ts);
      ReadBack(ts, buf[from..len]);
      rs, stop := ForEach(buf[from..len]);
    }
  }

  lemma Cut(a: array<byte>, x: nat, y: nat, i: nat, j: nat)
    requires x <= y <= a.Length && i <= j <= y - x
    ensures a[x..y][i..j] == a[x + i..x + j]
  {
    assert forall k :: 0 <= k < j - i ==> a[x..y][i..j][k] == a[x + i..x + j][k];
  }

  lemma Joined(a: array<byte>, x: nat, y: nat, z: nat)
    requires x <= y <= z <= a.Length
    ensures a[x..z] == a[x..y] + a[y..z]
  {
  }

  lemma HeaderBytes(n: nat, kind: nat, payload: Text, bytes: Text)
    requires n < 65536 && kind < 65536 && bytes == Le16(n) + Le16(kind) + payload
    ensures bytes == [n % 256, n / 256, kind % 256, kind / 256] + payload
  {
  }

  /** The two flags of a type field, and the type. */
  lemma FieldBits(r: Raw, nested: nat, order: nat, kind: nat)
    requires r.field == 0x8000 * nested + 0x4000 * order + kind && nested <= 1 && order <= 1 && kind < 0x4000
    ensures TypeOf(r) == kind && (IsNest(r) <==> nested == 1)
  {
  }

  lemma LeafStored(kind: nat, payload: Text, bytes: Text, b: Text)
    requires kind < 65536 && ATTR_HDRLEN + |payload| < 65536 && |b| == Align(ATTR_HDRLEN + |payload|)
    requires bytes == Le16(ATTR_HDRLEN + |payload|) + Le16(kind) + payload
    requires |bytes| <= |b| && b[0..|bytes|] == bytes
    ensures Encodes(Leaf(kind, payload), b)
  {
    AlignHeader(|payload|);
    assert ReadLe16(b) == ReadLe16(bytes) && ReadLe16(b[2..]) == ReadLe16(bytes[2..]);
  }

  lemma NestStored(t: Attr, inside: Text, b: Text)
    requires t.Nest? && Small(t) && |inside| >= 2 && |b| == Size(t) && b == Le16(Size(t)) + inside
    requires ReadLe16(inside[0..2]) == NLA_F_NESTED + t.kind && EncodesAll(t.children, inside[2..])
    ensures Encodes(t, b)
  {
    assert b[2..] == inside && b[4..] == inside[2..];
  }

  /** What there is to store of a list. */
  lemma StoredOf(ts: Attrs)
    ensures ts.Nil? ==> SizeAll(ts) == 0 && EncodesAll(ts, [])
    ensures ts.Cons? ==> SizeAll(ts) == Size(ts.head) + SizeAll(ts.tail)
    ensures ts.Cons? && AllSmall(ts) ==> Small(ts.head) && AllSmall(ts.tail)
  {
  }

  lemma ConsStored(t: Attr, rest: Attrs, first: Text, others: Text, b: Text)
    requires Encodes(t, first) && EncodesAll(rest, others) && b == first + others
    ensures EncodesAll(Cons(t, rest), b)
  {
    assert |first| == Size(t);
    assert b[..Size(t)] == first && b[Size(t)..] == others;
  }

  /** mnl_attr_for_each: the cursor may pass the end when the last attribute is not padded. */
  method ForEach(region: Text) returns (rs: seq<Raw>, stop: nat)
    ensures rs == Flat(region) && stop == Stop(region)
  {
    hide Flat;
    hide Stop;
    hide First;
    rs, stop := [], 0;
    while stop <= |region| && AttrOk(region[stop..])
      invariant stop <= |region| ==> Flat(region) == rs + Flat(region[stop..])
                                     && Stop(region) == stop + Stop(region[stop..])
      invariant stop > |region| ==> Flat(region) == rs && Stop(region) == stop
      decreases if stop <= |region| then |region| - stop + 1 else 0
    {
      var left := region[stop..];
      IterateStep(left);
      var n := ReadLe16(left);
      ghost var behind := if Align(n) <= |left| then Flat(left[Align(n)..]) else [];
      assert rs + ([First(left)] + behind) == rs + [First(left)] + behind;
      rs := rs + [First(left)];
      stop := stop + Align(n);
      assert stop <= |region| ==> left[Align(n)..] == region[stop..];
    }
    if stop <= |region| {
      IterateEnd(region[stop..]);
    }
  }

  lemma IterateStep(b: Text)
    requires AttrOk(b)
    ensures var n := Align(ReadLe16(b));
            && Flat(b) == [First(b)] + (if n <= |b| then Flat(b[n..]) else [])
            && Stop(b) == n + (if n <= |b| then Stop(b[n..]) else 0)
  {
  }

  lemma IterateEnd(b: Text)
    requires !AttrOk(b)
    ensures Flat(b) == [] && Stop(b) == 0
  {
  }
}
