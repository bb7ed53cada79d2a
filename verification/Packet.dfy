/**
  The zero-copy packet: a list of fragments, the first of which may lie in a
  small buffer inside the packet with room for headers in front of it.
 */
module Packets {
  import opened Bytes

  const INTERNAL_DATA_SIZE := 112
  const DEFAULT_NR_FRAGS := 4

  /** `size` bytes at `off` in some buffer. */
  datatype Fragment = Fragment(base: array<byte>, off: nat, size: nat)

  ghost predicate InBounds(f: Fragment) {
    f.off + f.size <= f.base.Length
  }

  ghost function View(f: Fragment): (v: Text)
    requires InBounds(f)
    reads f.base
    ensures |v| == f.size
  {
    f.base[f.off..f.off + f.size]
  }

  lemma ViewOf(buf: array<byte>)
    ensures InBounds(Fragment(buf, 0, buf.Length)) && View(Fragment(buf, 0, buf.Length)) == buf[..]
  {
  }

  lemma PartOfView(f: Fragment, from: nat, to: nat)
    requires InBounds(f) && from <= to <= f.size
    ensures View(f)[from..to] == f.base[f.off + from..f.off + to]
  {
    assert forall k :: 0 <= k < to - from ==> View(f)[from..to][k] == f.base[f.off + from..f.off + to][k];
  }

  /** A stretch of bytes of which the first `n` have been replaced. */
  lemma Spliced(whole: Text, after: Text, off: nat, n: nat, size: nat)
    requires |whole| == |after| && n <= size && off + size <= |whole| && after[off + n..] == whole[off + n..]
    ensures after[off..off + size] == after[off..off + n] + whole[off..off + size][n..]
  {
    assert after[off + n..off + size] == after[off + n..][..size - n];
    assert whole[off..off + size][n..] == whole[off + n..][..size - n];
  }

  ghost function ViewsOf(frags: seq<Fragment>): (v: seq<Text>)
    requires forall i :: 0 <= i < |frags| ==> InBounds(frags[i])
    reads set f | f in frags :: f.base
    ensures |v| == |frags| && forall i :: 0 <= i < |frags| ==> v[i] == View(frags[i])
  {
    seq(|frags|, i requires 0 <= i < |frags| && InBounds(frags[i]) reads set f | f in frags :: f.base => View(frags[i]))
  }

  lemma Adjoin<T>(c: seq<T>, from: nat, at: nat, to: nat)
    requires from <= at <= to <= |c|
    ensures c[from..to] == c[from..at] + c[at..to]
  {
  }

  lemma HoldsUpdate(frags: seq<Fragment>, i: nat, f: Fragment)
    requires i < |frags|
    ensures HoldsOf(frags[i := f]) <= HoldsOf(frags) + {f.base}
  {
  }

  lemma HoldsConcat(a: seq<Fragment>, b: seq<Fragment>)
    ensures HoldsOf(a + b) == HoldsOf(a) + HoldsOf(b)
  {
  }

  lemma HoldsFront(frags: seq<Fragment>, f: Fragment)
    requires f.off == f.base.Length
    ensures HoldsOf([f] + frags) == HoldsOf(frags)
  {
  }

  ghost function HoldsOf(frags: seq<Fragment>): set<array<byte>> {
    set f | f in frags && f.off < f.base.Length :: f.base
  }

  function Total(frags: seq<Fragment>): nat {
    if frags == [] then 0 else frags[0].size + Total(frags[1..])
  }

  ghost function Join(views: seq<Text>): Text {
    if views == [] then [] else views[0] + Join(views[1..])
  }

  lemma {:induction false} JoinConcat(a: seq<Text>, b: seq<Text>)
    ensures Join(a + b) == Join(a) + Join(b)
  {
    if a == [] {
      assert a + b == b;
    } else {
      assert (a + b)[1..] == a[1..] + b;
      JoinConcat(a[1..], b);
      Assoc(a[0], Join(a[1..]), Join(b));
    }
  }

  lemma JoinHead(views: seq<Text>)
    requires views != []
    ensures Join(views) == views[0] + Join(views[1..])
  {
  }

  lemma JoinTrim(a: seq<Text>, b: seq<Text>, n: nat)
    requires |a| == |b| > 0 && n <= |a[0]| && b[0] == a[0][n..]
    requires forall i :: 1 <= i < |a| ==> a[i] == b[i]
    ensures n <= |Join(a)| && Join(b) == Join(a)[n..]
  {
    assert a[1..] == b[1..];
  }

  lemma GrowFirst(a: seq<Fragment>, b: seq<Fragment>, size: int)
    requires a != [] && b != [] && a[1..] == b[1..] && b[0].size == a[0].size + size
    ensures Total(b) == Total(a) + size
  {
  }

  lemma JoinOne(views: seq<Text>, v: Text)
    requires |views| == 1 && views[0] == v
    ensures Join(views) == v
  {
    assert Join(views[1..]) == [];
  }

  lemma {:induction false} JoinEmpty(frags: seq<Fragment>, views: seq<Text>)
    requires |frags| == |views| && forall i :: 0 <= i < |frags| ==> frags[i].size == 0 && views[i] == []
    ensures Join(views) == []
  {
    if frags != [] {
      JoinEmpty(frags[1..], views[1..]);
    }
  }

  lemma JoinSplit(views: seq<Text>, i: nat)
    requires i <= |views|
    ensures Join(views) == Join(views[..i]) + Join(views[i..])
  {
    hide Join;
    JoinConcat(views[..i], views[i..]);
    assert views[..i] + views[i..] == views;
  }

  /** Part of one fragment, found in the whole. */
  lemma JoinSlice(views: seq<Text>, i: nat, from: nat, to: nat)
    requires i < |views| && from <= to <= |views[i]|
    ensures var p := |Join(views[..i])|;
            p + to <= |Join(views)| && Join(views)[p + from..p + to] == views[i][from..to]
  {
    hide Join;
    JoinSplit(views, i);
    JoinHead(views[i..]);
    Middle(Join(views[..i]), views[i], Join(views[i..][1..]), from, to);
  }

  lemma Middle(a: Text, b: Text, c: Text, from: nat, to: nat)
    requires from <= to <= |b|
    ensures (a + (b + c))[|a| + from..|a| + to] == b[from..to]
  {
  }

  lemma {:induction false} TotalConcat(a: seq<Fragment>, b: seq<Fragment>)
    ensures Total(a + b) == Total(a) + Total(b)
  {
    if a == [] {
      assert a + b == b;
    } else {
      assert (a + b)[1..] == a[1..] + b;
      TotalConcat(a[1..], b);
    }
  }

  lemma FirstOf(frags: seq<Fragment>)
    ensures frags == [] ==> Total(frags) == 0
    ensures frags != [] ==> frags[0].size <= Total(frags)
  {
  }

  lemma TotalOne(f: Fragment)
    ensures Total([f]) == f.size
  {
    assert Total([f][1..]) == 0;
  }

  lemma TotalNext(frags: seq<Fragment>, i: nat)
    requires i < |frags|
    ensures Total(frags[..i + 1]) == Total(frags[..i]) + frags[i].size
    ensures Total(frags[i..]) == frags[i].size + Total(frags[i + 1..])
  {
    assert frags[..i + 1] == frags[..i] + [frags[i]];
    TotalConcat(frags[..i], [frags[i]]);
    TotalOne(frags[i]);
    assert frags[i..][1..] == frags[i + 1..];
  }

  lemma TotalSplit(frags: seq<Fragment>, i: nat)
    requires i <= |frags|
    ensures Total(frags) == Total(frags[..i]) + Total(frags[i..])
  {
    hide Total;
    TotalConcat(frags[..i], frags[i..]);
    assert frags[..i] + frags[i..] == frags;
  }

  lemma {:induction false} AllEmpty(frags: seq<Fragment>)
    requires Total(frags) == 0
    ensures forall i :: 0 <= i < |frags| ==> frags[i].size == 0
  {
    if frags != [] {
      AllEmpty(frags[1..]);
      assert forall i :: 1 <= i < |frags| ==> frags[i] == frags[1..][i - 1];
    }
  }

  lemma {:induction false} SameSizes(a: seq<Fragment>, b: seq<Fragment>)
    requires |a| == |b| && forall i :: 0 <= i < |a| ==> a[i].size == b[i].size
    ensures Total(a) == Total(b)
  {
    if a != [] {
      SameSizes(a[1..], b[1..]);
    }
  }

  lemma {:induction false} JoinLength(frags: seq<Fragment>, views: seq<Text>)
    requires |frags| == |views| && forall i :: 0 <= i < |frags| ==> |views[i]| == frags[i].size
    ensures |Join(views)| == Total(frags)
  {
    if frags != [] {
      JoinLength(frags[1..], views[1..]);
    }
  }

  // ---------- Where the bytes lie ----------

  /** One byte in some buffer. */
  datatype Place = Place(base: array<byte>, at: nat)

  /** `size` places in a row. */
  function Stretch(base: array<byte>, off: nat, size: nat): (r: seq<Place>)
    ensures |r| == size && forall k :: 0 <= k < size ==> r[k] == Place(base, off + k)
  {
    seq(size, k requires 0 <= k => Place(base, off + k))
  }

  function PlacesOf(frags: seq<Fragment>): seq<Place> {
    if frags == [] then []
    else Stretch(frags[0].base, frags[0].off, frags[0].size) + PlacesOf(frags[1..])
  }

  lemma {:induction false} PlacesConcat(a: seq<Fragment>, b: seq<Fragment>)
    ensures PlacesOf(a + b) == PlacesOf(a) + PlacesOf(b)
  {
    if a == [] {
      assert a + b == b;
    } else {
      assert (a + b)[1..] == a[1..] + b;
      PlacesConcat(a[1..], b);
    }
  }

  lemma {:induction false} PlacesLength(frags: seq<Fragment>)
    ensures |PlacesOf(frags)| == Total(frags)
  {
    if frags != [] {
      PlacesLength(frags[1..]);
    }
  }

  lemma PlacesOne(f: Fragment)
    ensures PlacesOf([f]) == Stretch(f.base, f.off, f.size)
  {
    assert PlacesOf([f][1..]) == [];
  }

  lemma PlacesSnoc(frags: seq<Fragment>, f: Fragment)
    ensures PlacesOf(frags + [f]) == PlacesOf(frags) + Stretch(f.base, f.off, f.size)
  {
    hide PlacesOf;
    PlacesConcat(frags, [f]);
    PlacesOne(f);
  }

  /** Part of fragment `i`, found among all places. */
  lemma PlacesWithin(frags: seq<Fragment>, i: nat, rest: nat, size: nat)
    requires i < |frags| && rest + size <= frags[i].size
    ensures var p := Total(frags[..i]) + rest;
            && p + size <= |PlacesOf(frags)|
            && PlacesOf(frags)[p..p + size] == Stretch(frags[i].base, frags[i].off + rest, size)
  {
    hide PlacesOf;
    var before, f, after := frags[..i], frags[i], frags[i + 1..];
    PlacesConcat(before, [f] + after);
    PlacesConcat([f], after);
    PlacesOne(f);
    PlacesLength(before);
    assert frags == before + ([f] + after);
    var a, b, c := PlacesOf(before), Stretch(f.base, f.off, f.size), PlacesOf(after);
    assert (a + (b + c))[|a| + rest..|a| + rest + size] == b[rest..rest + size];
    assert b[rest..rest + size] == Stretch(f.base, f.off + rest, size);
  }

  /** The bytes of some fragments are what their places hold. */
  lemma {:induction false} PlacesHold(frags: seq<Fragment>, views: seq<Text>)
    requires |views| == |frags| && forall i :: 0 <= i < |frags| ==> InBounds(frags[i]) && views[i] == View(frags[i])
    ensures |Join(views)| == |PlacesOf(frags)|
    ensures forall k :: 0 <= k < |PlacesOf(frags)| ==> HoldsAt(PlacesOf(frags)[k], Join(views)[k])
  {
    if frags != [] {
      PlacesHold(frags[1..], views[1..]);
      var f, v := frags[0], views[0];
      var s := Stretch(f.base, f.off, f.size);
      assert forall k :: 0 <= k < f.size ==> HoldsAt(s[k], v[k]);
      Both(s, PlacesOf(frags[1..]), v, Join(views[1..]));
    }
  }

  ghost predicate HoldsAt(l: Place, x: byte)
    reads l.base
  {
    l.at < l.base.Length && l.base[l.at] == x
  }

  lemma Both(ls: seq<Place>, ms: seq<Place>, xs: Text, ys: Text)
    requires |ls| == |xs| && |ms| == |ys|
    requires forall k :: 0 <= k < |ls| ==> HoldsAt(ls[k], xs[k])
    requires forall k :: 0 <= k < |ms| ==> HoldsAt(ms[k], ys[k])
    ensures forall k :: 0 <= k < |ls + ms| ==> HoldsAt((ls + ms)[k], (xs + ys)[k])
  {
  }

  /** Fragments over the same places have the same bytes. */
  lemma SamePlaces(frags: seq<Fragment>, fs: seq<Fragment>, from: nat, to: nat)
    requires forall i :: 0 <= i < |frags| ==> InBounds(frags[i])
    requires forall i :: 0 <= i < |fs| ==> InBounds(fs[i])
    requires from <= to <= |PlacesOf(frags)| && PlacesOf(fs) == PlacesOf(frags)[from..to]
    ensures to <= |Join(ViewsOf(frags))| && Join(ViewsOf(fs)) == Join(ViewsOf(frags))[from..to]
  {
    hide ViewsOf;
    hide Join;
    hide PlacesOf;
    PlacesHold(frags, ViewsOf(frags));
    PlacesHold(fs, ViewsOf(fs));
    var c, d := Join(ViewsOf(frags)), Join(ViewsOf(fs));
    forall k | 0 <= k < to - from ensures d[k] == c[from..to][k] {
      assert PlacesOf(fs)[k] == PlacesOf(frags)[from + k];
      assert HoldsAt(PlacesOf(fs)[k], d[k]) && HoldsAt(PlacesOf(frags)[from + k], c[from + k]);
    }
  }

  class Packet {
    var frags: seq<Fragment>
    var capacity: nat
    var len: nat
    var headroom: nat
    var data: array<byte>

    /** A non-empty fragment in the internal buffer is the first one and fills it from the headroom on. */
    ghost predicate Internal(f: Fragment, i: nat)
      reads this
    {
      f.base == data ==>
        (f.off == INTERNAL_DATA_SIZE && f.size == 0)
        || (i == 0 && f.off == headroom < INTERNAL_DATA_SIZE && f.off + f.size == INTERNAL_DATA_SIZE)
    }

    ghost predicate Valid()
      reads this
    {
      && data.Length == INTERNAL_DATA_SIZE
      && |frags| <= capacity && DEFAULT_NR_FRAGS <= capacity
      && len == Total(frags)
      && headroom <= INTERNAL_DATA_SIZE
      && (forall i :: 0 <= i < |frags| ==> InBounds(frags[i]) && Internal(frags[i], i))
      && (!UsingInternalData() ==> headroom == INTERNAL_DATA_SIZE)
    }

    predicate UsingInternalData()
      reads this
    {
      frags != [] && frags[0].base == data && frags[0].off < INTERNAL_DATA_SIZE
    }

    ghost function Buffers(): set<object>
      reads this
    {
      set f | f in frags :: f.base
    }

    ghost function Views(): (v: seq<Text>)
      requires Valid()
      reads this, Buffers()
      ensures |v| == |frags| && forall i :: 0 <= i < |frags| ==> v[i] == View(frags[i])
    {
      ViewsOf(frags)
    }

    /** The packet as one byte sequence. */
    ghost function Contents(): (c: Text)
      requires Valid()
      reads this, Buffers()
      ensures |c| == len
    {
      JoinLength(frags, Views());
      Join(Views())
    }

    /** Where each byte of the packet lies. */
    ghost function Places(): (l: seq<Place>)
      requires Valid()
      reads this
      ensures |l| == len
    {
      PlacesLength(frags);
      PlacesOf(frags)
    }

    /** Each byte of the packet is what its place holds. */
    lemma Held()
      requires Valid()
      ensures forall k :: 0 <= k < len ==> HoldsAt(Places()[k], Contents()[k])
    {
      hide Join;
      hide PlacesOf;
      PlacesHold(frags, Views());
    }

    /** packet(size_t nr_frags); packet() is the same with one. */
    constructor Empty(nrFrags: nat)
      ensures Valid() && fresh(data) && Contents() == []
      ensures capacity >= nrFrags && frags == []
    {
      frags, len, headroom := [], 0, INTERNAL_DATA_SIZE;
      capacity := if nrFrags > DEFAULT_NR_FRAGS then nrFrags else DEFAULT_NR_FRAGS;
      data := new byte[INTERNAL_DATA_SIZE];
    }

    /** packet(fragment): a copy, inside the packet if it is small. */
    constructor Copying(frag: Fragment)
      requires InBounds(frag)
      ensures Valid() && fresh(data) && Contents() == View(frag)
      ensures |frags| == 1 && (frags[0].base == data <==> frag.size <= 112)
      ensures fresh(frags[0].base)
    {
      var d := new byte[INTERNAL_DATA_SIZE];
      var buf, at := d, 0;
      if frag.size <= INTERNAL_DATA_SIZE {
        at := INTERNAL_DATA_SIZE - frag.size;
      } else {
        buf := new byte[frag.size];
      }
      data, capacity, len := d, DEFAULT_NR_FRAGS, frag.size;
      headroom := if frag.size <= INTERNAL_DATA_SIZE then at else INTERNAL_DATA_SIZE;
      frags := [Fragment(buf, at, frag.size)];
      new;
      CopyBytes(frag, buf, at);
      TotalOne(frags[0]);
      assert Valid();
      JoinOne(Views(), View(frag));
    }

    /** packet(std::vector<fragment>, deleter), and packet(fragment, deleter) for a list of one. */
    constructor ZeroCopy(fs: seq<Fragment>)
      requires forall i :: 0 <= i < |fs| ==> InBounds(fs[i])
      ensures Valid() && fresh(data) && frags == fs
      ensures capacity == if |fs| > 4 then |fs| else 4
      ensures Contents() == Join(ViewsOf(fs))
    {
      frags, len, headroom := fs, Total(fs), INTERNAL_DATA_SIZE;
      capacity := if |fs| > DEFAULT_NR_FRAGS then |fs| else DEFAULT_NR_FRAGS;
      data := new byte[INTERNAL_DATA_SIZE];
    }

    // ---------- Storage ----------

    /** The buffers that the packet points into, other than just behind their end. */
    ghost function Holds(): set<array<byte>>
      reads this
    {
      HoldsOf(frags)
    }

    /** impl::allocate_if_needed: room for `extra` more fragments, moving to a larger packet if need be. */
    method AllocateIfNeeded(extra: nat)
      requires Valid()
      modifies this
      ensures Valid() && Views() == old(Views()) && Contents() == old(Contents()) && |frags| + extra <= capacity
      ensures headroom == old(headroom) && len == old(len) && UsingInternalData() == old(UsingInternalData())
      ensures |frags| == |old(frags)| && (data == old(data) || fresh(data))
      ensures forall b :: b in Holds() ==> b == data || b in old(Holds())
    {
      if capacity >= |frags| + extra {
        return;
      }
      var nr := |frags| + extra;
      nr := if 2 * |frags| > nr then 2 * |frags| else nr;
      Relocate(if nr > DEFAULT_NR_FRAGS then nr else DEFAULT_NR_FRAGS);
    }

    /** impl::copy */
    method Relocate(nr: nat)
      requires Valid() && |frags| <= nr && DEFAULT_NR_FRAGS <= nr
      modifies this
      ensures Valid() && Views() == old(Views()) && capacity == nr && |frags| == |old(frags)|
      ensures headroom == old(headroom) && len == old(len) && UsingInternalData() == old(UsingInternalData())
      ensures fresh(data)
      ensures forall b :: b in Holds() ==> b == data || b in old(Holds())
    {
      hide ViewsOf;
      hide Total;
      hide HoldsOf;
      ghost var before := Views();
      var moved := new byte[INTERNAL_DATA_SIZE];
      assert forall i :: 0 <= i < |frags| ==> frags[i].base != moved;
      assert Views() == before;
      MoveInternal(moved);
      ghost var held := Holds();
      capacity := nr;
      assert Views() == before;
      assert Holds() == held;
    }

    /** The internal fragment, if there is one, moves with the internal buffer. */
    method MoveInternal(moved: array<byte>)
      requires Valid() && moved.Length == INTERNAL_DATA_SIZE
      requires forall i :: 0 <= i < |frags| ==> frags[i].base != moved
      modifies `frags, `data, moved
      ensures Valid() && data == moved && Views() == old(Views()) && |frags| == |old(frags)|
      ensures UsingInternalData() == old(UsingInternalData())
      ensures forall b :: b in Holds() ==> b == data || b in old(Holds())
    {
      hide ViewsOf;
      hide Total;
      hide HoldsOf;
      if UsingInternalData() {
        MoveFirst(moved, headroom);
      }
      data := moved;
    }

    /** The first fragment's bytes are copied to another buffer, and the fragment lies there then. */
    method MoveFirst(buf: array<byte>, at: nat)
      requires frags != [] && at + frags[0].size <= buf.Length
      requires forall i :: 0 <= i < |frags| ==> InBounds(frags[i]) && frags[i].base != buf
      modifies `frags, buf
      ensures frags == old(frags)[0 := Fragment(buf, at, old(frags)[0].size)]
      ensures forall i :: 0 <= i < |frags| ==> InBounds(frags[i])
      ensures ViewsOf(frags) == old(ViewsOf(frags)) && Total(frags) == old(Total(frags))
      ensures HoldsOf(frags) <= old(HoldsOf(frags)) + {buf}
    {
      hide ViewsOf;
      hide Total;
      hide HoldsOf;
      ghost var before, was := ViewsOf(frags), frags;
      var f := Fragment(buf, at, frags[0].size);
      CopyBytes(frags[0], buf, at);
      SameSizes(frags, frags[0 := f]);
      HoldsUpdate(frags, 0, f);
      frags := frags[0 := f];
      assert forall i :: 1 <= i < |frags| ==> frags[i] == was[i] && View(frags[i]) == before[i];
      assert View(frags[0]) == before[0];
      assert ViewsOf(frags) == before;
    }

    /** impl::unuse_internal_data */
    method UnuseInternalData()
      requires Valid()
      modifies this
      ensures Valid() && Views() == old(Views()) && Contents() == old(Contents()) && !UsingInternalData()
      ensures headroom == INTERNAL_DATA_SIZE && data == old(data) && len == old(len) && capacity == old(capacity)
      ensures |frags| == |old(frags)| && forall i :: 0 <= i < |frags| ==> frags[i].size == old(frags)[i].size
      ensures data !in Holds() && forall b :: b in Holds() ==> b in old(Holds()) || fresh(b)
    {
      hide ViewsOf;
      hide Join;
      hide Total;
      hide HoldsOf;
      ghost var before := Views();
      if UsingInternalData() {
        var buf := new byte[frags[0].size];
        assert Views() == before;
        MoveFirst(buf, 0);
        headroom := INTERNAL_DATA_SIZE;
      }
      NotHeld();
    }

    lemma NotHeld()
      requires Valid() && !UsingInternalData()
      ensures data !in Holds()
    {
    }

    /** The packet gets `size` more bytes in front, not yet written, if they fit into the internal buffer. */
    method AllocateHeadroom(size: nat) returns (ok: bool)
      requires Valid()
      modifies this
      ensures ok <==> size <= old(headroom)
      ensures !ok ==> unchanged(this) && Contents() == old(Contents())
      ensures Valid() && (data == old(data) || fresh(data))
      ensures ok ==> frags != [] && frags[0].base == data && frags[0].off == headroom && size <= frags[0].size
                     && Views()[0][size..] + Join(Views()[1..]) == old(Contents())
      ensures forall b :: b in Holds() ==> b == data || b in old(Holds())
    {
      hide ViewsOf;
      hide Total;
      ok := headroom >= size;
      if !ok {
        return;
      }
      if !UsingInternalData() {
        OpenInternal();
      }
      hide Join;
      JoinHead(Views());
      Grow(size);
    }

    /** Where the first fragment begins once `size` bytes are put in front; below zero is in front of its buffer. */
    function Lowered(size: nat): int
      requires frags != []
      reads this
    {
      frags[0].off - size
    }

    /** The internal fragment is extended downwards, over bytes that are not yet written. */
    method Grow(size: nat)
      requires Valid() && size <= headroom && frags != [] && frags[0].base == data && frags[0].off == headroom
      modifies `frags, `headroom, `len
      ensures Valid() && frags != [] && frags[0].base == data && frags[0].off == headroom
      ensures size <= frags[0].size
      ensures Views()[0][size..] == old(Views()[0]) && Views()[1..] == old(Views()[1..])
      ensures frags[1..] == old(frags[1..])
    {
      hide ViewsOf;
      hide Total;
      ghost var was := frags;
      headroom := headroom - size;
      frags := frags[0 := Fragment(data, Lowered(size), frags[0].size + size)];
      len := len + size;
      GrowFirst(was, frags, size);
      assert forall i :: 1 <= i < |frags| ==> frags[i] == was[i];
    }

    /** An empty first fragment at the end of the internal buffer. */
    method OpenInternal()
      requires Valid() && !UsingInternalData()
      modifies this
      ensures Valid() && Contents() == old(Contents()) && len == old(len) && headroom == INTERNAL_DATA_SIZE
      ensures data == old(data) || fresh(data)
      ensures frags != [] && frags[0] == Fragment(data, INTERNAL_DATA_SIZE, 0)
      ensures forall b :: b in Holds() ==> b == data || b in old(Holds())
    {
      hide ViewsOf;
      hide Join;
      hide HoldsOf;
      AllocateIfNeeded(1);
      ghost var views, was := Views(), frags;
      frags := [Fragment(data, INTERNAL_DATA_SIZE, 0)] + frags;
      assert frags[1..] == was;
      assert Views()[0] == [] && Views()[1..] == views;
      JoinHead(Views());
      HoldsFront(was, frags[0]);
    }

    // ---------- Prepending ----------

    /**
      packet(fragment, packet&&): the bytes go into the headroom if they fit, else into
      a buffer of their own. They may lie in the packet's internal buffer unless the
      packet has to move to a larger one, which releases it before they are read.
     */
    method PrependCopy(frag: Fragment)
      requires Valid() && InBounds(frag)
      requires frag.base == data ==> |frags| < capacity || (UsingInternalData() && frag.size <= headroom)
      modifies this, data
      ensures Valid() && Contents() == old(View(frag)) + old(Contents())
      ensures data == old(data) || fresh(data)
      ensures forall b :: b in Holds() ==> b == data || b in old(Holds()) || fresh(b)
    {
      hide ViewsOf;
      hide Join;
      hide Valid;
      hide Views;
      var ok := AllocateHeadroom(frag.size);
      if ok {
        SplitFirst(frag.size);
        OnlyFirstInternal();
        assert Contents()[frag.size..] == old(Contents());
        WriteFirst(data, frag);
      } else {
        UnuseInternalData();
        AllocateIfNeeded(1);
        PushCopy(frag);
      }
    }

    method PushCopy(frag: Fragment)
      requires Valid() && !UsingInternalData() && |frags| < capacity && InBounds(frag)
      modifies `frags, `len
      ensures Valid() && Contents() == View(frag) + old(Contents())
      ensures forall b :: b in Holds() ==> b in old(Holds()) || fresh(b)
    {
      hide ViewsOf;
      hide Join;
      hide Total;
      var buf := new byte[frag.size];
      CopyBytes(frag, buf, 0);
      assert Views() == old(Views());
      PushFront(buf);
    }

    method PushUninitialized(size: nat) returns (buf: array<byte>)
      requires Valid() && !UsingInternalData() && |frags| < capacity
      modifies `frags, `len
      ensures Valid() && fresh(buf) && buf.Length == size && Contents() == buf[0..0 + size] + old(Contents())
      ensures frags != [] && frags[0] == Fragment(buf, 0, size)
      ensures forall i :: 1 <= i < |frags| ==> frags[i].base != buf
      ensures forall b :: b in Holds() ==> b in old(Holds()) || fresh(b)
    {
      hide ViewsOf;
      hide Join;
      hide Total;
      buf := new byte[size];
      assert Views() == old(Views());
      PushFront(buf);
      assert buf[0..0 + size] == buf[..];
    }

    /** A buffer becomes the first fragment of a packet that does not use its internal one. */
    method PushFront(buf: array<byte>)
      requires Valid() && !UsingInternalData() && |frags| < capacity && buf != data
      modifies `frags, `len
      ensures Valid() && frags == [Fragment(buf, 0, buf.Length)] + old(frags)
      ensures Contents() == buf[..] + old(Contents())
    {
      hide ViewsOf;
      frags := [Fragment(buf, 0, buf.Length)] + frags;
      assert frags[1..] == old(frags);
      len := len + buf.Length;
      assert View(frags[0]) == buf[..];
      assert Views()[1..] == old(Views());
    }

    /** A new first fragment of `size` bytes, whatever they are, and where the header is to be written. */
    method PrependUninitializedHeader(size: nat) returns (base: array<byte>, off: nat)
      requires Valid()
      modifies this
      ensures Valid() && (data == old(data) || fresh(data))
      ensures frags != [] && frags[0].base == base && frags[0].off == off && size <= frags[0].size
      ensures off + size <= base.Length && (base == data || fresh(base))
      ensures forall i :: 1 <= i < |frags| && frags[i].base == base ==> frags[i].off == base.Length
      ensures Contents() == base[off..off + size] + old(Contents())
      ensures forall b :: b in Holds() ==> b == data || b in old(Holds()) || fresh(b)
    {
      hide ViewsOf;
      hide Join;
      hide Valid;
      hide Views;
      hide Contents;
      hide HoldsOf;
      hide Total;
      var ok := AllocateHeadroom(size);
      if !ok {
        UnuseInternalData();
        ok := AllocateHeadroom(size);
        if !ok {
          AllocateIfNeeded(1);
          base := PushUninitialized(size);
          return base, 0;
        }
      }
      base, off := frags[0].base, frags[0].off;
      SplitFirst(size);
      OnlyFirstInternal();
    }

    lemma OnlyFirstInternal()
      requires Valid()
      ensures forall i :: 1 <= i < |frags| && frags[i].base == data ==> frags[i].off == data.Length
    {
    }

    /** prepend_header: the caller fills in the header it got a place for. */
    method PrependHeader(header: Text)
      requires Valid()
      modifies this, data
      ensures Valid() && Contents() == header + old(Contents())
      ensures data == old(data) || fresh(data)
      ensures forall b :: b in Holds() ==> b == data || b in old(Holds()) || fresh(b)
    {
      hide *;
      var source := Aside(header);
      var base, off := PrependUninitializedHeader(|header|);
      assert Contents()[|header|..] == old(Contents());
      ViewOf(source);
      WriteFirst(base, Fragment(source, 0, |header|));
    }

    /** Bytes in a buffer of their own, beside the packet. */
    method Aside(bytes: Text) returns (buf: array<byte>)
      requires Valid()
      ensures Valid() && Contents() == old(Contents()) && Holds() == old(Holds())
      ensures fresh(buf) && buf.Length == |bytes| && buf[..] == bytes && buf[0..|bytes|] == bytes
    {
      hide ViewsOf;
      hide Join;
      hide Total;
      buf := NewBuffer(bytes);
      assert Views() == old(Views());
    }

    /** Writing to the first bytes of the packet changes only them. */
    method WriteFirst(base: array<byte>, frag: Fragment)
      requires Valid() && InBounds(frag)
      requires frags != [] && frags[0].base == base && frag.size <= frags[0].size
      requires forall i :: 1 <= i < |frags| && frags[i].base == base ==> frags[i].off == base.Length
      modifies base
      ensures Valid() && Contents() == old(View(frag)) + old(Contents())[frag.size..]
    {
      hide ViewsOf;
      hide Total;
      hide Join;
      ghost var old_ := Views();
      JoinHead(old_);
      Overwrite(frags[0], frag);
      assert forall i :: 1 <= i < |frags| ==> View(frags[i]) == old_[i];
      assert Views()[1..] == old_[1..];
      JoinHead(Views());
      Assoc(old(View(frag)), old_[0][frag.size..], Join(old_[1..]));
    }

    static method Overwrite(f: Fragment, frag: Fragment)
      requires InBounds(f) && InBounds(frag) && frag.size <= f.size
      modifies f.base
      ensures View(f) == old(View(frag)) + old(View(f))[frag.size..]
    {
      ghost var whole := f.base[..];
      CopyBytes(frag, f.base, f.off);
      Spliced(whole, f.base[..], f.off, frag.size, f.size);
    }

    lemma SplitFirst(size: nat)
      requires Valid() && frags != [] && size <= frags[0].size
      ensures Contents() == frags[0].base[frags[0].off..frags[0].off + size]
                            + (Views()[0][size..] + Join(Views()[1..]))
      ensures size <= len && Contents()[size..] == Views()[0][size..] + Join(Views()[1..])
      ensures frags[0].off + size <= frags[0].base.Length
    {
      var v := Views()[0];
      assert v == v[..size] + v[size..] && v[..size] == frags[0].base[frags[0].off..frags[0].off + size];
      Assoc(v[..size], v[size..], Join(Views()[1..]));
    }

    // ---------- Appending ----------

    /** packet(packet&&, fragment, deleter): the fragment itself becomes part of the packet. */
    method AppendFragment(frag: Fragment)
      requires Valid() && InBounds(frag) && frag.base != data
      modifies this
      ensures Valid() && Contents() == old(Contents()) + View(frag)
      ensures data == old(data) || fresh(data)
      ensures forall b :: b in Holds() ==> b == data || b in old(Holds()) || b == frag.base
    {
      hide ViewsOf;
      hide Join;
      hide Total;
      AllocateIfNeeded(1);
      ghost var was, views := frags, Views();
      frags := frags + [frag];
      len := len + frag.size;
      TotalConcat(was, [frag]);
      TotalOne(frag);
      assert Views() == views + [View(frag)];
      JoinConcat(views, [View(frag)]);
      JoinOne([View(frag)], View(frag));
    }

    /** packet(packet&&, fragment): a copy is appended. */
    method AppendCopy(frag: Fragment)
      requires Valid() && InBounds(frag)
      modifies this
      ensures Valid() && Contents() == old(Contents()) + old(View(frag))
      ensures data == old(data) || fresh(data)
      ensures forall b :: b in Holds() ==> b == data || b in old(Holds()) || fresh(b)
    {
      hide ViewsOf;
      hide Join;
      var buf := new byte[frag.size];
      CopyBytes(frag, buf, 0);
      assert Views() == old(Views());
      AppendFragment(Fragment(buf, 0, frag.size));
    }

    /** packet::append: `p` is used up. */
    method Append(p: Packet)
      requires Valid() && p.Valid() && p != this && p.data != data && data !in p.Holds()
      modifies this, p
      ensures Valid() && Contents() == old(Contents()) + old(p.Contents())
      ensures data == old(data) || data == old(p.data) || fresh(data)
      ensures forall b :: b in Holds() ==> b == data || b in old(Holds()) || b in old(p.Holds()) || fresh(b)
    {
      hide ViewsOf;
      hide Join;
      if len == 0 {
        assert Contents() == [];
        Become(p);
      } else {
        AppendOther(p);
      }
    }

    /** Move assignment. */
    method Become(p: Packet)
      requires p.Valid() && p != this
      modifies this
      ensures Valid() && Contents() == p.Contents() && data == p.data && Holds() == p.Holds()
    {
      hide ViewsOf;
      hide Join;
      hide Total;
      frags, capacity, len, headroom, data := p.frags, p.capacity, p.len, p.headroom, p.data;
      assert Views() == p.Views();
    }

    method AppendOther(p: Packet)
      requires Valid() && p.Valid() && p != this && p.data != data && data !in p.Holds() && len > 0
      modifies this, p
      ensures Valid() && Contents() == old(Contents()) + old(p.Contents())
      ensures data == old(data) || fresh(data)
      ensures forall b :: b in Holds() ==> b == data || b in old(Holds()) || b in old(p.Holds()) || fresh(b)
    {
      assert frags != [];
      hide ViewsOf;
      hide Join;
      hide Total;
      hide Valid;
      hide Holds;
      hide HoldsOf;
      p.UnuseInternalData();
      assert Views() == old(Views());
      hide Views;
      p.Pieces(data);
      AppendAll(p.frags);
    }

    lemma Pieces(b: array<byte>)
      requires Valid() && b !in Holds()
      ensures forall i :: 0 <= i < |frags| ==> InBounds(frags[i]) && (frags[i].base == b ==> frags[i].off == b.Length)
      ensures Contents() == Join(ViewsOf(frags)) && Holds() == HoldsOf(frags)
    {
    }

    /** Another packet's fragments are copied behind this packet's own. */
    method AppendAll(fs: seq<Fragment>)
      requires Valid() && frags != []
      requires forall i :: 0 <= i < |fs| ==> InBounds(fs[i]) && (fs[i].base == data ==> fs[i].off == data.Length)
      modifies this
      ensures Valid() && Contents() == old(Contents()) + Join(ViewsOf(fs))
      ensures data == old(data) || fresh(data)
      ensures forall b :: b in Holds() ==> b == data || b in old(Holds()) || b in HoldsOf(fs)
    {
      hide ViewsOf;
      hide Join;
      hide Total;
      hide HoldsOf;
      AllocateIfNeeded(|fs|);
      ghost var was, views := frags, Views();
      frags := frags + fs;
      len := len + Total(fs);
      TotalConcat(was, fs);
      HoldsConcat(was, fs);
      assert Views() == views + ViewsOf(fs);
      JoinConcat(views, ViewsOf(fs));
    }

    // ---------- Trimming ----------

    method TrimFront(howMuch: nat)
      requires Valid() && howMuch <= len
      modifies this
      ensures Valid() && Contents() == old(Contents())[howMuch..]
      ensures data == old(data) && forall b :: b in Holds() ==> b in old(Holds())
    {
      hide ViewsOf;
      hide Join;
      hide Total;
      var i, rest := SkipFragments(howMuch);
      assert Views() == old(Views());
      DropFragments(i);
      assert Contents()[rest..] == old(Contents())[howMuch..];
      if rest > 0 {
        TrimFirst(rest);
      }
      assert rest == 0 ==> Contents()[rest..] == Contents();
    }

    /** How many whole fragments the first `offset` bytes take, and what is left of `offset` then. */
    method SkipFragments(offset: nat) returns (i: nat, rest: nat)
      requires Valid() && offset <= len
      ensures i <= |frags| && offset == Total(frags[..i]) + rest
      ensures rest == 0 || (i < |frags| && rest < frags[i].size)
    {
      i, rest := 0, offset;
      while rest > 0 && rest >= frags[i].size
        invariant i <= |frags| && offset == Total(frags[..i]) + rest
        invariant rest <= Total(frags[i..])
        decreases |frags| - i
      {
        TotalNext(frags, i);
        i, rest := i + 1, rest - frags[i].size;
      }
      assert rest > 0 ==> i < |frags|;
    }

    method DropFragments(i: nat)
      requires Valid() && i <= |frags|
      modifies this
      ensures Valid() && frags == old(frags)[i..] && data == old(data)
      ensures old(Total(frags[..i])) <= old(len) && Contents() == old(Contents())[old(Total(frags[..i]))..]
    {
      hide ViewsOf;
      hide Join;
      hide Total;
      TotalSplit(frags, i);
      ghost var views := Views();
      JoinSplit(views, i);
      JoinLength(frags[..i], views[..i]);
      len := len - Total(frags[..i]);
      frags := frags[i..];
      if !UsingInternalData() {
        headroom := INTERNAL_DATA_SIZE;
      }
      assert Views() == views[i..];
    }

    method TrimFirst(howMuch: nat)
      requires Valid() && frags != [] && howMuch < frags[0].size
      modifies this
      ensures Valid() && Contents() == old(Contents())[howMuch..] && data == old(data)
      ensures forall b :: b in Holds() ==> b in old(Holds())
    {
      hide ViewsOf;
      hide Join;
      hide Total;
      ghost var was, views := frags, Views();
      if UsingInternalData() {
        headroom := headroom + howMuch;
      }
      frags := frags[0 := Fragment(frags[0].base, frags[0].off + howMuch, frags[0].size - howMuch)];
      GrowFirst(frags, was, howMuch);
      len := len - howMuch;
      PartOfView(was[0], howMuch, was[0].size);
      assert Views()[0] == views[0][howMuch..];
      assert forall i :: 1 <= i < |frags| ==> frags[i] == was[i] && Views()[i] == views[i];
      JoinTrim(views, Views(), howMuch);
    }

    /**
      packet::trim_back drops a suffix. It keeps the invariant of the internal buffer
      exactly when it does not cut into the internal fragment: there it raises the
      headroom although the fragment still begins where it did, so that a header
      which fills the headroom would begin in front of the buffer.
     */
    method TrimBack(howMuch: nat)
      requires Valid() && howMuch <= len
      modifies this
      ensures data == old(data) && len == old(len) - howMuch == Total(frags)
      ensures forall i :: 0 <= i < |frags| ==> InBounds(frags[i])
      ensures Join(ViewsOf(frags)) == old(Contents())[..len]
      ensures Valid() <==> !(old(UsingInternalData()) && len < old(frags)[0].size)
      ensures !Valid() && frags != [] ==>
                frags[0].base == data && frags[0].off == old(headroom) && Lowered(headroom) < 0
    {
      hide ViewsOf;
      hide Join;
      hide Total;
      assert UsingInternalData() ==> 0 < frags[0].size;
      hide Valid;
      var n, rest := SkipFromEnd(howMuch);
      assert Views() == old(Views());
      hide Views;
      TotalSplit(frags, n);
      CutsFirst(frags, n, rest);
      KeepFragments(n);
      if rest > 0 {
        ghost var m := len;
        assert Contents() == old(Contents())[..m];
        hide Contents;
        TrimLast(rest);
        assert old(Contents())[..m][..len] == old(Contents())[..len];
      }
    }

    /** When keeping `n` fragments, the last of them without `rest` bytes, leaves less than the first one. */
    static lemma CutsFirst(frags: seq<Fragment>, n: nat, rest: nat)
      requires n <= |frags| && (rest == 0 || (0 < n && rest < frags[n - 1].size))
      ensures frags != [] && 0 < frags[0].size ==>
                (Total(frags[..n]) - rest < frags[0].size <==> n == 0 || (n == 1 && rest > 0))
    {
      hide Total;
      FirstOf(frags[..n]);
      if n > 0 {
        TotalNext(frags, n - 1);
        FirstOf(frags[..n - 1]);
        assert n > 1 ==> frags[..n - 1][0] == frags[0];
      }
    }

    method KeepFragments(n: nat)
      requires Valid() && n <= |frags|
      modifies `frags, `len
      ensures frags == old(frags)[..n] && len == Total(frags) == old(len) - old(Total(frags[n..]))
      ensures forall i :: 0 <= i < |frags| ==> InBounds(frags[i])
      ensures Valid() <==> 0 < n || !old(UsingInternalData())
      ensures Join(ViewsOf(frags)) == old(Contents())[..len]
    {
      hide ViewsOf;
      hide Join;
      hide Total;
      TotalSplit(frags, n);
      ghost var views := Views();
      JoinSplit(views, n);
      JoinLength(frags[..n], views[..n]);
      len := len - Total(frags[n..]);
      frags := frags[..n];
      assert ViewsOf(frags) == views[..n];
    }

    method TrimLast(howMuch: nat)
      requires Valid() && frags != [] && 0 < howMuch < frags[|frags| - 1].size
      modifies `frags, `len, `headroom
      ensures |frags| == |old(frags)| && forall i :: 0 <= i < |frags| ==> InBounds(frags[i])
      ensures len == old(len) - howMuch == Total(frags) && Join(ViewsOf(frags)) == old(Contents())[..len]
      ensures Valid() <==> !(|frags| == 1 && old(UsingInternalData()))
      ensures !Valid() ==> frags[0].base == data && frags[0].off == old(headroom) && Lowered(headroom) < 0
    {
      hide ViewsOf;
      hide Join;
      hide Total;
      ghost var was, views := frags, Views();
      var i := |frags| - 1;
      var f := frags[i];
      var g := Fragment(f.base, f.off, f.size - howMuch);
      ShortenTotal(was, g);
      ShortenJoin(views, g.size);
      PartOfView(f, 0, g.size);
      assert was[i := g] == was[..i] + [g];
      assert ViewsOf(was[i := g]) == views[..i] + [views[i][..g.size]];
      assert |old(Contents())| == old(len);
      len := len - howMuch;
      if i == 0 && UsingInternalData() {
        headroom := headroom + howMuch;
      }
      frags := frags[i := g];
    }

    static lemma ShortenTotal(frags: seq<Fragment>, f: Fragment)
      requires frags != []
      ensures var i := |frags| - 1; Total(frags[..i] + [f]) == Total(frags) - frags[i].size + f.size
    {
      hide Total;
      var i := |frags| - 1;
      TotalNext(frags, i);
      assert frags[..i + 1] == frags;
      TotalConcat(frags[..i], [f]);
      TotalOne(f);
    }

    static lemma ShortenJoin(views: seq<Text>, k: nat)
      requires views != [] && k <= |views[|views| - 1]|
      ensures var i := |views| - 1;
              var less := |Join(views)| - (|views[i]| - k);
              0 <= less && Join(views[..i] + [views[i][..k]]) == Join(views)[..less]
    {
      hide Join;
      var i := |views| - 1;
      var v := views[i];
      assert views == views[..i] + [v];
      JoinConcat(views[..i], [v]);
      JoinOne([v], v);
      JoinConcat(views[..i], [v[..k]]);
      JoinOne([v[..k]], v[..k]);
      assert (Join(views[..i]) + v)[..|Join(views[..i])| + k] == Join(views[..i]) + v[..k];
    }

    /** How many fragments stay, and how much of the last of them goes. */
    method SkipFromEnd(howMuch: nat) returns (n: nat, rest: nat)
      requires Valid() && howMuch <= len
      ensures n <= |frags| && howMuch == Total(frags[n..]) + rest
      ensures rest == 0 || (0 < n && rest < frags[n - 1].size)
      ensures howMuch == 0 ==> n == |frags|
    {
      n, rest := |frags|, howMuch;
      assert frags[n..] == [] && frags[..n] == frags;
      while rest > 0 && rest >= frags[n - 1].size
        invariant n <= |frags| && howMuch == Total(frags[n..]) + rest && rest <= Total(frags[..n])
        invariant howMuch == 0 ==> n == |frags|
        decreases n
      {
        TotalNext(frags, n - 1);
        n, rest := n - 1, rest - frags[n - 1].size;
      }
    }

    // ---------- Reading a header ----------

    /** The `size` bytes at `offset` of the packet lie in fragment `i`, at `off` in its buffer. */
    ghost predicate Lies(offset: nat, size: nat, i: nat, base: array<byte>, off: nat)
      requires Valid()
      reads this, Buffers()
    {
      && offset + size <= len && off + size <= base.Length
      && i < |frags| && frags[i].base == base && frags[i].off <= off && off + size <= frags[i].off + frags[i].size
      && offset == Total(frags[..i]) + (off - frags[i].off)
      && base[off..off + size] == Contents()[offset..offset + size]
      && Places()[offset..offset + size] == Stretch(base, off, size)
    }

    /**
      packet::get_header: a place where the `size` bytes at `offset` lie together,
      or null exactly when the packet does not have them. Writing there writes the
      packet, since the place is in one of its fragments, and every packet that has
      the place too, unless the bytes had to be gathered in a new buffer.
     */
    method GetHeader(offset: nat, size: nat) returns (base: array?<byte>, off: nat)
      requires Valid()
      modifies this
      ensures Valid() && Contents() == old(Contents()) && data == old(data)
      ensures base == null <==> offset + size > len || offset == len
      ensures base != null ==> exists i :: Lies(offset, size, i, base, off)
      ensures base != null ==> unchanged(this) || fresh(base)
      ensures size <= 1 ==> unchanged(this)
      ensures forall b :: b in Holds() ==> b in old(Holds()) || fresh(b)
    {
      hide *;
      if offset + size > len {
        return null, 0;
      }
      var i, rest := FindFragment(offset);
      if i == |frags| {
        return null, 0;
      }
      base, off := HeaderAt(i, rest, size);
      assert Lies(offset, size, i, base, off);
    }

    method HeaderAt(i: nat, rest: nat, size: nat) returns (base: array<byte>, off: nat)
      requires Valid() && i < |frags| && rest < frags[i].size && rest + size <= Total(frags[i..])
      modifies this
      ensures Valid() && Contents() == old(Contents()) && data == old(data) && len == old(len)
      ensures Lies(old(Total(frags[..i])) + rest, size, i, base, off)
      ensures if old(rest + size <= frags[i].size) then unchanged(this) else fresh(base)
      ensures forall b :: b in Holds() ==> b in old(Holds()) || fresh(b)
    {
      hide ViewsOf;
      hide Join;
      hide Total;
      hide Contents;
      hide Views;
      if rest + size > frags[i].size {
        LinearizeAt(i, rest + size);
      }
      base, off := frags[i].base, frags[i].off + rest;
      Found(i, rest, size);
    }

    lemma Found(i: nat, rest: nat, size: nat)
      requires Valid() && i < |frags| && rest + size <= frags[i].size
      ensures Lies(Total(frags[..i]) + rest, size, i, frags[i].base, frags[i].off + rest)
    {
      hide Join;
      hide ViewsOf;
      hide Total;
      hide PlacesOf;
      hide Views;
      hide Contents;
      FoundBytes(i, rest, size);
      PlacesWithin(frags, i, rest, size);
      assert Lies(Total(frags[..i]) + rest, size, i, frags[i].base, frags[i].off + rest);
    }

    lemma FoundBytes(i: nat, rest: nat, size: nat)
      requires Valid() && i < |frags| && rest + size <= frags[i].size
      ensures var f, p := frags[i], Total(frags[..i]) + rest;
              p + size <= len && f.base[f.off + rest..f.off + rest + size] == Contents()[p..p + size]
    {
      hide Join;
      hide ViewsOf;
      JoinLength(frags[..i], Views()[..i]);
      JoinSlice(Views(), i, rest, rest + size);
      var f := frags[i];
      PartOfView(f, rest, rest + size);
      var p := Total(frags[..i]) + rest;
      assert Contents()[p..p + size] == Views()[i][rest..rest + size];
      assert f.base[f.off + rest..f.off + (rest + size)] == f.base[f.off + rest..f.off + rest + size];
    }

    /** The fragment that holds the byte at `offset`; there is none behind the last byte. */
    method FindFragment(offset: nat) returns (i: nat, rest: nat)
      requires Valid() && offset <= len
      ensures i <= |frags| && offset == Total(frags[..i]) + rest
      ensures i < |frags| ==> rest < frags[i].size && len - offset == Total(frags[i..]) - rest
      ensures i == |frags| <==> offset == len
      ensures Contents() == old(Contents()) && Holds() == old(Holds())
    {
      i, rest := 0, offset;
      while i != |frags| && rest >= frags[i].size
        invariant i <= |frags| && offset == Total(frags[..i]) + rest
      {
        TotalNext(frags, i);
        i, rest := i + 1, rest - frags[i].size;
      }
      TotalSplit(frags, i);
      assert i < |frags| ==> Total(frags[i..]) >= frags[i].size;
      assert i == |frags| ==> frags[..i] == frags;
    }

    /** packet::linearize(at_frag, desired_size): enough fragments become one. */
    method LinearizeAt(at: nat, desired: nat)
      requires Valid() && at < |frags| && 0 < desired <= Total(frags[at..])
      modifies this
      ensures Valid() && Contents() == old(Contents()) && data == old(data) && len == old(len)
      ensures capacity == old(capacity)
      ensures at < |frags| && desired <= frags[at].size && Total(frags[..at]) == old(Total(frags[..at]))
      ensures at == 0 && desired == len ==> forall i :: 1 <= i < |frags| ==> frags[i].size == 0
      ensures fresh(frags[at].base)
      ensures forall b :: b in Holds() ==> b in old(Holds()) || fresh(b)
    {
      hide ViewsOf;
      hide Join;
      hide Total;
      hide Views;
      hide Contents;
      ghost var was := frags;
      UnuseInternalData();
      SameSizes(was[at..], frags[at..]);
      SameSizes(was[..at], frags[..at]);
      LinearizeHere(at, desired);
    }

    method LinearizeHere(at: nat, desired: nat)
      requires Valid() && !UsingInternalData() && at < |frags| && 0 < desired <= Total(frags[at..])
      modifies `frags
      ensures Valid() && Contents() == old(Contents())
      ensures at < |frags| && desired <= frags[at].size && frags[..at] == old(frags)[..at]
      ensures at == 0 && desired == len ==> forall i :: 1 <= i < |frags| ==> frags[i].size == 0
      ensures fresh(frags[at].base)
      ensures forall b :: b in Holds() ==> b in old(Holds()) || fresh(b)
    {
      hide ViewsOf;
      hide Join;
      hide Total;
      hide HoldsOf;
      var nr, accum := CountFragments(at, desired);
      var buf := Gather(at, nr, accum);
      assert Views() == old(Views());
      hide Views;
      if at == 0 && desired == len {
        TotalSplit(frags, nr);
        AllEmpty(frags[nr..]);
      }
      CollapseHolds(frags, at, nr, Fragment(buf, 0, buf.Length));
      Collapse(at, nr, buf);
    }

    static lemma CountStep(frags: seq<Fragment>, at: nat, nr: nat)
      requires at + nr <= |frags|
      ensures at + nr == |frags| ==> Total(frags[at..at + nr]) == Total(frags[at..])
      ensures at + nr < |frags| ==> Total(frags[at..at + nr + 1]) == Total(frags[at..at + nr]) + frags[at + nr].size
    {
      if at + nr == |frags| {
        assert frags[at..at + nr] == frags[at..];
      } else {
        assert frags[at..at + nr + 1] == frags[at..at + nr] + [frags[at + nr]];
        TotalConcat(frags[at..at + nr], [frags[at + nr]]);
        TotalOne(frags[at + nr]);
      }
    }

    method CountFragments(at: nat, desired: nat) returns (nr: nat, accum: nat)
      requires Valid() && at < |frags| && 0 < desired <= Total(frags[at..])
      ensures 0 < nr && at + nr <= |frags| && desired <= accum == Total(frags[at..at + nr])
    {
      hide Total;
      nr, accum := 0, 0;
      assert Total(frags[at..at]) == 0 by {
        assert frags[at..at] == [];
        FirstOf(frags[at..at]);
      }
      while accum < desired
        invariant at + nr <= |frags| && accum == Total(frags[at..at + nr])
        decreases |frags| - nr
      {
        CountStep(frags, at, nr);
        accum := accum + frags[at + nr].size;
        nr := nr + 1;
      }
    }

    method Gather(at: nat, nr: nat, accum: nat) returns (buf: array<byte>)
      requires Valid() && at + nr <= |frags| && accum == Total(frags[at..at + nr])
      ensures fresh(buf) && buf.Length == accum && buf[..] == Join(Views()[at..at + nr])
    {
      hide ViewsOf;
      hide Join;
      hide Total;
      buf := new byte[accum];
      ghost var views := Views();
      var p := 0;
      Nothing(frags[at..at + nr], views[at..at + nr]);
      for i := 0 to nr
        invariant Views() == views
        invariant p == Total(frags[at..at + nr][..i]) <= accum
        invariant buf[..p] == Join(views[at..at + nr][..i])
      {
        var f := frags[at + i];
        GatherStep(frags[at..at + nr], views[at..at + nr], i);
        CopyBytes(f, buf, p);
        assert buf[..p + f.size] == buf[..p] + buf[p..p + f.size];
        p := p + f.size;
      }
      assert buf[..] == buf[..p];
    }

    static lemma Nothing(frags: seq<Fragment>, views: seq<Text>)
      ensures Total(frags[..0]) == 0 && Join(views[..0]) == [] && frags[..|frags|] == frags && views[..|views|] == views
    {
    }

    static lemma GatherStep(frags: seq<Fragment>, views: seq<Text>, i: nat)
      requires i < |frags| == |views|
      ensures Total(frags[..i + 1]) == Total(frags[..i]) + frags[i].size <= Total(frags)
      ensures Join(views[..i + 1]) == Join(views[..i]) + views[i]
    {
      hide Total;
      hide Join;
      TotalNext(frags, i);
      TotalSplit(frags, i + 1);
      assert views[..i + 1] == views[..i] + [views[i]];
      JoinConcat(views[..i], [views[i]]);
      JoinOne([views[i]], views[i]);
    }

    /** The buffer takes the place of the fragments it was gathered from. */
    method Collapse(at: nat, nr: nat, buf: array<byte>)
      requires Valid() && !UsingInternalData() && 0 < nr && at + nr <= |frags| && buf != data
      requires buf[..] == Join(Views()[at..at + nr]) && buf.Length == Total(frags[at..at + nr])
      modifies `frags
      ensures Valid() && Contents() == old(Contents())
      ensures frags == old(frags)[..at] + [Fragment(buf, 0, buf.Length)] + old(frags)[at + nr..]
    {
      hide ViewsOf;
      hide Total;
      hide Join;
      ghost var was, views := frags, Views();
      var f := Fragment(buf, 0, buf.Length);
      frags := frags[..at] + [f] + frags[at + nr..];
      CollapseTotal(was, at, nr, f);
      assert View(f) == buf[..];
      assert Views() == views[..at] + [View(f)] + views[at + nr..];
      CollapseJoin(views, at, nr, View(f));
    }

    static lemma CollapseHolds(frags: seq<Fragment>, at: nat, nr: nat, f: Fragment)
      requires at + nr <= |frags|
      ensures HoldsOf(frags[..at] + [f] + frags[at + nr..]) <= HoldsOf(frags) + {f.base}
    {
    }

    static lemma CollapseTotal(frags: seq<Fragment>, at: nat, nr: nat, f: Fragment)
      requires at + nr <= |frags| && f.size == Total(frags[at..at + nr])
      ensures Total(frags[..at] + [f] + frags[at + nr..]) == Total(frags)
    {
      hide Total;
      TotalConcat(frags[..at] + [f], frags[at + nr..]);
      TotalConcat(frags[..at], [f]);
      TotalOne(f);
      TotalSplit(frags, at + nr);
      TotalSplit(frags[..at + nr], at);
      assert frags[..at + nr][..at] == frags[..at] && frags[..at + nr][at..] == frags[at..at + nr];
    }

    static lemma CollapseJoin(views: seq<Text>, at: nat, nr: nat, v: Text)
      requires at + nr <= |views| && v == Join(views[at..at + nr])
      ensures Join(views[..at] + [v] + views[at + nr..]) == Join(views)
    {
      hide Join;
      JoinConcat(views[..at] + [v], views[at + nr..]);
      JoinConcat(views[..at], [v]);
      JoinOne([v], v);
      JoinSplit(views, at + nr);
      JoinSplit(views[..at + nr], at);
      assert views[..at + nr][..at] == views[..at] && views[..at + nr][at..] == views[at..at + nr];
    }

    /**
      packet::linearize(): afterwards all bytes are in the first fragment. Of a packet
      without bytes no fragment is gathered, so an empty one is put in front of the
      others, and there is room for it exactly if the list was not full.
     */
    method Linearize()
      requires Valid()
      modifies this
      ensures frags != [] && forall i :: 0 <= i < |frags| ==> InBounds(frags[i])
      ensures View(frags[0]) == Join(ViewsOf(frags)) == old(Contents()) && len == old(len)
      ensures Valid() <==> |frags| <= capacity
      ensures |frags| <= capacity <==> old(len) > 0 || |old(frags)| < old(capacity)
      ensures capacity == old(capacity) && (old(len) == 0 ==> |frags| == |old(frags)| + 1)
      ensures data == old(data) && forall b :: b in Holds() ==> b in old(Holds()) || fresh(b)
    {
      hide ViewsOf;
      hide Join;
      hide Total;
      hide HoldsOf;
      if len == 0 {
        UnuseInternalData();
        PushEmpty();
      } else {
        LinearizeAll();
      }
    }

    method LinearizeAll()
      requires Valid() && len > 0
      modifies this
      ensures Valid() && frags != [] && View(frags[0]) == Join(ViewsOf(frags)) == old(Contents())
      ensures data == old(data) && len == old(len) && capacity == old(capacity)
      ensures forall b :: b in Holds() ==> b in old(Holds()) || fresh(b)
    {
      assert frags[0..] == frags && frags[..0] == [];
      hide ViewsOf;
      hide Join;
      hide Total;
      hide HoldsOf;
      LinearizeAt(0, len);
      JoinHead(Views());
      JoinEmpty(frags[1..], Views()[1..]);
    }

    /** What gathering no fragment does to the list. */
    method PushEmpty()
      requires Valid() && !UsingInternalData() && len == 0
      modifies `frags
      ensures |frags| == |old(frags)| + 1 && forall i :: 0 <= i < |frags| ==> InBounds(frags[i])
      ensures View(frags[0]) == Join(ViewsOf(frags)) == old(Contents())
      ensures Valid() <==> |frags| <= capacity
      ensures forall b :: b in Holds() ==> b in old(Holds()) || fresh(b)
    {
      hide ViewsOf;
      hide Join;
      var buf := new byte[0];
      ghost var was := frags;
      frags := [Fragment(buf, 0, 0)] + frags;
      assert frags[1..] == was;
      AllEmpty(frags);
      JoinEmpty(frags, ViewsOf(frags));
    }

    // ---------- Sharing ----------

    /** packet::share(offset, len): another packet over the same buffers, internal data excepted. */
    method Share(offset: nat, length: nat) returns (n: Packet)
      requires Valid() && offset + length <= len
      modifies this
      ensures Valid() && Contents() == old(Contents()) && data == old(data) && data !in Holds()
      ensures fresh(n) && n.Valid() && fresh(n.data) && n.Contents() == old(Contents())[offset..offset + length]
      ensures data !in n.Holds() && n.data !in Holds() && n.Holds() <= Holds()
      ensures n.Places() == Places()[offset..offset + length]
      ensures forall b :: b in Holds() ==> b in old(Holds()) || fresh(b)
    {
      hide ViewsOf;
      hide Join;
      hide Total;
      UnuseInternalData();
      var fs := SharedFragments(offset, length);
      assert Views() == old(Views());
      n := NewSharer(|frags|, fs);
      assert Views() == old(Views());
    }

    static method NewSharer(room: nat, fs: seq<Fragment>) returns (n: Packet)
      requires |fs| <= room && forall i :: 0 <= i < |fs| ==> InBounds(fs[i])
      ensures fresh(n) && fresh(n.data) && n.Valid() && n.frags == fs && n.Contents() == Join(ViewsOf(fs))
    {
      hide ViewsOf;
      hide Join;
      hide Total;
      n := new Packet.Empty(1);
      n.AllocateIfNeeded(room);
      n.Fill(fs);
    }

    method Fill(fs: seq<Fragment>)
      requires Valid() && frags == [] && |fs| <= capacity
      requires forall i :: 0 <= i < |fs| ==> InBounds(fs[i]) && fs[i].base != data
      modifies `frags, `len
      ensures Valid() && frags == fs && Contents() == Join(ViewsOf(fs))
    {
      frags, len := fs, Total(fs);
    }

    /** The two loops of packet::share: skip whole fragments, then take as much of each as is wanted. */
    method SharedFragments(offset: nat, length: nat) returns (fs: seq<Fragment>)
      requires Valid() && offset + length <= len
      ensures |fs| <= |frags| && forall i :: 0 <= i < |fs| ==> InBounds(fs[i])
      ensures HoldsOf(fs) <= Holds()
      ensures PlacesOf(fs) == Places()[offset..offset + length]
      ensures Join(ViewsOf(fs)) == Contents()[offset..offset + length]
    {
      PlacesLength(frags);
      var idx, rest := SkipFragments(offset);
      hide Total;
      hide HoldsOf;
      hide PlacesOf;
      hide ViewsOf;
      hide Join;
      fs := TakeFragments(frags, idx, rest, offset, length);
      SamePlaces(frags, fs, offset, offset + length);
    }

    static method TakeFragments(frags: seq<Fragment>, start: nat, skip: nat, offset: nat, length: nat)
      returns (fs: seq<Fragment>)
      requires start <= |frags| && offset == Total(frags[..start]) + skip
      requires skip == 0 || (start < |frags| && skip < frags[start].size)
      requires offset + length <= Total(frags)
      requires forall i :: 0 <= i < |frags| ==> InBounds(frags[i])
      ensures |fs| <= |frags| && PartsOf(fs, frags) && offset + length <= |PlacesOf(frags)|
      ensures PlacesOf(fs) == PlacesOf(frags)[offset..offset + length]
    {
      hide Total;
      hide PlacesOf;
      hide PartsOf;
      PlacesLength(frags);
      NoParts(frags);
      var idx: nat, rest: nat, taken: nat := start, skip, 0;
      fs := [];
      while taken < length
        invariant idx <= |frags| && |fs| <= idx && taken <= length && PartsOf(fs, frags)
        invariant taken < length ==> offset + taken == Total(frags[..idx]) + rest
        invariant rest == 0 || (idx < |frags| && rest < frags[idx].size)
        invariant PlacesOf(fs) == PlacesOf(frags)[offset..offset + taken]
        decreases |frags| - idx
      {
        assert idx < |frags| by {
          assert frags[..|frags|] == frags;
        }
        var f := frags[idx];
        var size := if length - taken < f.size - rest then length - taken else f.size - rest;
        TotalNext(frags, idx);
        TakeOne(frags, fs, idx, rest, size, offset, taken);
        fs := fs + [Fragment(f.base, f.off + rest, size)];
        idx, taken, rest := idx + 1, taken + size, 0;
      }
    }
  }

  /** The fragments `fs` lie in fragments of `frags`. */
  ghost predicate PartsOf(fs: seq<Fragment>, frags: seq<Fragment>) {
    (forall i :: 0 <= i < |fs| ==> InBounds(fs[i])) && HoldsOf(fs) <= HoldsOf(frags)
  }

  lemma NoParts(frags: seq<Fragment>)
    ensures PartsOf([], frags) && PlacesOf([]) == []
  {
  }

  /** `size` bytes of fragment `idx`, from its byte `rest` on, continue what was taken from `offset` on. */
  lemma TakeOne(frags: seq<Fragment>, fs: seq<Fragment>, idx: nat, rest: nat, size: nat, offset: nat, taken: nat)
    requires idx < |frags| && rest + size <= frags[idx].size && InBounds(frags[idx]) && PartsOf(fs, frags)
    requires offset + taken == Total(frags[..idx]) + rest <= |PlacesOf(frags)|
    requires PlacesOf(fs) == PlacesOf(frags)[offset..offset + taken]
    ensures var more := fs + [Fragment(frags[idx].base, frags[idx].off + rest, size)];
            && PartsOf(more, frags) && offset + (taken + size) <= |PlacesOf(frags)|
            && PlacesOf(more) == PlacesOf(frags)[offset..offset + (taken + size)]
  {
    hide *;
    var g := Fragment(frags[idx].base, frags[idx].off + rest, size);
    OnePart(fs, frags, idx, rest, size);
    PlacesSnoc(fs, g);
    PlacesWithin(frags, idx, rest, size);
    var all, at := PlacesOf(frags), offset + taken;
    assert all[at..at + size] == Stretch(g.base, g.off, size);
    Adjoin(all, offset, at, at + size);
    assert at + size == offset + (taken + size);
    assert PlacesOf(fs + [g]) == all[offset..at + size];
  }

  lemma OnePart(fs: seq<Fragment>, frags: seq<Fragment>, idx: nat, rest: nat, size: nat)
    requires PartsOf(fs, frags) && idx < |frags| && InBounds(frags[idx]) && rest + size <= frags[idx].size
    ensures PartsOf(fs + [Fragment(frags[idx].base, frags[idx].off + rest, size)], frags)
  {
  }

  /** Four empty fragments fill the list of a packet, and linearizing it puts a fifth where there is no room. */
  method LinearizeFourEmpty() returns (p: Packet)
    ensures p.capacity == 4 && |p.frags| == 5 && p.len == 0 && !p.Valid()
  {
    hide ViewsOf;
    hide Join;
    var buf := new byte[0];
    var f := Fragment(buf, 0, 0);
    p := new Packet.ZeroCopy([f, f, f, f]);
    JoinEmpty(p.frags, p.Views());
    assert p.Contents() == [];
    hide Packet.Valid;
    p.Linearize();
  }

  /** A small packet lies in its internal buffer, and cutting off any of its bytes breaks the buffer's invariant. */
  method TrimBackSmall(frag: Fragment, howMuch: nat) returns (p: Packet)
    requires InBounds(frag) && 0 < howMuch <= frag.size <= INTERNAL_DATA_SIZE
    ensures p.len == frag.size - howMuch && !p.Valid()
  {
    p := new Packet.Copying(frag);
    TotalOne(p.frags[0]);
    assert p.frags == [p.frags[0]] && |p.Contents()| == frag.size;
    assert p.UsingInternalData() && p.frags[0].size == frag.size;
    p.TrimBack(howMuch);
  }

  // ---------- Packets that share buffers ----------

  /** Neither packet points into the internal buffer of the other. */
  ghost predicate Apart(p: Packet, q: Packet)
    reads p, q
  {
    p != q && p.data != q.data && p.data !in q.Holds() && q.data !in p.Holds()
  }

  /** A packet and its sharer stay apart, and a header put in front of one is not seen in the other. */
  method PrependToSharer(p: Packet, q: Packet, header: Text)
    requires p.Valid() && q.Valid() && Apart(p, q)
    modifies p, p.data
    ensures p.Valid() && q.Valid() && Apart(p, q)
    ensures p.Contents() == header + old(p.Contents()) && q.Contents() == old(q.Contents())
  {
    hide ViewsOf;
    hide Join;
    q.Pieces(p.data);
    p.PrependHeader(header);
    assert q.Views() == old(q.Views());
  }

  /** The bytes of some packets, each on its own. */
  type Bytestrings = seq<Text>

  /**
    An operation on the packet at place `who`; the new packet of a share comes last
    in the list, and a packet that was appended is given a new, empty value.
   */
  datatype Operation =
    | ShareOf(who: nat, offset: nat, length: nat)
    | HeaderOf(who: nat, header: Text)
    | CopyInFront(who: nat, bytes: Text)
    | CopyBehind(who: nat, bytes: Text)
    | FrontOf(who: nat, howMuch: nat)
    | LookAt(who: nat, offset: nat, size: nat)
    | Together(who: nat)
    | AppendOf(who: nat, other: nat)

  predicate Fits(t: Text, s: Operation) {
    match s
    case ShareOf(_, offset, length) => offset + length <= |t|
    case FrontOf(_, howMuch) => howMuch <= |t|
    case Together(_) => t != []
    case _ => true
  }

  /** What becomes of the packet's own bytes, without those of another one. */
  function Changed(t: Text, s: Operation): Text
    requires Fits(t, s)
  {
    match s
    case HeaderOf(_, header) => header + t
    case CopyInFront(_, bytes) => bytes + t
    case CopyBehind(_, bytes) => t + bytes
    case FrontOf(_, howMuch) => t[howMuch..]
    case _ => t
  }

  predicate Allowed(c: Bytestrings, s: Operation) {
    s.who < |c| && Fits(c[s.who], s) && (s.AppendOf? ==> s.other < |c| && s.other != s.who)
  }

  /** What an operation does to byte sequences that have nothing to do with each other. */
  function Next(c: Bytestrings, s: Operation): Bytestrings
    requires Allowed(c, s)
  {
    if s.AppendOf? then c[s.who := c[s.who] + c[s.other]][s.other := []]
    else
      c[s.who := Changed(c[s.who], s)]
      + if s.ShareOf? then [c[s.who][s.offset..s.offset + s.length]] else []
  }

  ghost predicate Possible(c: Bytestrings, run: seq<Operation>)
    decreases run
  {
    run == [] || (Allowed(c, run[0]) && Possible(Next(c, run[0]), run[1..]))
  }

  ghost function After(c: Bytestrings, run: seq<Operation>): Bytestrings
    requires Possible(c, run)
    decreases run
  {
    if run == [] then c else After(Next(c, run[0]), run[1..])
  }

  ghost predicate Has(p: Packet, t: Text)
    reads p, p.Buffers()
  {
    p.Valid() && p.Contents() == t
  }

  ghost predicate AllHave(ps: seq<Packet>, c: Bytestrings)
    reads ps, set p, o | p in ps && o in p.Buffers() :: o
  {
    |ps| == |c| && forall i :: 0 <= i < |ps| ==> Has(ps[i], c[i])
  }

  ghost predicate AllApart(ps: seq<Packet>)
    reads ps
  {
    forall i, j :: 0 <= i < |ps| && 0 <= j < |ps| && i != j ==> Apart(ps[i], ps[j])
  }

  /** The packets have these bytes, and no two of them can write to each other's. */
  ghost predicate Family(ps: seq<Packet>, c: Bytestrings)
    reads ps, set p, o | p in ps && o in p.Buffers() :: o
  {
    AllHave(ps, c) && AllApart(ps)
  }

  lemma FromViews(q: Packet, v: seq<Text>, t: Text)
    requires q.Valid() && q.Views() == v && Join(v) == t
    ensures Has(q, t)
  {
  }

  /** All that a packet apart from `d`'s owner has is outside `d`. */
  lemma ToViews(q: Packet, d: array<byte>, t: Text)
    requires Has(q, t) && d !in q.Holds()
    ensures q.Valid() && Join(q.Views()) == t
    ensures forall k :: 0 <= k < |q.frags| && q.frags[k].base == d ==> q.frags[k].size == 0
  {
  }

  /** The packet changes; it writes to its own internal buffer and comes to hold only that and new buffers. */
  method Change(p: Packet, s: Operation, ghost t: Text)
    requires Has(p, t) && Fits(t, s)
    modifies p, p.data
    ensures Has(p, Changed(t, s))
    ensures p.data == old(p.data) || fresh(p.data)
    ensures forall b :: b in p.Holds() ==> b == p.data || b in old(p.Holds()) || fresh(b)
  {
    hide ViewsOf;
    hide Join;
    match s
    case HeaderOf(_, header) =>
      p.PrependHeader(header);
    case CopyInFront(_, bytes) =>
      var source := p.Aside(bytes);
      p.PrependCopy(Fragment(source, 0, |bytes|));
    case CopyBehind(_, bytes) =>
      var source := p.Aside(bytes);
      p.AppendCopy(Fragment(source, 0, |bytes|));
    case FrontOf(_, howMuch) =>
      p.TrimFront(howMuch);
    case LookAt(_, offset, size) =>
      var _, _ := p.GetHeader(offset, size);
    case Together(_) =>
      p.Linearize();
    case _ =>
  }

  method NewBuffer(bytes: Text) returns (buf: array<byte>)
    ensures fresh(buf) && buf.Length == |bytes| && buf[..] == bytes && buf[0..|bytes|] == bytes
  {
    buf := new byte[|bytes|](i requires 0 <= i < |bytes| => bytes[i]);
  }

  /** A packet of a family changes, and the family stays one. */
  method ChangeAmong(ps: seq<Packet>, s: Operation, ghost c: Bytestrings)
    requires Family(ps, c) && Allowed(c, s) && !s.ShareOf? && !s.AppendOf?
    modifies ps[s.who], ps[s.who].data
    ensures Family(ps, Next(c, s))
    ensures ps[s.who].data == old(ps[s.who].data) || fresh(ps[s.who].data)
  {
    hide Has;
    hide ViewsOf;
    hide Join;
    hide Total;
    var p, w := ps[s.who], s.who;
    forall i | 0 <= i < |ps| && i != w
      ensures ps[i].Valid() && Join(ps[i].Views()) == c[i]
      ensures forall k :: 0 <= k < |ps[i].frags| && ps[i].frags[k].base == p.data ==> ps[i].frags[k].size == 0
    {
      assert Apart(p, ps[i]);
      ToViews(ps[i], p.data, c[i]);
    }
    Change(p, s, c[w]);
    forall i | 0 <= i < |ps| && i != w ensures Apart(p, ps[i]) && Apart(ps[i], p) {
      assert old(Apart(p, ps[i]));
    }
    hide HoldsOf;
    forall i | 0 <= i < |ps| && i != w ensures Has(ps[i], c[i]) {
      assert old(Apart(p, ps[i]));
      assert ps[i].Views() == old(ps[i].Views());
      FromViews(ps[i], old(ps[i].Views()), c[i]);
    }
    hide Apart;
    assert AllApart(ps);
    hide AllApart;
    assert AllHave(ps, Next(c, s));
  }

  /** A packet of a family is shared, and the new packet belongs to the family. */
  method ShareAmong(ps: seq<Packet>, s: Operation, ghost c: Bytestrings) returns (n: Packet)
    requires Family(ps, c) && Allowed(c, s) && s.ShareOf?
    modifies ps[s.who]
    ensures fresh(n) && fresh(n.data) && Family(ps + [n], Next(c, s))
    ensures ps[s.who].data == old(ps[s.who].data)
  {
    hide Has;
    var p, w := ps[s.who], s.who;
    n := ShareOne(p, s, c[w]);
    forall i | 0 <= i < |ps| && i != w ensures Apart(p, ps[i]) && Apart(ps[i], p) && Apart(ps[i], n) && Apart(n, ps[i]) {
      assert old(Apart(p, ps[i]));
    }
    forall i | 0 <= i < |ps| ensures Has(ps[i], c[i]) {
      assert i != w ==> old(Has(ps[i], c[i])) && old(Apart(p, ps[i]));
      assert forall o :: o in old(ps[i].Buffers()) ==> o != p;
    }
    hide Apart;
    assert AllApart(ps + [n]);
    hide AllApart;
    assert AllHave(ps + [n], Next(c, s));
  }

  method ShareOne(p: Packet, s: Operation, ghost t: Text) returns (n: Packet)
    requires Has(p, t) && Fits(t, s) && s.ShareOf?
    modifies p
    ensures Has(p, t) && fresh(n) && fresh(n.data) && Has(n, t[s.offset..s.offset + s.length])
    ensures p.data == old(p.data) && Apart(p, n) && n.Holds() <= p.Holds()
    ensures forall b :: b in p.Holds() ==> b in old(p.Holds()) || fresh(b)
  {
    n := p.Share(s.offset, s.length);
  }

  /** A packet of a family is appended to another one, which takes over its bytes and buffers. */
  method AppendAmong(ps: seq<Packet>, s: Operation, ghost c: Bytestrings)
    requires Family(ps, c) && Allowed(c, s) && s.AppendOf?
    modifies ps[s.who], ps[s.other]
    ensures Family(ps, Next(c, s))
    ensures ps[s.who].data == old(ps[s.who].data) || ps[s.who].data == old(ps[s.other].data) || fresh(ps[s.who].data)
    ensures fresh(ps[s.other].data)
  {
    hide Has;
    var p, q, w, o := ps[s.who], ps[s.other], s.who, s.other;
    assert Apart(p, q) && Apart(q, p);
    AppendOne(p, q, c[w], c[o]);
    forall i | 0 <= i < |ps| && i != w && i != o
      ensures Apart(p, ps[i]) && Apart(ps[i], p) && Apart(q, ps[i]) && Apart(ps[i], q)
    {
      assert old(Apart(p, ps[i])) && old(Apart(q, ps[i]));
    }
    forall i | 0 <= i < |ps| && i != w && i != o ensures Has(ps[i], c[i]) {
      assert old(Has(ps[i], c[i])) && old(Apart(p, ps[i])) && old(Apart(q, ps[i]));
      assert forall x :: x in old(ps[i].Buffers()) ==> x != p && x != q;
    }
    hide Apart;
    assert AllApart(ps);
    hide AllApart;
    assert AllHave(ps, Next(c, s));
  }

  /** append(std::move(q)), and q = packet(). */
  method AppendOne(p: Packet, q: Packet, ghost t: Text, ghost u: Text)
    requires Has(p, t) && Has(q, u) && Apart(p, q)
    modifies p, q
    ensures Has(p, t + u) && Has(q, []) && Apart(p, q) && Apart(q, p)
    ensures p.data == old(p.data) || p.data == old(q.data) || fresh(p.data)
    ensures forall b :: b in p.Holds() ==> b == p.data || b in old(p.Holds()) || b in old(q.Holds()) || fresh(b)
    ensures fresh(q.data) && q.Holds() == {}
  {
    hide ViewsOf;
    hide Join;
    p.Append(q);
    var nothing := new Packet.Empty(1);
    assert nothing.Holds() == {};
    ghost var views := p.Views();
    q.Become(nothing);
    assert p.Views() == views;
  }

  /**
    Any number of packets made from one by sharing, and sharing again, behave under
    any run of these operations as byte sequences that have nothing to do with each
    other. Writing where get_header points is not among them: see WriteThrough.
   */
  method Operate(p: Packet, run: seq<Operation>) returns (ps: seq<Packet>)
    requires p.Valid() && Possible([p.Contents()], run)
    modifies p, p.data
    ensures ps != [] && ps[0] == p && Family(ps, After([old(p.Contents())], run))
  {
    hide *;
    ps := [p];
    ghost var c := [p.Contents()];
    assert run[0..] == run;
    Alone(p);
    for k := 0 to |run|
      invariant Family(ps, c) && ps != [] && ps[0] == p
      invariant Possible(c, run[k..]) && After(c, run[k..]) == After([old(p.Contents())], run)
      invariant forall i :: 1 <= i < |ps| ==> fresh(ps[i])
      invariant forall i :: 0 <= i < |ps| ==> ps[i].data == old(p.data) || fresh(ps[i].data)
    {
      NextStep(c, run, k);
      ps := OneOperation(ps, run[k], c);
      c := Next(c, run[k]);
    }
    assert run[|run|..] == [];
    Finished(c);
  }

  lemma Alone(p: Packet)
    requires p.Valid()
    ensures Family([p], [p.Contents()])
  {
  }

  lemma Finished(c: Bytestrings)
    ensures Possible(c, []) && After(c, []) == c
  {
  }

  lemma NextStep(c: Bytestrings, run: seq<Operation>, k: nat)
    requires k < |run| && Possible(c, run[k..])
    ensures Allowed(c, run[k]) && Possible(Next(c, run[k]), run[k + 1..])
    ensures After(c, run[k..]) == After(Next(c, run[k]), run[k + 1..])
  {
    assert run[k..][0] == run[k] && run[k..][1..] == run[k + 1..];
    hide Allowed;
    hide Next;
  }

  lemma Known(ps: seq<Packet>, s: Operation, c: Bytestrings)
    requires Family(ps, c) && Allowed(c, s)
    ensures s.who < |ps| && (s.AppendOf? ==> s.other < |ps|)
    ensures forall i, j :: 0 <= i < j < |ps| ==> ps[i] != ps[j]
  {
  }

  method OneOperation(ps: seq<Packet>, s: Operation, ghost c: Bytestrings) returns (qs: seq<Packet>)
    requires Family(ps, c) && Allowed(c, s)
    modifies ps, set p | p in ps :: p.data
    ensures Family(qs, Next(c, s)) && ps <= qs
    ensures forall i :: |ps| <= i < |qs| ==> fresh(qs[i])
    ensures forall i :: 0 <= i < |qs| ==> fresh(qs[i].data) || qs[i].data in old(set p | p in ps :: p.data)
  {
    hide *;
    Known(ps, s, c);
    qs := ps;
    if s.ShareOf? {
      var n := ShareAmong(ps, s, c);
      qs := ps + [n];
    } else if s.AppendOf? {
      AppendAmong(ps, s, c);
    } else {
      ChangeAmong(ps, s, c);
    }
  }

  // ---------- Writing through a header ----------

  /**
    A byte written where get_header points is seen by exactly those bytes of any
    packet, the same or another, that lie in the same place.
   */
  method WriteThrough(p: Packet, q: Packet, offset: nat, x: byte)
    requires p.Valid() && q.Valid() && offset < p.len
    modifies p, p.Holds()
    ensures unchanged(p) && unchanged(q) && p.Valid() && q.Valid()
    ensures forall i :: 0 <= i < q.len ==>
              q.Contents()[i] == if q.Places()[i] == p.Places()[offset] then x else old(q.Contents()[i])
    ensures p.Contents()[offset] == x
  {
    hide Packet.Valid;
    hide Packet.Contents;
    hide Packet.Places;
    assert forall b :: b in q.Buffers() ==> b != p;
    var base, off := PlaceOfByte(p, offset);
    ghost var l, c, places := p.Places()[offset], q.Contents(), q.Places();
    assert c == old(q.Contents());
    q.Held();
    assert forall k :: 0 <= k < |places| ==> HoldsAt(places[k], c[k]);
    base[off] := x;
    assert forall k :: 0 <= k < |places| ==> HoldsAt(places[k], if places[k] == l then x else c[k]);
    p.Held();
    q.Held();
    assert HoldsAt(p.Places()[offset], p.Contents()[offset]);
    forall i | 0 <= i < q.len ensures q.Contents()[i] == if q.Places()[i] == l then x else c[i] {
      assert HoldsAt(q.Places()[i], q.Contents()[i]) && q.Places()[i] == places[i];
    }
  }

  /** get_header for one byte, which never has to gather anything. */
  method PlaceOfByte(p: Packet, offset: nat) returns (base: array<byte>, off: nat)
    requires p.Valid() && offset < p.len
    modifies p
    ensures unchanged(p) && p.Valid() && off < base.Length && base in p.Holds() && p.Places()[offset] == Place(base, off)
  {
    hide ViewsOf;
    hide Join;
    hide Total;
    hide PlacesOf;
    base, off := p.GetHeader(offset, 1);
    assert p.Places()[offset..offset + 1][0] == p.Places()[offset];
  }

  /** So a sharer sees it, at the same byte of its slice. */
  method WriteSeenBySharer(p: Packet, from: nat, length: nat, offset: nat, x: byte) returns (n: Packet)
    requires p.Valid() && from <= offset < from + length <= p.len
    modifies p, p.Holds()
    ensures p.Valid() && fresh(n) && n.Valid() && offset < p.len && n.len == length
    ensures p.Contents()[offset] == n.Contents()[offset - from] == x
  {
    n := p.Share(from, length);
    hide Packet.Valid;
    hide Packet.Contents;
    hide Packet.Places;
    hide HoldsOf;
    assert n.Places()[offset - from] == p.Places()[offset];
    WriteThrough(p, n, offset, x);
  }

  /** std::copy of a fragment's bytes, which may lie in the same buffer. */
  method CopyBytes(frag: Fragment, target: array<byte>, at: nat)
    requires InBounds(frag) && at + frag.size <= target.Length
    modifies target
    ensures target[at..at + frag.size] == old(View(frag))
    ensures target[..at] == old(target[..at]) && target[at + frag.size..] == old(target[at + frag.size..])
  {
    forall i | 0 <= i < frag.size {
      target[at + i] := frag.base[frag.off + i];
    }
  }
}
