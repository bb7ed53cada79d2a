/** Connection labels: names hashed into buckets, with a table from bits back to names. */
module Labels {
  import opened Bytes

  const MAX_BITS := 1024
  const HASH_SIZE := 64

  // ---------- The hash ----------

  /** What one character adds, modulo two to the thirty-second; `char` is signed. */
  function Mix(hash: nat, c: byte): (r: nat)
    ensures r < 0x1_0000_0000
  {
    (hash * 32 - hash + (if c < 128 then c as int else c as int - 256)) % 0x1_0000_0000
  }

  function Mixed(hash: nat, name: Text): nat
    decreases |name|
  {
    if name == [] then hash else Mixed(Mix(hash, name[0]), name[1..])
  }

  function Hash(name: Text): (i: nat)
    ensures i < HASH_SIZE
  {
    Mixed(0, name) % HASH_SIZE
  }

  method HashName(name: Text) returns (i: nat)
    ensures i == Hash(name)
  {
    var hash: nat := 0;
    for k := 0 to |name|
      invariant Mixed(0, name) == Mixed(hash, name[k..])
    {
      assert name[k..][1..] == name[k + 1..];
      hash := Mix(hash, name[k]);
    }
    return hash % HASH_SIZE;
  }

  // ---------- Buckets ----------

  /** struct labelmap_bucket */
  datatype Chain = End | Link(name: Text, bit: nat, next: Chain)

  function Find(c: Chain, name: Text): Option<nat> {
    match c
    case End => None
    case Link(n, bit, next) => if n == name then Some(bit) else Find(next, name)
  }

  /** All links of a chain have this hash and are entries of the map. */
  ghost predicate Stored(c: Chain, i: nat, labels: map<Text, nat>) {
    c.Link? ==> Hash(c.name) == i && c.name in labels && labels[c.name] == c.bit && Stored(c.next, i, labels)
  }

  /** The buckets hold exactly the entries of the map. */
  ghost predicate Represents(buckets: seq<Chain>, labels: map<Text, nat>) {
    && |buckets| == HASH_SIZE
    && (forall i :: 0 <= i < HASH_SIZE ==> Stored(buckets[i], i, labels))
    && (forall n :: n in labels ==> Find(buckets[Hash(n)], n) == Some(labels[n]))
  }

  lemma {:induction false} FoundIsStored(c: Chain, i: nat, labels: map<Text, nat>, name: Text)
    requires Stored(c, i, labels)
    ensures Find(c, name).Some? ==> name in labels && Find(c, name).value == labels[name]
  {
    if c.Link? {
      FoundIsStored(c.next, i, labels, name);
    }
  }

  lemma {:induction false} StoredMore(c: Chain, i: nat, labels: map<Text, nat>, name: Text, bit: nat)
    requires Stored(c, i, labels) && name !in labels
    ensures Stored(c, i, labels[name := bit])
  {
    if c.Link? {
      StoredMore(c.next, i, labels, name, bit);
    }
  }

  lemma Inserted(buckets: seq<Chain>, labels: map<Text, nat>, name: Text, bit: nat)
    requires Represents(buckets, labels) && name !in labels
    ensures var i := Hash(name);
            Represents(buckets[i := Link(name, bit, buckets[i])], labels[name := bit])
  {
    var i := Hash(name);
    var after := buckets[i := Link(name, bit, buckets[i])];
    forall j | 0 <= j < HASH_SIZE ensures Stored(after[j], j, labels[name := bit]) {
      StoredMore(buckets[j], j, labels, name, bit);
    }
  }

  // ---------- The table from bits to names ----------

  /** Every name in the table is an entry at its own bit. */
  ghost predicate Backed(table: seq<Option<Text>>, labels: map<Text, nat>) {
    forall b :: 0 <= b < |table| && table[b].Some? ==> table[b].value in labels && labels[table[b].value] == b
  }

  /** The links of a chain, up to the part `rest` of it, are in the table. */
  ghost predicate NamedUpTo(c: Chain, rest: Chain, table: seq<Option<Text>>) {
    c == rest || (c.Link? && c.bit < |table| && table[c.bit] == Some(c.name) && NamedUpTo(c.next, rest, table))
  }

  ghost predicate Named(c: Chain, table: seq<Option<Text>>) {
    NamedUpTo(c, End, table)
  }

  lemma {:induction false} StaysNamed(c: Chain, rest: Chain, i: nat, labels: map<Text, nat>,
                                      table: seq<Option<Text>>, name: Text, bit: nat)
    requires Stored(c, i, labels) && Sound(labels) && NamedUpTo(c, rest, table)
    requires name in labels && labels[name] == bit < |table|
    ensures NamedUpTo(c, rest, table[bit := Some(name)])
  {
    if c != rest {
      StaysNamed(c.next, rest, i, labels, table, name, bit);
    }
  }

  lemma {:induction false} NamedNext(c: Chain, rest: Chain, table: seq<Option<Text>>)
    requires NamedUpTo(c, rest, table) && rest.Link? && rest.bit < |table| && table[rest.bit] == Some(rest.name)
    ensures NamedUpTo(c, rest.next, table)
  {
    if c != rest {
      NamedNext(c.next, rest, table);
    }
  }

  lemma {:induction false} NamedFound(c: Chain, table: seq<Option<Text>>, name: Text)
    requires Named(c, table) && Find(c, name).Some?
    ensures Find(c, name).value < |table| && table[Find(c, name).value] == Some(name)
  {
    if c.name != name {
      NamedFound(c.next, table, name);
    }
  }

  // ---------- What loading means ----------

  /** A line of the file after strtoul and trim_label: its number, if it has one, and its label, if that is not empty. */
  datatype Line = Line(comment: bool, number: Option<nat>, text: Option<Text>)

  predicate SaneByte(b: byte) {
    97 <= b <= 122 || 65 <= b <= 90 || 48 <= b <= 57 || b == 32 || b == 45
  }

  predicate Sane(name: Text) {
    forall i :: 0 <= i < |name| ==> SaneByte(name[i])
  }

  predicate Readable(line: Line) {
    && !line.comment
    && line.number.Some? && line.number.value < MAX_BITS
    && line.text.Some? && line.text.value != [] && Sane(line.text.value)
  }

  /** A line is taken if it can be read and neither its bit nor its name is taken. */
  function Add(labels: map<Text, nat>, line: Line): map<Text, nat> {
    if Readable(line) && line.text.value !in labels && line.number.value !in labels.Values
    then labels[line.text.value := line.number.value]
    else labels
  }

  function Loaded(lines: seq<Line>): map<Text, nat> {
    if lines == [] then map[] else Add(Loaded(lines[..|lines| - 1]), lines[|lines| - 1])
  }

  ghost predicate Sound(labels: map<Text, nat>) {
    && (forall m, n :: m in labels && n in labels && labels[m] == labels[n] ==> m == n)
    && (forall n :: n in labels ==> n != [] && labels[n] < MAX_BITS)
  }

  lemma {:induction false} LoadedSound(lines: seq<Line>)
    ensures Sound(Loaded(lines))
  {
    if lines != [] {
      var front := Loaded(lines[..|lines| - 1]);
      LoadedSound(lines[..|lines| - 1]);
      assert forall n :: n in front ==> front[n] in front.Values;
    }
  }

  /** A letter, a digit, a space or a dash. */
  predicate PlainByte(b: byte) {
    || 'a' as int <= b <= 'z' as int || 'A' as int <= b <= 'Z' as int || '0' as int <= b <= '9' as int
    || b == ' ' as int || b == '-' as int
  }

  /** Line `k` gives `name` the bit: it says so, and no line in front of it took either. */
  ghost predicate Gives(lines: seq<Line>, k: nat, name: Text, bit: nat)
    requires k < |lines|
  {
    && !lines[k].comment && lines[k].number == Some(bit) && bit < 1024
    && lines[k].text == Some(name) && name != [] && (forall i :: 0 <= i < |name| ==> PlainByte(name[i]))
    && forall m :: m in Loaded(lines[..k]) ==> m != name && Loaded(lines[..k])[m] != bit
  }

  /** Exactly those lines count. */
  lemma {:induction false} LoadedExactly(lines: seq<Line>, name: Text, bit: nat)
    ensures name in Loaded(lines) && Loaded(lines)[name] == bit <==>
              exists k: nat :: k < |lines| && Gives(lines, k, name, bit)
  {
    if lines != [] {
      var last := |lines| - 1;
      var front := lines[..last];
      LoadedExactly(front, name, bit);
      assert forall k :: 0 <= k <= last ==> front[..k] == lines[..k];
      hide Loaded;
      forall k: nat | k < last ensures Gives(front, k, name, bit) <==> Gives(lines, k, name, bit) {
        assert front[k] == lines[k];
      }
      LastLine(lines, name, bit);
      hide Gives;
      assert (exists k: nat :: k < |lines| && Gives(lines, k, name, bit))
             <==> (exists k: nat :: k < last && Gives(lines, k, name, bit)) || Gives(lines, last, name, bit);
    }
  }

  lemma LastLine(lines: seq<Line>, name: Text, bit: nat)
    requires lines != []
    ensures var last := |lines| - 1;
            var before := Loaded(lines[..last]);
            name in Loaded(lines) && Loaded(lines)[name] == bit
            <==> (name in before && before[name] == bit) || Gives(lines, last, name, bit)
  {
    hide Loaded;
    var line, before := lines[|lines| - 1], Loaded(lines[..|lines| - 1]);
    LastAdded(lines);
    assert forall m :: m in before ==> before[m] in before.Values;
  }

  lemma LastAdded(lines: seq<Line>)
    requires lines != []
    ensures Loaded(lines) == Add(Loaded(lines[..|lines| - 1]), lines[|lines| - 1])
  {
  }

  /** A polynomial in 31 with the bytes as signed numbers, reduced to 32 bits and then to the table. */
  lemma {:induction false} HashSnoc(hash: nat, name: Text, c: byte)
    ensures Mixed(hash, name + [c])
            == (31 * Mixed(hash, name) + if c < 128 then c as int else c as int - 256) % 0x1_0000_0000
    ensures Hash(name) == Mixed(0, name) % 64
    decreases |name|
  {
    if name == [] {
      assert [c][1..] == [];
      assert Mixed(hash, [c]) == Mix(hash, c);
    } else {
      assert (name + [c])[1..] == name[1..] + [c];
      HashSnoc(Mix(hash, name[0]), name[1..], c);
    }
  }

  class LabelMap {
    const buckets: array<Chain>
    var bitToName: array<Option<Text>>

    ghost predicate Valid(labels: map<Text, nat>)
      reads this, buckets, bitToName
    {
      && Represents(buckets[..], labels)
      && Sound(labels)
      && (forall b :: 0 <= b < bitToName.Length && bitToName[b].Some? ==>
            bitToName[b].value in labels && labels[bitToName[b].value] == b)
      && (forall n :: n in labels ==> labels[n] < bitToName.Length && bitToName[labels[n]] == Some(n))
    }

    /** map_alloc */
    constructor ()
      ensures fresh(buckets) && fresh(bitToName) && Represents(buckets[..], map[]) && bitToName.Length == 0
    {
      buckets := new Chain[HASH_SIZE](_ => End);
      bitToName := new Option<Text>[0];
    }

    /** map_insert: at the front of the name's bucket, unless the name is there. */
    method Insert(name: Text, bit: nat, ghost labels: map<Text, nat>) returns (ok: bool)
      requires Represents(buckets[..], labels)
      modifies buckets
      ensures ok <==> name !in labels
      ensures Represents(buckets[..], if ok then labels[name := bit] else labels)
    {
      var i := HashName(name);
      var list := buckets[i];
      while list.Link?
        invariant Find(buckets[i], name) == Find(list, name)
        decreases list
      {
        if list.name == name {
          assert Find(buckets[i], name).Some?;
          FoundIsStored(buckets[i], i, labels, name);
          return false;
        }
        list := list.next;
      }
      ghost var was := buckets[..];
      buckets[i] := Link(name, bit, buckets[i]);
      Inserted(was, labels, name, bit);
      assert buckets[..] == was[i := Link(name, bit, was[i])];
      return true;
    }

    /** __labelmap_get_bit */
    method GetBit(name: Text, ghost labels: map<Text, nat>) returns (bit: int)
      requires Valid(labels)
      ensures bit >= 0 <==> name in labels
      ensures name in labels ==> bit == labels[name]
      ensures name !in labels ==> bit == -1
    {
      var i := HashName(name);
      var list := buckets[i];
      FoundIsStored(buckets[i], i, labels, name);
      while list.Link?
        invariant Find(buckets[i], name) == Find(list, name)
        decreases list
      {
        if name == list.name {
          return list.bit;
        }
        list := list.next;
      }
      return -1;
    }

    /** __labelmap_get_name: the empty name for a bit that has none, nothing beyond the last bit. */
    method GetName(bit: nat, ghost labels: map<Text, nat>) returns (name: Option<Text>)
      requires Valid(labels)
      ensures forall n :: n != [] ==> (name == Some(n) <==> n in labels && labels[n] == bit)
      ensures name == None <==> bit >= bitToName.Length
    {
      if bit < bitToName.Length {
        return if bitToName[bit].Some? then bitToName[bit] else Some([]);
      }
      return None;
    }

    /** The two lookups undo each other. */
    method Inverse(name: Text, bit: nat, ghost labels: map<Text, nat>) returns (byName: int, byBit: Option<Text>)
      requires Valid(labels) && name != []
      ensures byName == bit <==> byBit == Some(name)
    {
      byName := GetBit(name, labels);
      byBit := GetName(bit, labels);
    }

    /** make_name_table */
    method MakeNameTable(ghost labels: map<Text, nat>)
      requires Represents(buckets[..], labels) && Sound(labels)
      requires forall n :: n in labels ==> labels[n] < bitToName.Length
      requires forall b :: 0 <= b < bitToName.Length ==> bitToName[b].None?
      modifies bitToName
      ensures Valid(labels)
    {
      ghost var all := buckets[..];
      for i := 0 to HASH_SIZE
        invariant buckets[..] == all
        invariant Backed(bitToName[..], labels)
        invariant forall j :: 0 <= j < i ==> Named(all[j], bitToName[..])
        modifies bitToName
      {
        var b := buckets[i];
        assert b == all[i];
        while b.Link?
          invariant buckets[..] == all && Stored(b, i, labels)
          invariant Backed(bitToName[..], labels)
          invariant forall j :: 0 <= j < i ==> Named(all[j], bitToName[..])
          invariant NamedUpTo(all[i], b, bitToName[..])
          modifies bitToName
          decreases b
        {
          ghost var was := bitToName[..];
          bitToName[b.bit] := Some(b.name);
          assert bitToName[..] == was[b.bit := Some(b.name)];
          forall j | 0 <= j < i ensures Named(all[j], bitToName[..]) {
            StaysNamed(all[j], End, j, labels, was, b.name, b.bit);
          }
          StaysNamed(all[i], b, i, labels, was, b.name, b.bit);
          NamedNext(all[i], b, bitToName[..]);
          b := b.next;
        }
      }
      forall n | n in labels ensures bitToName[labels[n]] == Some(n) {
        NamedFound(all[Hash(n)], bitToName[..], n);
      }
    }

    /** The load loop of __labelmap_new: the map of the file's lines, or nothing when no line was taken. */
    static method Load(lines: seq<Line>) returns (m: LabelMap?)
      ensures m == null <==> Loaded(lines) == map[]
      ensures m != null ==> m.Valid(Loaded(lines))
    {
      hide *;
      LoadedSound(lines);
      NothingLoaded();
      assert lines[..0] == [];
      var map_ := new LabelMap();
      var seen: set<nat> := {};
      var added, maxbit := 0, 0;
      ghost var labels: map<Text, nat> := map[];
      for k := 0 to |lines|
        invariant labels == Loaded(lines[..k]) && Represents(map_.buckets[..], labels)
        invariant seen == labels.Values && (added == 0 <==> labels == map[])
        invariant forall n :: n in labels ==> labels[n] <= maxbit
        modifies map_.buckets
      {
        OneMoreLine(lines, k);
        var bit := map_.ReadLine(lines[k], seen, labels);
        labels := Add(labels, lines[k]);
        if bit.Some? {
          added := added + 1;
          maxbit := if maxbit < bit.value then bit.value else maxbit;
          seen := seen + {bit.value};
        }
      }
      assert lines[..|lines|] == lines;
      if added == 0 {
        return null;
      }
      map_.SetTable(maxbit + 1);
      map_.MakeNameTable(labels);
      return map_;
    }

    /** One turn of the loop: the line's bit if the line was taken. */
    method ReadLine(line: Line, seen: set<nat>, ghost labels: map<Text, nat>) returns (bit: Option<nat>)
      requires Represents(buckets[..], labels) && seen == labels.Values
      modifies buckets
      ensures Represents(buckets[..], Add(labels, line))
      ensures bit.None? ==> Add(labels, line) == labels
      ensures bit.Some? ==> line.text.Some? && Add(labels, line) == labels[line.text.value := bit.value]
                            && Add(labels, line).Values == seen + {bit.value}
    {
      hide Represents;
      hide Sane;
      if line.comment || line.number.None? || line.number.value >= MAX_BITS || line.number.value in seen {
        return None;
      }
      if line.text.None? || line.text.value == [] {
        return None;
      }
      var name := line.text.value;
      var sane := LabelIsSane(name);
      if sane {
        var ok := Insert(name, line.number.value, labels);
        if ok {
          Values(labels, name, line.number.value);
          return line.number;
        }
      }
      return None;
    }

    /** calloc of the name table */
    method SetTable(namecount: nat)
      modifies `bitToName
      ensures fresh(bitToName) && bitToName.Length == namecount
      ensures forall b :: 0 <= b < namecount ==> bitToName[b].None?
    {
      bitToName := new Option<Text>[namecount](_ => None);
    }
  }

  method LabelIsSane(name: Text) returns (sane: bool)
    ensures sane <==> Sane(name)
  {
    for i := 0 to |name|
      invariant forall j :: 0 <= j < i ==> SaneByte(name[j])
    {
      if !SaneByte(name[i]) {
        return false;
      }
    }
    return true;
  }

  lemma NothingLoaded()
    ensures Loaded([]) == map[]
  {
  }

  lemma OneMoreLine(lines: seq<Line>, k: nat)
    requires k < |lines|
    ensures Loaded(lines[..k + 1]) == Add(Loaded(lines[..k]), lines[k])
  {
    assert lines[..k + 1][..k] == lines[..k];
  }

  lemma Values(labels: map<Text, nat>, name: Text, bit: nat)
    requires name !in labels
    ensures labels[name := bit].Values == labels.Values + {bit}
  {
    var after := labels[name := bit];
    forall b | b in labels.Values + {bit} ensures b in after.Values {
      if b != bit {
        var n :| n in labels && labels[n] == b;
        assert after[n] == b;
      } else {
        assert after[name] == bit;
      }
    }
  }
}
