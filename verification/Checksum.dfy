/**
  The TCP checksum and rst_tcp_link, which blanks the beginning of a denied
  request and repairs the checksum.
 */
module Checksum {
  import opened Bytes

  const IPPROTO_TCP := 6
  const PSEUDO_HEADER := 12
  const BUFFER := 2048

  // ---------- One's-complement sums ----------

  /** The sixteen-bit words of a buffer, read little-endian as the code reads them; an odd byte counts alone. */
  function Words(b: Text): nat
    decreases |b|
  {
    if b == [] then 0
    else if |b| == 1 then b[0]
    else b[0] as int + 256 * (b[1] as int) + Words(b[2..])
  }

  /** The same in network byte order, an odd byte padded with zero, as RFC 1071 section 1 has it. */
  function NetworkWords(b: Text): nat
    decreases |b|
  {
    if b == [] then 0
    else if |b| == 1 then 256 * (b[0] as int)
    else 256 * (b[0] as int) + b[1] as int + NetworkWords(b[2..])
  }

  /** The end-around carry. */
  function Fold(n: nat): (r: nat)
    ensures r < 65536
    ensures r % 65535 == n % 65535
    ensures r == 0 <==> n == 0
    decreases n
  {
    if n < 65536 then n
    else
      CarryKeeps(n);
      Fold(n % 65536 + n / 65536)
  }

  lemma CarryKeeps(n: nat)
    ensures (n % 65536 + n / 65536) % 65535 == n % 65535
    ensures n >= 65536 ==> 0 < n % 65536 + n / 65536 < n
  {
    var h, l := n / 65536, n % 65536;
    assert n == 65535 * h + (h + l);
    ModShift(h + l, h);
  }

  lemma ModShift(a: nat, k: nat)
    ensures (a + 65535 * k) % 65535 == a % 65535
    decreases k
  {
    if k > 0 {
      ModShift(a, k - 1);
      var m := a + 65535 * (k - 1);
      assert (m + 65535) % 65535 == m % 65535;
    }
  }

  /** The checksum a buffer should carry, or zero if it carries the right one. */
  function Sum(b: Text): (r: nat)
    ensures r < 65536
  {
    65535 - Fold(Words(b))
  }

  function NetworkSum(b: Text): nat {
    65535 - Fold(NetworkWords(b))
  }

  /** Reading the words the other way round multiplies the sum by 256, modulo 65535. */
  lemma {:induction false} ByteOrder(b: Text) returns (k: nat)
    ensures NetworkWords(b) + 65535 * k == 256 * Words(b)
    decreases |b|
  {
    if |b| <= 1 {
      k := 0;
    } else {
      var rest := ByteOrder(b[2..]);
      k := rest + b[1] as int;
    }
  }

  /** The check succeeds in one byte order exactly when it does in the other. */
  lemma SumsAgree(b: Text)
    ensures Sum(b) == 0 <==> NetworkSum(b) == 0
  {
    var k := ByteOrder(b);
    NetworkPositive(b);
    hide Words;
    hide NetworkWords;
    hide Fold;
    if Sum(b) == 0 {
      TimesKeepsZero(Words(b), NetworkWords(b), k);
    }
    if NetworkSum(b) == 0 {
      // 256 times 256 is congruent to one.
      var w, n := Words(b), NetworkWords(b);
      assert w + 65535 * w == 256 * (256 * w) == 256 * n + 65535 * (256 * k);
      FullFold(n);
      ZeroBack(w, n, k);
    }
  }

  lemma FullFold(n: nat)
    ensures Fold(n) == 65535 <==> n > 0 && n % 65535 == 0
  {
  }

  lemma TimesKeepsZero(w: nat, n: nat, k: nat)
    requires n + 65535 * k == 256 * w && Fold(w) == 65535 && (n == 0 <==> w == 0)
    ensures Fold(n) == 65535
  {
    FullFold(w);
    var q := w / 65535;
    assert w == 65535 * q;
    MultipleFolds(n, 256 * q - k);
  }

  lemma ZeroBack(w: nat, n: nat, k: nat)
    requires w + 65535 * w == 256 * n + 65535 * (256 * k) && n > 0 && n % 65535 == 0 && w > 0
    ensures Fold(w) == 65535
  {
    var q := n / 65535;
    assert n == 65535 * q;
    MultipleFolds(w, 256 * q + 256 * k - w);
  }

  lemma MultipleFolds(n: nat, k: int)
    requires n == 65535 * k && n > 0
    ensures Fold(n) == 65535
  {
    assert k > 0;
    ModShift(0, k);
  }

  lemma {:induction false} NetworkPositive(b: Text)
    ensures NetworkWords(b) == 0 <==> Words(b) == 0
    decreases |b|
  {
    if |b| >= 2 {
      NetworkPositive(b[2..]);
    }
  }

  /** The bytes of a sum in the other order. */
  function Swapped(n: nat): nat {
    256 * (n % 256) + n / 256
  }

  /** A sum in one byte order is the sum in the other, its two bytes exchanged (RFC 1071, section 2B). */
  lemma SumsSwap(b: Text)
    ensures NetworkSum(b) == Swapped(Sum(b))
  {
    var k := ByteOrder(b);
    NetworkPositive(b);
    var w, n := Words(b), NetworkWords(b);
    hide Words;
    hide NetworkWords;
    FoldsSwap(w, n, k);
    hide Fold;
    Complement(Fold(w));
  }

  lemma FoldsSwap(w: nat, n: nat, k: nat)
    requires n + 65535 * k == 256 * w && (n == 0 <==> w == 0)
    ensures Fold(n) == Swapped(Fold(w))
  {
    hide Fold;
    hide Swapped;
    var x, y := Fold(w), Fold(n);
    // y is congruent to n, n to 256 w, and 256 x to the exchanged bytes of x.
    var a := Quotient(w);
    var b := Quotient(n);
    var h := HighByte(x);
    Apart(y, Swapped(x), 256 * a - k - b + h);
  }

  lemma HighByte(x: nat) returns (h: nat)
    requires x <= 65535
    ensures 256 * x == 65535 * h + Swapped(x) && Swapped(x) <= 65535 && (Swapped(x) == 0 <==> x == 0)
    ensures Swapped(x) == 65535 <==> x == 65535
  {
    h := x / 256;
  }

  /** Two sums of at most sixteen bits that differ by a multiple of 65535 are the same, or one is zero. */
  lemma Apart(y: nat, z: nat, k: int)
    requires y <= 65535 && z <= 65535 && y - z == 65535 * k && (y == 0 <==> z == 0)
    ensures y == z
  {
  }

  /** How often the carry went round. */
  lemma Quotient(n: nat) returns (q: int)
    ensures n == Fold(n) + 65535 * q
  {
    q := n / 65535 - Fold(n) / 65535;
  }

  lemma Complement(x: nat)
    requires x <= 65535
    ensures 65535 - Swapped(x) == Swapped(65535 - x)
  {
    var h, l := x / 256, x % 256;
    assert 65535 - x == 256 * (255 - h) + (255 - l);
  }

  /** Bytes count by their places: the even ones 256 times. */
  lemma {:induction false} NetworkWordsSnoc(b: Text, x: byte)
    ensures NetworkWords([]) == 0
    ensures NetworkWords(b + [x]) == NetworkWords(b) + if |b| % 2 == 0 then 256 * (x as int) else x as int
    decreases |b|
  {
    if |b| >= 2 {
      assert (b + [x])[2..] == b[2..] + [x];
      NetworkWordsSnoc(b[2..], x);
    }
  }

  /** csum */
  method Csum(packet: Text) returns (sum: nat)
    ensures sum == Sum(packet)
  {
    var s: nat, i: nat := 0, 0;
    while |packet| - i > 1
      invariant i <= |packet| && Words(packet) == s + Words(packet[i..])
    {
      assert packet[i..][2..] == packet[i + 2..];
      s := s + (packet[i] as int + 256 * (packet[i + 1] as int));
      i := i + 2;
    }
    if |packet| - i > 0 {
      s := s + packet[i];
    }
    while s / 65536 != 0
      invariant Fold(s) == Fold(Words(packet))
      decreases s
    {
      CarryKeeps(s);
      s := s % 65536 + s / 65536;
    }
    return 65535 - s;
  }

  // ---------- The checksum field ----------

  /** Storing a checksum into a word that was zero adds it to the sum. */
  lemma {:induction false} WordsStore(b: Text, i: nat, c: nat)
    requires i % 2 == 0 && i + 1 < |b| && b[i] == 0 && b[i + 1] == 0 && c < 65536
    ensures Words(b[i := c % 256][i + 1 := c / 256]) == Words(b) + c
    decreases i
  {
    var after := b[i := c % 256][i + 1 := c / 256];
    if i > 0 {
      WordsStore(b[2..], i - 2, c);
      assert after[2..] == b[2..][i - 2 := c % 256][i - 1 := c / 256];
    } else {
      assert after[2..] == b[2..];
    }
  }

  /** A buffer that carries its own checksum passes the check. */
  lemma CarriesItsSum(b: Text, i: nat)
    requires i % 2 == 0 && i + 1 < |b| && b[i] == 0 && b[i + 1] == 0 && Words(b) > 0
    ensures Sum(b[i := Sum(b) % 256][i + 1 := Sum(b) / 256]) == 0
  {
    var w := Words(b);
    WordsStore(b, i, Sum(b));
    var n := w + Sum(b);
    // w is congruent to Fold(w), so the sum is congruent to 65535.
    var q := w / 65535;
    var r := w % 65535;
    assert Fold(w) == r || (Fold(w) == 65535 && r == 0);
    assert n == 65535 * q + r + 65535 - Fold(w);
    MultipleFolds(n, if Fold(w) == r then q + 1 else q);
  }

  // ---------- Packets ----------

  function Ihl(p: Text): nat
    requires |p| >= 20
  {
    4 * (p[0] as int % 16)
  }

  function TotLen(p: Text): nat
    requires |p| >= 20
  {
    256 * (p[2] as int) + p[3] as int
  }

  predicate IsTcp4(p: Text)
    requires |p| >= 20
  {
    p[0] / 16 == 4 && p[9] == IPPROTO_TCP
  }

  /** Both headers are inside the packet, and the packet inside the buffer. */
  predicate WellFormed(p: Text) {
    |p| >= 20 && 20 <= Ihl(p) && Ihl(p) + 20 <= TotLen(p) <= |p| && p[Ihl(p) + 12] / 16 >= 5
  }

  /** Where the TCP payload begins. */
  function DataOffset(p: Text): nat
    requires WellFormed(p)
  {
    Ihl(p) + 4 * (p[Ihl(p) + 12] / 16)
  }

  /** The pseudo header of RFC 9293 section 3.1, as struct PseudoHeader lays it out. */
  function Pseudo(p: Text): (r: Text)
    requires WellFormed(p)
    ensures |r| == PSEUDO_HEADER
  {
    var n := TotLen(p) - Ihl(p);
    p[12..16] + p[16..20] + [0, p[9], n / 256, n % 256]
  }

  /** What the checksum covers. */
  function Covered(p: Text): Text
    requires WellFormed(p)
  {
    Pseudo(p) + p[Ihl(p)..TotLen(p)]
  }

  function CheckAt(p: Text): nat
    requires |p| >= 20
  {
    Ihl(p) + 16
  }

  /** The number that two bytes are in network order. */
  function Be(p: Text, i: nat): nat
    requires i + 1 < |p|
  {
    256 * (p[i] as int) + p[i + 1] as int
  }

  /** What the sum of a packet adds to that of its segment, byte by byte: addresses, protocol and length. */
  lemma CoveredTotal(p: Text)
    requires WellFormed(p)
    ensures var h, n := 4 * (p[0] as int % 16), Be(p, 2);
            && 20 <= h <= n <= |p|
            && Covered(p) == p[12..20] + [0, p[9], (n - h) / 256, (n - h) % 256] + p[h..n]
            && NetworkWords(Covered(p))
               == Be(p, 12) + Be(p, 14) + Be(p, 16) + Be(p, 18) + p[9] as int + (n - h) + NetworkWords(p[h..n])
  {
    var h, n := 4 * (p[0] as int % 16), Be(p, 2);
    var c, segment: Text := Covered(p), p[h..n];
    assert c == p[12..20] + [0, p[9], (n - h) / 256, (n - h) % 256] + segment;
    SixWords(c, segment);
    hide NetworkWords;
    assert c[0] == p[12] && c[1] == p[13] && c[2] == p[14] && c[3] == p[15];
    assert c[4] == p[16] && c[5] == p[17] && c[6] == p[18] && c[7] == p[19];
    assert c[8] == 0 && c[9] == p[9] && 256 * (c[10] as int) + c[11] as int == n - h;
  }

  lemma SixWords(c: Text, segment: Text)
    requires |c| >= 12 && c[12..] == segment
    ensures NetworkWords(c) == Be(c, 0) + Be(c, 2) + Be(c, 4) + Be(c, 6) + Be(c, 8) + Be(c, 10) + NetworkWords(segment)
  {
    WordStep(c, 0);
    WordStep(c, 2);
    WordStep(c, 4);
    WordStep(c, 6);
    WordStep(c, 8);
    WordStep(c, 10);
    hide NetworkWords;
    assert c[0..] == c;
  }

  lemma WordStep(c: Text, i: nat)
    requires i + 2 <= |c|
    ensures NetworkWords(c[i..]) == Be(c, i) + NetworkWords(c[i + 2..])
  {
    assert c[i..][2..] == c[i + 2..];
  }

  /** TcpCsum */
  method TcpCsum(packet: array<byte>) returns (sum: nat)
    requires packet.Length >= 20
    requires packet[9] == IPPROTO_TCP && TotLen(packet[..]) < BUFFER ==> WellFormed(packet[..])
    ensures packet[9] != IPPROTO_TCP || TotLen(packet[..]) >= BUFFER ==> sum == 0
    ensures packet[9] == IPPROTO_TCP && TotLen(packet[..]) < BUFFER ==>
              && sum == Sum(Covered(packet[..])[28 := 0][29 := 0])
              && Swapped(sum) == NetworkSum(Covered(packet[..])[28 := 0][29 := 0])
  {
    var p := packet[..];
    if packet[9] != IPPROTO_TCP {
      return 0;
    }
    if TotLen(p) >= BUFFER {
      return 0;
    }
    var buffer := new byte[BUFFER];
    var n := TotLen(p) - Ihl(p);
    Copy(buffer, 0, Pseudo(p));
    Copy(buffer, PSEUDO_HEADER, p[Ihl(p)..TotLen(p)]);
    assert buffer[..PSEUDO_HEADER + n] == Covered(p);
    buffer[28], buffer[29] := 0, 0;
    assert buffer[..PSEUDO_HEADER + n] == Covered(p)[28 := 0][29 := 0];
    SumsSwap(buffer[..PSEUDO_HEADER + n]);
    sum := Csum(buffer[..PSEUDO_HEADER + n]);
  }

  method Copy(buffer: array<byte>, at: nat, bytes: Text)
    requires at + |bytes| <= buffer.Length
    modifies buffer
    ensures buffer[..at] == old(buffer[..at]) && buffer[at..at + |bytes|] == bytes
  {
    for i := 0 to |bytes|
      invariant buffer[..at] == old(buffer[..at]) && buffer[at..at + i] == bytes[..i]
    {
      buffer[at + i] := bytes[i];
      assert buffer[at..at + i + 1] == buffer[at..at + i] + [bytes[i]];
    }
  }

  /** Where the blanked bytes end: at most eight bytes of payload, none if there is no payload. */
  function BlankEnd(p: Text): nat
    requires WellFormed(p)
  {
    var off := DataOffset(p);
    if TotLen(p) <= off then off else if TotLen(p) < off + 8 then TotLen(p) else off + 8
  }

  /** Only the blanked bytes and the checksum may differ. */
  ghost predicate Untouched(p: Text, after: Text)
    requires WellFormed(p)
  {
    && |after| == |p|
    && (forall i :: 0 <= i < |p| && !(DataOffset(p) <= i < BlankEnd(p)) && i != CheckAt(p) && i != CheckAt(p) + 1 ==>
          after[i] == p[i])
    && (forall i :: DataOffset(p) <= i < BlankEnd(p) ==> after[i] == 0)
  }

  /**
    What rst_tcp_link promises, in the numbers of the two headers. Anything but IPv4 with TCP
    stays. Of the rest at most the first eight bytes of data become zero, nothing else changes
    but the checksum, and all that the checksum covers then adds up to a multiple of 65535 in
    network order; a packet of 2048 bytes or more gets no checksum instead.
   */
  ghost predicate Repairs(p: Text, after: Text)
    requires |p| >= 20
  {
    if 64 <= p[0] < 80 && p[9] == 6
    then
      var h, n := 4 * (p[0] as int - 64), Be(p, 2);
      && 20 <= h && h + 20 <= n <= |p| == |after|
      && Blanked(p, after, h, n) && if n < 2048 then AddsUp(after, h, n) else Be(after, h + 16) == 0
    else after == p
  }

  ghost predicate Blanked(p: Text, after: Text, h: nat, n: nat)
    requires h + 20 <= n <= |p| == |after|
  {
    var data := h + 4 * (p[h + 12] as int / 16);
    && (forall i :: 0 <= i < |p| && i != h + 16 && i != h + 17 && !(data <= i < data + 8 && i < n) ==> after[i] == p[i])
    && (forall i :: data <= i < data + 8 && i < n ==> after[i] == 0)
  }

  predicate AddsUp(p: Text, h: nat, n: nat)
    requires 20 <= h <= n <= |p|
  {
    (Be(p, 12) + Be(p, 14) + Be(p, 16) + Be(p, 18) + 6 + (n - h) + NetworkWords(p[h..n])) % 65535 == 0
  }

  lemma InNumbers(p: Text, after: Text)
    requires |p| >= 20 && |after| == |p| && (IsTcp4(p) ==> WellFormed(p))
    requires !IsTcp4(p) ==> after == p
    requires IsTcp4(p) ==> Untouched(p, after) && WellFormed(after)
    requires IsTcp4(p) ==> Ihl(after) == Ihl(p) && TotLen(after) == TotLen(p)
    requires IsTcp4(p) && TotLen(p) < BUFFER ==> NetworkSum(Covered(after)) == 0 && after[9] == p[9]
    requires IsTcp4(p) && TotLen(p) >= BUFFER ==> after[CheckAt(p)] == 0 && after[CheckAt(p) + 1] == 0
    ensures Repairs(p, after)
  {
    hide NetworkSum;
    hide Covered;
    hide AddsUp;
    hide Blanked;
    hide Untouched;
    if IsTcp4(p) {
      BlankedInNumbers(p, after);
      if TotLen(p) < BUFFER {
        AddsUpInNumbers(after);
      }
    }
  }

  lemma BlankedInNumbers(p: Text, after: Text)
    requires WellFormed(p) && IsTcp4(p) && Untouched(p, after)
    ensures Blanked(p, after, 4 * (p[0] as int - 64), Be(p, 2))
  {
  }

  lemma AddsUpInNumbers(p: Text)
    requires WellFormed(p) && NetworkSum(Covered(p)) == 0 && p[9] == 6
    ensures AddsUp(p, Ihl(p), TotLen(p))
  {
    CoveredTotal(p);
    FullFold(NetworkWords(Covered(p)));
    hide NetworkWords;
    hide Covered;
    hide Fold;
  }

  /** rst_tcp_link */
  method RstTcpLink(pkg: array<byte>)
    requires pkg.Length >= 20 && (IsTcp4(pkg[..]) ==> WellFormed(pkg[..]))
    modifies pkg
    ensures !IsTcp4(old(pkg[..])) ==> pkg[..] == old(pkg[..])
    ensures IsTcp4(old(pkg[..])) ==> Untouched(old(pkg[..]), pkg[..])
    ensures IsTcp4(old(pkg[..])) && TotLen(old(pkg[..])) < BUFFER ==>
              WellFormed(pkg[..]) && Sum(Covered(pkg[..])) == 0 && NetworkSum(Covered(pkg[..])) == 0
    ensures IsTcp4(old(pkg[..])) && TotLen(old(pkg[..])) >= BUFFER ==>
              pkg[CheckAt(old(pkg[..]))] == 0 && pkg[CheckAt(old(pkg[..])) + 1] == 0
    ensures Repairs(old(pkg[..]), pkg[..])
  {
    hide Repairs;
    hide Sum;
    hide NetworkSum;
    hide Covered;
    hide Pseudo;
    ghost var p: Text := pkg[..];
    if pkg[0] / 16 != 4 {
      InNumbers(p, p);
      return;
    }
    if pkg[9] != IPPROTO_TCP {
      InNumbers(p, p);
      return;
    }
    Blank(pkg);
    ghost var b: Text := pkg[..];
    SameHeaders(p, b);
    var at := CheckAt(pkg[..]);
    var sum := TcpCsum(pkg);
    pkg[at] := sum % 256;
    pkg[at + 1] := sum / 256;
    ghost var after: Text := pkg[..];
    assert after == b[at := sum % 256][at + 1 := sum / 256];
    SameHeaders(p, after);
    if TotLen(p) < BUFFER {
      Repaired(b, after, sum);
    }
    InNumbers(p, after);
  }

  /** The loop: it stops after the eighth byte. */
  method Blank(pkg: array<byte>)
    requires WellFormed(pkg[..])
    modifies pkg
    ensures Untouched(old(pkg[..]), pkg[..])
    ensures forall i :: 0 <= i < DataOffset(old(pkg[..])) && i < pkg.Length ==> pkg[i] == old(pkg[i])
  {
    ghost var p: Text := pkg[..];
    var offset, end := DataOffset(pkg[..]), TotLen(pkg[..]);
    var i := offset;
    while i < end
      invariant offset <= i <= BlankEnd(p) && i - offset <= 7
      invariant forall j :: 0 <= j < |p| ==> pkg[j] == if offset <= j < i then 0 else p[j]
    {
      pkg[i] := 0;
      i := i + 1;
      if i - 1 - offset > 6 {
        break;
      }
    }
    assert i == BlankEnd(p);
    assert forall j :: 0 <= j < |p| ==> pkg[..][j] == if offset <= j < i then 0 else p[j];
  }

  lemma SameHeaders(p: Text, after: Text)
    requires WellFormed(p) && |after| == |p|
    requires forall i :: 0 <= i < DataOffset(p) && i < |p| && i != CheckAt(p) && i != CheckAt(p) + 1 ==> after[i] == p[i]
    ensures WellFormed(after) && Ihl(after) == Ihl(p) && TotLen(after) == TotLen(p)
    ensures DataOffset(after) == DataOffset(p) && Pseudo(after) == Pseudo(p) && after[9] == p[9]
  {
    assert after[12..16] == p[12..16] && after[16..20] == p[16..20];
  }

  lemma Repaired(b: Text, after: Text, sum: nat)
    requires WellFormed(b) && WellFormed(after) && b[9] == IPPROTO_TCP
    requires Ihl(after) == Ihl(b) && TotLen(after) == TotLen(b) && Pseudo(after) == Pseudo(b)
    requires sum == Sum(Covered(b)[28 := 0][29 := 0])
    requires after == b[CheckAt(b) := sum % 256][CheckAt(b) + 1 := sum / 256]
    ensures Sum(Covered(after)) == 0 && NetworkSum(Covered(after)) == 0
  {
    var zeroed := Covered(b)[28 := 0][29 := 0];
    assert Covered(after) == zeroed[28 := sum % 256][29 := sum / 256] by {
      var seg: Text, n := b[Ihl(b)..TotLen(b)], Ihl(b);
      assert after[n..TotLen(b)] == seg[16 := sum % 256][17 := sum / 256];
    }
    assert zeroed[9] == IPPROTO_TCP;
    WordsPositive(zeroed, 9);
    CarriesItsSum(zeroed, 28);
    SumsAgree(Covered(after));
  }

  lemma {:induction false} WordsPositive(b: Text, i: nat)
    requires i < |b| && b[i] > 0
    ensures Words(b) > 0
    decreases i
  {
    if i >= 2 {
      WordsPositive(b[2..], i - 2);
    }
  }
}
