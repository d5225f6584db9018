/**
 From bytes to data codewords and back (section 7.4 of ISO/IEC 18004:2015): byte mode, error
 correction level M, versions 1 to 10.
 */
module QrData {
  import opened Bytes
  import opened Gf256
  import opened ReedSolomon

  datatype Group = Group(blocks: nat, dataCodewords: nat)
  datatype VersionSpec = VersionSpec(ecPerBlock: nat, groups: seq<Group>)

  const VERSIONS: seq<VersionSpec> := [
    VersionSpec(10, [Group(1, 16)]),
    VersionSpec(16, [Group(1, 28)]),
    VersionSpec(26, [Group(1, 44)]),
    VersionSpec(18, [Group(2, 32)]),
    VersionSpec(24, [Group(2, 43)]),
    VersionSpec(16, [Group(4, 27)]),
    VersionSpec(18, [Group(4, 31)]),
    VersionSpec(22, [Group(2, 38), Group(2, 39)]),
    VersionSpec(22, [Group(3, 36), Group(2, 37)]),
    VersionSpec(26, [Group(4, 43), Group(1, 44)])
  ]

  type Version = v: nat | 1 <= v <= 10 witness 1

  function Spec(v: Version): VersionSpec { VERSIONS[v - 1] }

  function GroupTotal(groups: seq<Group>): nat {
    if groups == [] then 0 else groups[0].blocks * groups[0].dataCodewords + GroupTotal(groups[1..])
  }

  function Capacity(v: Version): nat { GroupTotal(Spec(v).groups) }

  function LengthBits(v: Version): nat { if v < 10 then 8 else 16 }

  lemma CapacityTable(v: Version)
    ensures Capacity(v) == [16, 28, 44, 64, 86, 108, 124, 154, 182, 216][v - 1]
    ensures Capacity(v) <= 216 && (v < 10 ==> Capacity(v) <= 182)
  {}

  // ----- choosing a version

  /** A byte string fits a version when mode, length and bytes fill no more than its codewords. */
  predicate Fits(n: nat, v: Version) {
    4 + LengthBits(v) + 8 * n <= 8 * Capacity(v)
  }

  method VersionFor(byteLength: nat) returns (r: Option<Version>)
    ensures r.Some? ==> Fits(byteLength, r.value) && forall v: Version :: v < r.value ==> !Fits(byteLength, v)
    ensures r.None? <==> forall v: Version :: !Fits(byteLength, v)
    ensures r.None? <==> byteLength > 213
  {
    CapacityTable(10);
    var version: nat := 1;
    while version <= |VERSIONS|
      invariant 1 <= version <= 11
      invariant forall v: Version :: v < version ==> !Fits(byteLength, v)
    {
      var capacity := Capacity(version);
      var headerBits := 4 + (if version < 10 then 8 else 16);
      if (headerBits + 7) / 8 + byteLength <= capacity {
        CapacityTable(version);
        var found: Version := version;
        assert Fits(byteLength, found);
        return Some(found);
      }
      version := version + 1;
    }
    assert !Fits(byteLength, 10);
    return None;
  }

  // ----- bits

  function OctetBits(o: Octet): (bits: seq<bool>)
    ensures |bits| == 8
  {
    [(o.bits >> 7) & 1 == 1, (o.bits >> 6) & 1 == 1, (o.bits >> 5) & 1 == 1, (o.bits >> 4) & 1 == 1,
     (o.bits >> 3) & 1 == 1, (o.bits >> 2) & 1 == 1, (o.bits >> 1) & 1 == 1, o.bits & 1 == 1]
  }

  function ShiftIn(x: bv8, bit: bool): bv8 {
    (x << 1) | (if bit then 1 else 0)
  }

  /** Eight bits, most significant first, shifted into an octet. */
  function Pack(b: seq<bool>): Octet
    requires |b| == 8
  {
    Octet(ShiftIn(ShiftIn(ShiftIn(ShiftIn(ShiftIn(ShiftIn(ShiftIn(ShiftIn(0,
          b[0]), b[1]), b[2]), b[3]), b[4]), b[5]), b[6]), b[7]))
  }

  lemma PackOctetBits(o: Octet)
    ensures Pack(OctetBits(o)) == o
  {}

  lemma OctetBitsPack(b: seq<bool>)
    requires |b| == 8
    ensures OctetBits(Pack(b)) == b
  {}

  /** The low `width` bits of a number, most significant first. */
  function NumberBits(value: nat, width: nat): (bits: seq<bool>)
    ensures |bits| == width
  {
    if width == 0 then [] else NumberBits(value / 2, width - 1) + [value % 2 == 1]
  }

  function ToNumber(bits: seq<bool>): nat {
    if bits == [] then 0 else 2 * ToNumber(bits[..|bits| - 1]) + (if bits[|bits| - 1] then 1 else 0)
  }

  lemma {:induction false} NumberRoundTrip(value: nat, width: nat)
    requires value < Pow2(width)
    ensures ToNumber(NumberBits(value, width)) == value
  {
    if width > 0 {
      NumberRoundTrip(value / 2, width - 1);
      assert NumberBits(value, width)[..width - 1] == NumberBits(value / 2, width - 1);
    }
  }

  function AllBits(octets: Poly): (bits: seq<bool>)
    ensures |bits| == 8 * |octets|
  {
    if octets == [] then [] else AllBits(octets[..|octets| - 1]) + OctetBits(octets[|octets| - 1])
  }

  lemma {:induction false} AllBitsAt(octets: Poly, i: nat)
    requires i < |octets|
    ensures AllBits(octets)[8 * i..8 * i + 8] == OctetBits(octets[i])
  {
    hide OctetBits;
    var n := |octets| - 1;
    if i < n {
      AllBitsAt(octets[..n], i);
      assert AllBits(octets)[8 * i..8 * i + 8] == AllBits(octets[..n])[8 * i..8 * i + 8];
    }
  }

  lemma AllBitsLast(octets: Poly, o: Octet)
    ensures AllBits(octets + [o]) == AllBits(octets) + OctetBits(o)
  {
    hide OctetBits;
    assert (octets + [o])[..|octets|] == octets;
  }

  lemma {:induction false} AllBitsConcat(a: Poly, b: Poly)
    ensures AllBits(a + b) == AllBits(a) + AllBits(b)
  {
    hide OctetBits;
    if b == [] {
      assert a + b == a;
    } else {
      var n := |b| - 1;
      assert (a + b)[..|a| + n] == a + b[..n];
      AllBitsConcat(a, b[..n]);
    }
  }

  function PackAll(bits: seq<bool>): (octets: Poly)
    requires |bits| % 8 == 0
    ensures |octets| == |bits| / 8
  {
    if bits == [] then [] else PackAll(bits[..|bits| - 8]) + [Pack(bits[|bits| - 8..])]
  }

  lemma {:induction false} AllBitsPackAll(bits: seq<bool>)
    requires |bits| % 8 == 0
    ensures AllBits(PackAll(bits)) == bits
  {
    hide OctetBits, Pack;
    if bits != [] {
      var n := |bits| - 8;
      assert PackAll(bits) == PackAll(bits[..n]) + [Pack(bits[n..])];
      AllBitsPackAll(bits[..n]);
      OctetBitsPack(bits[n..]);
      AllBitsLast(PackAll(bits[..n]), Pack(bits[n..]));
      hide PackAll, AllBits;
      assert bits == bits[..n] + bits[n..];
    }
  }

  lemma {:induction false} PackAllBits(bytes: Poly)
    ensures PackAll(AllBits(bytes)) == bytes
  {
    hide OctetBits, Pack;
    if bytes != [] {
      var n := |bytes| - 1;
      PackAllBits(bytes[..n]);
      PackOctetBits(bytes[n]);
      assert AllBits(bytes)[..8 * n] == AllBits(bytes[..n]) && AllBits(bytes)[8 * n..] == OctetBits(bytes[n]);
    }
  }

  // ----- the data codewords

  const BYTE_MODE: seq<bool> := [false, true, false, false]

  /** Mode, length, content and terminator. */
  function Message(bytes: Poly, v: Version): seq<bool> {
    BYTE_MODE + NumberBits(|bytes|, LengthBits(v)) + AllBits(bytes) + [false, false, false, false]
  }

  /** The mode indicator of bytes is the number four in four bits. */
  lemma ModeIsFour()
    ensures BYTE_MODE == NumberBits(4, 4)
  {
    assert NumberBits(0, 1) == [false] && NumberBits(1, 2) == [false, true] && NumberBits(2, 3) == [false, true, false];
  }

  const PAD_FIRST := Octet(0xec)
  const PAD_SECOND := Octet(0x11)

  /** The two pad octets in turn, beginning with the first whatever came before. */
  function Pads(n: nat): (p: Poly)
    ensures |p| == n
  {
    seq(n, i requires 0 <= i < n => if i % 2 == 0 then PAD_FIRST else PAD_SECOND)
  }

  /** `value >> i`. */
  function ShiftRight(value: nat, i: nat): nat {
    if i == 0 then value else ShiftRight(value, i - 1) / 2
  }

  method PushNumber(bits: seq<bool>, value: nat, width: nat) returns (r: seq<bool>)
    ensures r == bits + NumberBits(value, width)
  {
    r := bits;
    for i := width downto 0
      invariant r == bits + NumberBits(ShiftRight(value, i), width - i)
    {
      r := r + [ShiftRight(value, i) % 2 == 1];
    }
  }

  method PadToOctet(bits: seq<bool>) returns (r: seq<bool>)
    ensures |r| % 8 == 0 && |bits| <= |r| < |bits| + 8
    ensures r == bits + seq(|r| - |bits|, _ => false)
  {
    r := bits;
    ghost var end := |bits| + (8 - |bits| % 8) % 8;
    assert end % 8 == 0;
    while |r| % 8 != 0
      invariant |bits| <= |r| <= end
      invariant r == bits + seq(|r| - |bits|, _ => false)
      decreases end - |r|
    {
      r := r + [false];
    }
  }

  method AppendPads(packed: Poly, capacity: nat) returns (codewords: Poly)
    requires |packed| <= capacity
    ensures codewords == packed + Pads(capacity - |packed|)
  {
    codewords := packed;
    var i := 0;
    while |codewords| < capacity
      invariant |codewords| <= capacity && i == |codewords| - |packed|
      invariant codewords == packed + Pads(i)
    {
      codewords := codewords + [if i % 2 == 0 then PAD_FIRST else PAD_SECOND];
      i := i + 1;
    }
  }

  lemma MessageSize(n: nat, v: Version)
    requires Fits(n, v)
    ensures (8 + LengthBits(v) + 8 * n) % 8 == 0
    ensures 8 + LengthBits(v) + 8 * n <= 8 * Capacity(v)
  {}

  method PushOctets(bits: seq<bool>, bytes: Poly) returns (r: seq<bool>)
    ensures r == bits + AllBits(bytes)
  {
    hide OctetBits;
    r := bits;
    for i := 0 to |bytes|
      invariant r == bits + AllBits(bytes[..i])
    {
      assert bytes[..i + 1][..i] == bytes[..i];
      r := r + OctetBits(bytes[i]);
    }
    assert bytes[..|bytes|] == bytes;
  }

  /** The mode, which is the number four in four bits, and the length. */
  method PushHeader(n: nat, v: Version) returns (bits: seq<bool>)
    ensures bits == BYTE_MODE + NumberBits(n, LengthBits(v))
  {
    ModeIsFour();
    hide NumberBits;
    bits := PushNumber([], 4, 4);
    bits := PushNumber(bits, n, LengthBits(v));
  }

  method DataCodewords(bytes: Poly, v: Version) returns (codewords: Poly)
    requires Fits(|bytes|, v)
    ensures |codewords| == Capacity(v)
    ensures |Message(bytes, v)| % 8 == 0
    ensures codewords == PackAll(Message(bytes, v)) + Pads(Capacity(v) - |Message(bytes, v)| / 8)
  {
    MessageSize(|bytes|, v);
    hide AllBits, NumberBits, Capacity, Fits;
    var capacity := Capacity(v);
    var bits := PushHeader(|bytes|, v);
    bits := PushOctets(bits, bytes);
    var room := capacity * 8 - |bits|;
    ghost var content := bits;
    for i := 0 to if room < 4 then room else 4
      invariant bits == content + seq(i, _ => false)
    {
      bits := bits + [false];
    }
    assert bits == Message(bytes, v);
    bits := PadToOctet(bits);
    assert bits == Message(bytes, v);
    codewords := PackBits(bits);
    codewords := AppendPads(codewords, capacity);
  }

  method PackOne(bits: seq<bool>) returns (octet: Octet)
    requires |bits| == 8
    ensures octet == Pack(bits)
  {
    var x: bv8 := 0;
    for j := 0 to 8
      invariant x == PackPrefix(bits, j)
    {
      x := ShiftIn(x, bits[j]);
    }
    PackPrefixFull(bits);
    octet := Octet(x);
  }

  lemma PackAllNext(bits: seq<bool>, i: nat)
    requires i % 8 == 0 && i + 8 <= |bits|
    ensures (i + 8) % 8 == 0
    ensures PackAll(bits[..i + 8]) == PackAll(bits[..i]) + [Pack(bits[i..i + 8])]
  {
    hide Pack;
    assert bits[..i + 8][..i] == bits[..i] && bits[..i + 8][i..] == bits[i..i + 8];
  }

  method PackBits(bits: seq<bool>) returns (codewords: Poly)
    requires |bits| % 8 == 0
    ensures codewords == PackAll(bits)
  {
    assert PackAll(bits[..0]) == [];
    hide Pack, PackAll;
    codewords := [];
    var i := 0;
    while i < |bits|
      invariant i % 8 == 0 && i <= |bits|
      invariant codewords == PackAll(bits[..i])
    {
      var octet := PackOne(bits[i..i + 8]);
      PackAllNext(bits, i);
      codewords := codewords + [octet];
      i := i + 8;
    }
    assert bits[..i] == bits;
  }

  ghost function PackPrefix(b: seq<bool>, n: nat): bv8
    requires n <= |b|
  {
    if n == 0 then 0 else ShiftIn(PackPrefix(b, n - 1), b[n - 1])
  }

  lemma PackPrefixFull(b: seq<bool>)
    requires |b| == 8
    ensures Octet(PackPrefix(b, 8)) == Pack(b)
  {
    hide ShiftIn;
    assert PackPrefix(b, 0) == 0 && PackPrefix(b, 1) == ShiftIn(0, b[0]);
    assert PackPrefix(b, 2) == ShiftIn(PackPrefix(b, 1), b[1]);
    assert PackPrefix(b, 3) == ShiftIn(PackPrefix(b, 2), b[2]);
    assert PackPrefix(b, 4) == ShiftIn(PackPrefix(b, 3), b[3]);
    assert PackPrefix(b, 5) == ShiftIn(PackPrefix(b, 4), b[4]);
    assert PackPrefix(b, 6) == ShiftIn(PackPrefix(b, 5), b[5]);
    assert PackPrefix(b, 7) == ShiftIn(PackPrefix(b, 6), b[6]);
  }

  // ----- the reader

  /** The n octets from a bit on, when there are so many. */
  function OctetsFrom(bits: seq<bool>, start: nat, n: nat): Option<Poly> {
    if |bits| < start + 8 * n then None else Some(PackAll(bits[start..start + 8 * n]))
  }

  /** What a scanner makes of the data codewords: byte mode, a length, and that many octets. */
  function Parse(codewords: Poly, v: Version): Option<Poly> {
    var bits := AllBits(codewords);
    var start := 4 + LengthBits(v);
    if |bits| < start || bits[..4] != BYTE_MODE then None
    else OctetsFrom(bits, start, ToNumber(bits[4..start]))
  }

  lemma FittingLength(n: nat, v: Version)
    requires Fits(n, v)
    ensures n < Pow2(LengthBits(v))
  {}

  /** The fields of a message, at the places the reader looks for them. */
  lemma MessageFields(bytes: Poly, v: Version, rest: seq<bool>)
    ensures var bits := Message(bytes, v) + rest;
            var start := 4 + LengthBits(v);
            && |bits| >= start + 8 * |bytes|
            && bits[..4] == BYTE_MODE
            && bits[4..start] == NumberBits(|bytes|, LengthBits(v))
            && bits[start..start + 8 * |bytes|] == AllBits(bytes)
  {
    hide NumberBits, AllBits;
  }

  /** Whatever follows the message, the reader recovers the bytes. */
  lemma {:induction false} ParseRecovers(bytes: Poly, v: Version, tail: Poly)
    requires Fits(|bytes|, v) && |Message(bytes, v)| % 8 == 0
    ensures Parse(PackAll(Message(bytes, v)) + tail, v) == Some(bytes)
  {
    hide Message, AllBits, PackAll, NumberBits, ToNumber, Fits;
    FittingLength(|bytes|, v);
    AllBitsConcat(PackAll(Message(bytes, v)), tail);
    AllBitsPackAll(Message(bytes, v));
    NumberRoundTrip(|bytes|, LengthBits(v));
    MessageFields(bytes, v, AllBits(tail));
    PackAllBits(bytes);
  }
}
