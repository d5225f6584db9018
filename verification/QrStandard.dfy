/**
 What the drawing has in common with the standard and not only with itself: the pictures of the masks, the words of
 the format and version fields, and the way bytes become bits.
 */
module QrStandard {
  import opened Bytes
  import opened Gf256
  import opened ReedSolomon
  import opened QrData
  import opened QrInterleave
  import opened QrLayout
  import opened QrDraw

  // ----- octets as bits

  lemma Halved(b: bv8)
    ensures (b >> 1) as int == b as int / 2
  {}

  lemma LowBit(b: bv8)
    ensures (b & 1 == 1) == (b as int % 2 == 1)
  {}

  /** The low `width` bits of an octet, most significant first, by shifting. */
  function ShiftedBits(b: bv8, width: nat): (bits: seq<bool>)
    ensures |bits| == width
  {
    if width == 0 then [] else ShiftedBits(b >> 1, width - 1) + [b & 1 == 1]
  }

  lemma {:induction false} ShiftedIsNumber(b: bv8, width: nat)
    ensures ShiftedBits(b, width) == NumberBits(b as int, width)
  {
    if width > 0 {
      Halved(b);
      LowBit(b);
      ShiftedIsNumber(b >> 1, width - 1);
    }
  }

  lemma ShiftedNext(b: bv8, c: bv8, width: nat)
    requires c == b >> 1
    ensures ShiftedBits(b, width + 1) == ShiftedBits(c, width) + [b & 1 == 1]
  {}

  lemma ShiftTwice(b: bv8)
    ensures (b >> 1) >> 1 == b >> 2 && (b >> 2) >> 1 == b >> 3 && (b >> 3) >> 1 == b >> 4 && (b >> 4) >> 1 == b >> 5
    ensures (b >> 5) >> 1 == b >> 6 && (b >> 6) >> 1 == b >> 7
  {}

  lemma Listed8(a: bool, b: bool, c: bool, d: bool, e: bool, f: bool, g: bool, h: bool)
    ensures ((((((([] + [a]) + [b]) + [c]) + [d]) + [e]) + [f]) + [g]) + [h] == [a, b, c, d, e, f, g, h]
  {}

  lemma ShiftedOctet(b: bv8)
    ensures ShiftedBits(b, 8) == OctetBits(Octet(b))
  {
    ShiftTwice(b);
    var c1, c2, c3, c4, c5, c6, c7 := b >> 1, b >> 2, b >> 3, b >> 4, b >> 5, b >> 6, b >> 7;
    assert ShiftedBits(c7 >> 1, 0) == [];
    ShiftedNext(c7, c7 >> 1, 0);
    ShiftedNext(c6, c7, 1);
    ShiftedNext(c5, c6, 2);
    ShiftedNext(c4, c5, 3);
    ShiftedNext(c3, c4, 4);
    ShiftedNext(c2, c3, 5);
    ShiftedNext(c1, c2, 6);
    ShiftedNext(b, c1, 7);
    hide ShiftedBits;
    Listed8(c7 & 1 == 1, c6 & 1 == 1, c5 & 1 == 1, c4 & 1 == 1, c3 & 1 == 1, c2 & 1 == 1, c1 & 1 == 1, b & 1 == 1);
  }

  /** The eight bits of an octet, most significant first, stand for its value. */
  lemma OctetBitsAreItsNumber(o: Octet)
    ensures OctetBits(o) == NumberBits(Index(o), 8)
  {
    ShiftedOctet(o.bits);
    ShiftedIsNumber(o.bits, 8);
    hide OctetBits, NumberBits, ShiftedBits;
  }

  // ----- masks

  lemma ProductParity(r: nat, c: nat)
    ensures r * c % 2 == (if r % 2 == 1 && c % 2 == 1 then 1 else 0)
  {
    var q, a := r / 2, r % 2;
    assert r * c == 2 * (q * c) + a * c;
    if a == 0 { assert a * c == 0; } else { assert a * c == c; }
  }

  lemma ProductThirds(r: nat, c: nat)
    ensures r * c % 3 == (r % 3) * (c % 3) % 3
  {
    var q, a, p, b := r / 3, r % 3, c / 3, c % 3;
    assert r * c == 3 * (q * c) + a * c;
    assert a * c == 3 * (a * p) + a * b;
    assert r * c == 3 * (q * c + a * p) + a * b;
  }

  lemma Residues(x: nat)
    ensures x % 6 % 2 == x % 2 && x % 6 % 3 == x % 3
  {
    var q, a := x / 6, x % 6;
    Multiple2(3 * q, a);
    Multiple3(2 * q, a);
    assert x == 6 * q + a;
  }

  lemma Multiple2(k: nat, a: nat)
    ensures (2 * k + a) % 2 == a % 2
  {}

  lemma Multiple3(k: nat, a: nat)
    ensures (3 * k + a) % 3 == a % 3
  {}

  lemma SumResidues(r: nat, c: nat)
    ensures (r + c) % 2 == (r % 6 + c % 6) % 2 && (r + c) % 3 == (r % 6 + c % 6) % 3
  {
    var q, a, p, b := r / 6, r % 6, c / 6, c % 6;
    Multiple2(3 * q + 3 * p, a + b);
    Multiple3(2 * q + 2 * p, a + b);
    assert r + c == 6 * q + 6 * p + (a + b);
  }

  lemma ProductResidues(r: nat, c: nat)
    ensures r * c % 2 == (r % 6) * (c % 6) % 2 && r * c % 3 == (r % 6) * (c % 6) % 3
  {
    Residues(r);
    Residues(c);
    ProductParity(r, c);
    ProductParity(r % 6, c % 6);
    ProductThirds(r, c);
    ProductThirds(r % 6, c % 6);
  }

  function Height(mask: Mask): nat { if mask == 4 then 4 else 6 }

  /** The rows of a mask, six cells of each, `#` where it inverts. */
  function Picture(mask: Mask, row: nat): (cells: string)
    requires row < Height(mask)
    ensures |cells| == 6
  {
    match mask
    case 0 =>
      if row == 0 || row == 2 || row == 4 then "#.#.#."
      else ".#.#.#"
    case 1 =>
      if row == 0 || row == 2 || row == 4 then "######"
      else "......"
    case 2 =>
      "#..#.."
    case 3 =>
      if row == 0 || row == 3 then "#..#.."
      else if row == 1 || row == 4 then "..#..#"
      else ".#..#."
    case 4 =>
      if row == 0 || row == 1 then "###..."
      else "...###"
    case 5 =>
      if row == 0 then "######"
      else if row == 1 || row == 5 then "#....."
      else if row == 2 || row == 4 then "#..#.."
      else "#.#.#."
    case 6 =>
      if row == 0 then "######"
      else if row == 1 then "###..."
      else if row == 2 then "##.##."
      else if row == 3 then "#.#.#."
      else if row == 4 then "#.##.#"
      else "#...##"
    case _ =>
      if row == 0 then "#.#.#."
      else if row == 1 then "...###"
      else if row == 2 then "#...##"
      else if row == 3 then ".#.#.#"
      else if row == 4 then "###..."
      else ".###.."
  }

  lemma Tile0(a: nat, b: nat)
    requires a < 6 && b < 6
    ensures Masked(0, a, b) <==> Picture(0, a)[b] == '#'
  {}

  lemma Tile1(a: nat, b: nat)
    requires a < 6 && b < 6
    ensures Masked(1, a, b) <==> Picture(1, a)[b] == '#'
  {}

  lemma Tile2(a: nat, b: nat)
    requires a < 6 && b < 6
    ensures Masked(2, a, b) <==> Picture(2, a)[b] == '#'
  {}

  lemma Tile3(a: nat, b: nat)
    requires a < 6 && b < 6
    ensures Masked(3, a, b) <==> Picture(3, a)[b] == '#'
  {}

  lemma Tile4(a: nat, b: nat)
    requires a < 4 && b < 6
    ensures Masked(4, a, b) <==> Picture(4, a)[b] == '#'
  {}

  lemma Tile5(a: nat, b: nat)
    requires a < 6 && b < 6
    ensures Masked(5, a, b) <==> Picture(5, a)[b] == '#'
  {}

  lemma Tile6(a: nat, b: nat)
    requires a < 6 && b < 6
    ensures Masked(6, a, b) <==> Picture(6, a)[b] == '#'
  {
    assert b == 0 || b == 1 || b == 2 || b == 3 || b == 4 || b == 5;
    assert a == 0 || a == 1 || a == 2 || a == 3 || a == 4 || a == 5;
  }

  lemma Tile7(a: nat, b: nat)
    requires a < 6 && b < 6
    ensures Masked(7, a, b) <==> Picture(7, a)[b] == '#'
  {
    Row70(b); Row71(b); Row72(b); Row73(b); Row74(b); Row75(b);
    assert a == 0 || a == 1 || a == 2 || a == 3 || a == 4 || a == 5;
    hide Masked, Picture;
  }

  lemma Row70(b: nat)
    requires b < 6
    ensures Masked(7, 0, b) <==> Picture(7, 0)[b] == '#'
  {
    assert b == 0 || b == 1 || b == 2 || b == 3 || b == 4 || b == 5;
  }

  lemma Row71(b: nat)
    requires b < 6
    ensures Masked(7, 1, b) <==> Picture(7, 1)[b] == '#'
  {
    assert b == 0 || b == 1 || b == 2 || b == 3 || b == 4 || b == 5;
  }

  lemma Row72(b: nat)
    requires b < 6
    ensures Masked(7, 2, b) <==> Picture(7, 2)[b] == '#'
  {
    assert b == 0 || b == 1 || b == 2 || b == 3 || b == 4 || b == 5;
  }

  lemma Row73(b: nat)
    requires b < 6
    ensures Masked(7, 3, b) <==> Picture(7, 3)[b] == '#'
  {
    assert b == 0 || b == 1 || b == 2 || b == 3 || b == 4 || b == 5;
  }

  lemma Row74(b: nat)
    requires b < 6
    ensures Masked(7, 4, b) <==> Picture(7, 4)[b] == '#'
  {
    assert b == 0 || b == 1 || b == 2 || b == 3 || b == 4 || b == 5;
  }

  lemma Row75(b: nat)
    requires b < 6
    ensures Masked(7, 5, b) <==> Picture(7, 5)[b] == '#'
  {
    assert b == 0 || b == 1 || b == 2 || b == 3 || b == 4 || b == 5;
  }

  /** A mask is the repetition of its picture. */
  lemma MaskIsPicture(mask: Mask, row: nat, column: nat)
    ensures Masked(mask, row, column) <==> Picture(mask, row % Height(mask))[column % 6] == '#'
  {
    var a, b := row % 6, column % 6;
    hide Picture;
    match mask
    case 0 => SumResidues(row, column); Tile0(a, b);
    case 1 => Residues(row); Tile1(a, b);
    case 2 => Residues(column); Tile2(a, b);
    case 3 => SumResidues(row, column); Tile3(a, b);
    case 4 => Quarters(row, column); Tile4(row % 4, b);
    case 5 => ProductResidues(row, column); Tile5(a, b);
    case 6 => ProductResidues(row, column); Tile6(a, b);
    case _ => SumResidues(row, column); ProductResidues(row, column); Tile7(a, b);
  }

  lemma Quarters(row: nat, column: nat)
    ensures (row / 2 + column / 3) % 2 == (row % 4 / 2 + column % 6 / 3) % 2
  {
    HalfOf(row / 4, row % 4);
    ThirdOf(column / 6, column % 6);
    Multiple2(row / 4 + column / 6, row % 4 / 2 + column % 6 / 3);
  }

  lemma HalfOf(q: nat, a: nat)
    ensures (4 * q + a) / 2 == 2 * q + a / 2
  {}

  lemma ThirdOf(q: nat, a: nat)
    ensures (6 * q + a) / 3 == 2 * q + a / 3
  {}

  // ----- and by how neighbouring cells relate

  lemma Chequered(r: nat, c: nat)
    ensures Masked(0, 0, 0) && Masked(0, r + 1, c) != Masked(0, r, c) && Masked(0, r, c + 1) != Masked(0, r, c)
  {}

  lemma Rows(r: nat, c: nat)
    ensures Masked(1, 0, c) && Masked(1, r, c + 1) == Masked(1, r, c) && Masked(1, r + 1, c) != Masked(1, r, c)
  {}

  lemma Columns3(r: nat, c: nat)
    ensures Masked(2, r, 0) && !Masked(2, r, 1) && !Masked(2, r, 2)
    ensures Masked(2, r + 1, c) == Masked(2, r, c) && Masked(2, r, c + 3) == Masked(2, r, c)
  {}

  lemma Diagonals(r: nat, c: nat)
    ensures Masked(3, 0, c) == Masked(2, 0, c) && Masked(3, r + 1, c) == Masked(3, r, c + 1)
  {}

  lemma Blocks(r: nat, c: nat)
    ensures r < 2 && c < 3 ==> Masked(4, r, c)
    ensures Masked(4, r + 2, c) != Masked(4, r, c) && Masked(4, r, c + 3) != Masked(4, r, c)
  {
    assert (r + 2) / 2 == r / 2 + 1 && (c + 3) / 3 == c / 3 + 1;
  }

  // ----- the words

  lemma FormatWordTable()
    ensures FormatWord(0) == 0x5412 && FormatWord(1) == 0x5125 && FormatWord(2) == 0x5e7c && FormatWord(3) == 0x5b4b
    ensures FormatWord(4) == 0x45f9 && FormatWord(5) == 0x40ce && FormatWord(6) == 0x4f97 && FormatWord(7) == 0x4aa0
  {}

  /** The format words of level M. */
  lemma FormatWords(mask: Mask)
    ensures FormatBits(mask) == [0x5412, 0x5125, 0x5e7c, 0x5b4b, 0x45f9, 0x40ce, 0x4f97, 0x4aa0][mask]
  {
    FormatWordTable();
    hide FormatWord;
    assert mask == 0 || mask == 1 || mask == 2 || mask == 3 || mask == 4 || mask == 5 || mask == 6 || mask == 7;
  }

  lemma VersionStep(value: bv32, i: nat)
    requires 12 <= i <= 17
    ensures VersionRemainder(value, i)
         == VersionRemainder(if (value >> i) & 1 == 1 then value ^ (VERSION_GENERATOR << (i - 12)) else value, i - 1)
    ensures VersionRemainder(value, 11) == value
  {}

  lemma VersionWord7()
    ensures VersionBits(7) == 0x07c94
  {
    VersionStep(0x7000, 17);
    VersionStep(0x7000, 16);
    VersionStep(0x7000, 15);
    VersionStep(0x7000, 14);
    VersionStep(0xc94, 13);
    VersionStep(0xc94, 12);
    VersionStep(0xc94, 12);
    hide VersionRemainder;
    assert 7 as bv32 == 7;
  }

  lemma VersionWord8()
    ensures VersionBits(8) == 0x085bc
  {
    VersionStep(0x8000, 17);
    VersionStep(0x8000, 16);
    VersionStep(0x8000, 15);
    VersionStep(0x7928, 14);
    VersionStep(0x5bc, 13);
    VersionStep(0x5bc, 12);
    VersionStep(0x5bc, 12);
    hide VersionRemainder;
    assert 8 as bv32 == 8;
  }

  lemma VersionWord9()
    ensures VersionBits(9) == 0x09a99
  {
    VersionStep(0x9000, 17);
    VersionStep(0x9000, 16);
    VersionStep(0x9000, 15);
    VersionStep(0x6928, 14);
    VersionStep(0x15bc, 13);
    VersionStep(0x15bc, 12);
    VersionStep(0xa99, 12);
    hide VersionRemainder;
    assert 9 as bv32 == 9;
  }

  lemma VersionWord10()
    ensures VersionBits(10) == 0x0a4d3
  {
    VersionStep(0xa000, 17);
    VersionStep(0xa000, 16);
    VersionStep(0xa000, 15);
    VersionStep(0x5928, 14);
    VersionStep(0x25bc, 13);
    VersionStep(0x1bf6, 12);
    VersionStep(0x4d3, 12);
    hide VersionRemainder;
    assert 10 as bv32 == 10;
  }

  /** The version words, which only versions from seven on carry. */
  lemma VersionWords(v: Version)
    requires v >= 7
    ensures VersionBits(v) == [0x07c94, 0x085bc, 0x09a99, 0x0a4d3][v - 7]
  {
    VersionWord7();
    VersionWord8();
    VersionWord9();
    VersionWord10();
    hide VersionBits;
  }

  /** The format field of each mask as it is printed in the standard, most significant bit first. */
  function FormatField(mask: Mask): (field: string)
    ensures |field| == 15
  {
    match mask
    case 0 => "101010000010010"
    case 1 => "101000100100101"
    case 2 => "101111001111100"
    case 3 => "101101101001011"
    case 4 => "100010111111001"
    case 5 => "100000011001110"
    case 6 => "100111110010111"
    case _ => "100101010100000"
  }

  function VersionField(v: Version): (field: string)
    requires v >= 7
    ensures |field| == 18
  {
    match v
    case 7 => "000111110010010100"
    case 8 => "001000010110111100"
    case 9 => "001001101010011001"
    case _ => "001010010011010011"
  }

  /** The cells of the format areas show that field, bit 0 being its last. */
  lemma FormatBitIs(mask: Mask, i: nat)
    requires i < 15
    ensures FormatBit(mask, i) <==> FormatField(mask)[14 - i] == '1'
  {
    FormatWords(mask);
    hide FormatBits;
    match mask
    case 0 => FormatRow0(i);
    case 1 => FormatRow1(i);
    case 2 => FormatRow2(i);
    case 3 => FormatRow3(i);
    case 4 => FormatRow4(i);
    case 5 => FormatRow5(i);
    case 6 => FormatRow6(i);
    case _ => FormatRow7(i);
  }

  lemma FormatRow0(i: nat)
    requires i < 15
    ensures (0x5412 as bv16 >> i) & 1 == 1 <==> "101010000010010"[14 - i] == '1'
  {}

  lemma FormatRow1(i: nat)
    requires i < 15
    ensures (0x5125 as bv16 >> i) & 1 == 1 <==> "101000100100101"[14 - i] == '1'
  {}

  lemma FormatRow2(i: nat)
    requires i < 15
    ensures (0x5e7c as bv16 >> i) & 1 == 1 <==> "101111001111100"[14 - i] == '1'
  {}

  lemma FormatRow3(i: nat)
    requires i < 15
    ensures (0x5b4b as bv16 >> i) & 1 == 1 <==> "101101101001011"[14 - i] == '1'
  {}

  lemma FormatRow4(i: nat)
    requires i < 15
    ensures (0x45f9 as bv16 >> i) & 1 == 1 <==> "100010111111001"[14 - i] == '1'
  {}

  lemma FormatRow5(i: nat)
    requires i < 15
    ensures (0x40ce as bv16 >> i) & 1 == 1 <==> "100000011001110"[14 - i] == '1'
  {}

  lemma FormatRow6(i: nat)
    requires i < 15
    ensures (0x4f97 as bv16 >> i) & 1 == 1 <==> "100111110010111"[14 - i] == '1'
  {}

  lemma FormatRow7(i: nat)
    requires i < 15
    ensures (0x4aa0 as bv16 >> i) & 1 == 1 <==> "100101010100000"[14 - i] == '1'
  {}

  lemma VersionBitIs(v: Version, i: nat)
    requires v >= 7 && i < 18
    ensures VersionBit(v, i) <==> VersionField(v)[17 - i] == '1'
  {
    VersionWords(v);
    hide VersionBits;
    match v
    case 7 => VersionRow7(i);
    case 8 => VersionRow8(i);
    case 9 => VersionRow9(i);
    case _ => VersionRow10(i);
  }

  lemma VersionRow7(i: nat)
    requires i < 18
    ensures (0x07c94 as bv32 >> i) & 1 == 1 <==> "000111110010010100"[17 - i] == '1'
  {}

  lemma VersionRow8(i: nat)
    requires i < 18
    ensures (0x085bc as bv32 >> i) & 1 == 1 <==> "001000010110111100"[17 - i] == '1'
  {}

  lemma VersionRow9(i: nat)
    requires i < 18
    ensures (0x09a99 as bv32 >> i) & 1 == 1 <==> "001001101010011001"[17 - i] == '1'
  {}

  lemma VersionRow10(i: nat)
    requires i < 18
    ensures (0x0a4d3 as bv32 >> i) & 1 == 1 <==> "001010010011010011"[17 - i] == '1'
  {}

  // ----- alignment patterns

  /** The centres run from the timing line to seven cells before the far edge, with a third midway from version 7 on. */
  lemma AlignmentCentres(v: Version)
    ensures var c, last := Centres(v), Size(v) - 7;
            c == if v == 1 then [] else if v < 7 then [6, last] else [6, (6 + last) / 2, last]
  {}

  /** Of the squares on these centres only the three that would meet a finder are left out. */
  lemma AlignmentSkips(v: Version, i: nat, j: nat)
    requires i < |Centres(v)| && j < |Centres(v)|
    ensures var last := |Centres(v)| - 1;
            NearFinder(Size(v), Centres(v)[i], Centres(v)[j])
            <==> (i == 0 && j == 0) || (i == 0 && j == last) || (i == last && j == 0)
  {
    AlignmentCentres(v);
    hide Centres;
  }

  /** The numbers of codewords and of blocks. */
  lemma BlockTable(v: Version)
    ensures TotalCodewords(v) == [26, 44, 70, 100, 134, 172, 196, 242, 292, 346][v - 1]
    ensures |BlockLengths(v)| == [1, 1, 1, 2, 2, 4, 4, 4, 5, 5][v - 1]
  {}

  lemma SmallBlocks(v: Version)
    requires v < 8
    ensures var k := |BlockLengths(v)|; k > 0 && Capacity(v) % k == 0 && BlockLengths(v) == seq(k, _ => Capacity(v) / k)
  {}

  lemma LargeBlocks(v: Version)
    requires v >= 8
    ensures BlockLengths(v) == if v == 8 then [38, 38, 39, 39] else if v == 9 then [36, 36, 36, 37, 37]
                               else [43, 43, 43, 43, 44]
  {}

  /** The data is shared out evenly, the longer blocks last. */
  lemma BlocksAreEven(v: Version, i: nat)
    requires i < |BlockLengths(v)|
    ensures var k := |BlockLengths(v)|;
            BlockLengths(v)[i] == Capacity(v) / k + if i < k - Capacity(v) % k then 0 else 1
  {
    CapacityTable(v);
    if v < 8 { SmallBlocks(v); } else { LargeBlocks(v); }
    hide BlockLengths, Capacity;
  }

  /** How many bytes each version takes at level M. */
  lemma ByteCapacities(n: nat, v: Version)
    ensures Fits(n, v) <==> n <= [14, 26, 42, 62, 84, 106, 122, 152, 180, 213][v - 1]
  {
    CapacityTable(v);
    hide Capacity;
  }

  // ----- and what is drawn with them

  /** A data cell shows its bit of the stream, most significant of each octet first, inverted where the picture says. */
  lemma DataCellIsStandard(grid: seq<seq<Cell>>, v: Version, codewords: Poly, mask: Mask, i: nat)
    requires Drawn(grid, v, codewords, mask) && i < |DataCells(v)| && i / 8 < |codewords|
    ensures var p := DataCells(v)[i];
            var bit := NumberBits(Index(codewords[i / 8]), 8)[i % 8];
            && p.row < Size(v) && p.column < Size(v)
            && (grid[p.row][p.column].dark <==> (bit != (Picture(mask, p.row % Height(mask))[p.column % 6] == '#')))
  {
    var p := DataCells(v)[i];
    OctetBitsAreItsNumber(codewords[i / 8]);
    MaskIsPicture(mask, p.row, p.column);
    hide DataCells, Masked, Picture, NumberBits, OctetBits, Reserved, FunctionDark;
  }

  /** The pad octets by their values. */
  lemma PadValues(n: nat, i: nat)
    requires i < n
    ensures Index(Pads(n)[i]) == if i % 2 == 0 then 236 else 17
  {}
}
