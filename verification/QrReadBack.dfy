/**
 The round trip: what a scanner following the standard reads from a drawn matrix is the byte string
 that was encoded. The reader knows only the matrix; it takes the version from the size and the
 mask from the format information.
 */
module QrReadBack {
  import opened Bytes
  import opened Gf256
  import opened ReedSolomon
  import opened QrData
  import opened QrInterleave
  import opened QrLayout
  import opened QrDraw
  import opened CodeDistance

  type Matrix = seq<seq<bool>>

  predicate IsSquare(m: Matrix, n: nat) {
    |m| == n && forall y :: 0 <= y < n ==> |m[y]| == n
  }

  function Dark(m: Matrix, p: Pos): bool {
    p.row < |m| && p.column < |m[p.row]| && m[p.row][p.column]
  }

  // ----- the reader

  /** The mask number stands in bits 12 to 10 of the format word, the outer two of them inverted. */
  function ReadMask(m: Matrix): Mask {
    (if Dark(m, FirstCopy()[12]) then 0 else 4)
    + (if Dark(m, FirstCopy()[11]) then 2 else 0)
    + (if Dark(m, FirstCopy()[10]) then 0 else 1)
  }

  /** The first n octets' worth of bits along the data cells, with the mask taken off. */
  function ReadBits(m: Matrix, cells: seq<Pos>, mask: Mask, n: nat): (bits: seq<bool>)
    requires 8 * n <= |cells|
    ensures |bits| == 8 * n && |bits| % 8 == 0
  {
    seq(8 * n, i requires 0 <= i < 8 * n => Dark(m, cells[i]) != Masked(mask, cells[i].row, cells[i].column))
  }

  function Read(m: Matrix): Option<Poly> {
    var n := |m|;
    if n < 21 || n > 57 || (n - 17) % 4 != 0 || !IsSquare(m, n) then None
    else
      ReadVersion(m, (n - 17) / 4)
  }

  function ReadVersion(m: Matrix, v: Version): Option<Poly> {
    Parse(ReadData(StreamOf(m, v, ReadMask(m)), v), v)
  }

  /** The codewords along the data cells, with a mask taken off. */
  function StreamOf(m: Matrix, v: Version, mask: Mask): Poly {
    RoomForCodewords(v);
    PackAll(ReadBits(m, DataCells(v), mask, TotalCodewords(v)))
  }

  // ----- what the writer leaves for it

  /** The check bits and the fixed pattern leave the data bits readable. */
  lemma DataBits(data: bv16)
    requires data < 8
    ensures (FormatWord(data) >> 12) & 1 == (data >> 2) ^ 1
    ensures (FormatWord(data) >> 11) & 1 == (data >> 1) & 1
    ensures (FormatWord(data) >> 10) & 1 == (data & 1) ^ 1
  {}

  lemma MaskBits(mask: Mask)
    ensures FormatBit(mask, 12) == (mask < 4)
    ensures FormatBit(mask, 11) == (mask % 4 >= 2)
    ensures FormatBit(mask, 10) == (mask % 2 == 0)
  {
    hide FormatWord;
    assert mask == 0 || mask == 1 || mask == 2 || mask == 3 || mask == 4 || mask == 5 || mask == 6 || mask == 7;
    DataBits(0); DataBits(1); DataBits(2); DataBits(3); DataBits(4); DataBits(5); DataBits(6); DataBits(7);
  }

  function DarkMatrix(grid: seq<seq<Cell>>): Matrix {
    seq(|grid|, y requires 0 <= y < |grid| =>
      seq(|grid[y]|, x requires 0 <= x < |grid[y]| => grid[y][x].dark))
  }

  lemma {:induction false} FormatPlaces(v: Version, mask: Mask, i: nat)
    requires 10 <= i <= 12
    ensures var p := FirstCopy()[i];
            && Reserved(v, p) && p.row < Size(v) && p.column < Size(v)
            && FunctionDark(v, mask, p) == FormatBit(mask, i)
  {
    hide FormatBit, VersionBit;
  }

  lemma {:induction false} FormatIsRead(grid: seq<seq<Cell>>, v: Version, codewords: Poly, mask: Mask, i: nat)
    requires Drawn(grid, v, codewords, mask) && 10 <= i <= 12
    ensures Dark(DarkMatrix(grid), FirstCopy()[i]) == FormatBit(mask, i)
  {
    FormatPlaces(v, mask, i);
    hide FunctionDark, FormatBit, Reserved, FirstCopy, Drawn, Dark, DarkMatrix;
    ReservedIsRead(grid, v, codewords, mask, FirstCopy()[i]);
  }

  lemma ReservedIsRead(grid: seq<seq<Cell>>, v: Version, codewords: Poly, mask: Mask, p: Pos)
    requires Drawn(grid, v, codewords, mask) && Reserved(v, p) && p.row < Size(v) && p.column < Size(v)
    ensures Dark(DarkMatrix(grid), p) == FunctionDark(v, mask, p)
  {
    hide FunctionDark, Reserved, DataCells, StreamBit, Masked;
    assert p == Pos(p.row, p.column);
    assert grid[p.row][p.column] == Cell(FunctionDark(v, mask, Pos(p.row, p.column)), true);
  }

  lemma {:induction false} MaskIsRead(grid: seq<seq<Cell>>, v: Version, codewords: Poly, mask: Mask)
    requires Drawn(grid, v, codewords, mask)
    ensures ReadMask(DarkMatrix(grid)) == mask
  {
    hide Drawn, FormatBit, Dark, DarkMatrix, FirstCopy;
    FormatIsRead(grid, v, codewords, mask, 12);
    FormatIsRead(grid, v, codewords, mask, 11);
    FormatIsRead(grid, v, codewords, mask, 10);
    MaskBits(mask);
  }

  lemma DrawnShape(grid: seq<seq<Cell>>, v: Version, codewords: Poly, mask: Mask)
    requires Drawn(grid, v, codewords, mask)
    ensures IsSquare(DarkMatrix(grid), Size(v))
  {}

  lemma {:induction false} StreamBitIsBit(codewords: Poly, i: nat)
    requires i < 8 * |codewords|
    ensures AllBits(codewords)[i] == StreamBit(codewords, i)
  {
    hide OctetBits;
    AllBitsAt(codewords, i / 8);
    var octet := AllBits(codewords)[8 * (i / 8)..8 * (i / 8) + 8];
    assert octet[i % 8] == AllBits(codewords)[i];
  }

  lemma {:induction false} BitsAreRead(grid: seq<seq<Cell>>, v: Version, codewords: Poly, mask: Mask)
    requires Drawn(grid, v, codewords, mask) && 8 * |codewords| <= |DataCells(v)|
    ensures ReadBits(DarkMatrix(grid), DataCells(v), mask, |codewords|) == AllBits(codewords)
  {
    hide StreamBit, Masked, DataCells, Reserved;
    var bits := ReadBits(DarkMatrix(grid), DataCells(v), mask, |codewords|);
    forall i | 0 <= i < |bits|
      ensures bits[i] == AllBits(codewords)[i]
    {
      StreamBitIsBit(codewords, i);
    }
  }

  /** Block j of a stream with its check octets. */
  function BlockOf(stream: Poly, v: Version, j: nat): Poly
    requires j < |BlockLengths(v)| && |stream| == TotalCodewords(v)
  {
    ReadBlock(stream, BlockLengths(v), j) + ReadCheck(stream, v, j)
  }

  /** A stream of code words, block by block, that holds the message of some bytes. */
  ghost predicate Encodes(stream: Poly, v: Version, bytes: Poly) {
    && |stream| == TotalCodewords(v) && Fits(|bytes|, v) && |Message(bytes, v)| % 8 == 0
    && (exists tail: Poly :: ReadData(stream, v) == PackAll(Message(bytes, v)) + tail)
    && (forall j :: 0 <= j < |BlockLengths(v)| ==> IsCodeword(BlockOf(stream, v, j), Spec(v).ecPerBlock))
  }

  lemma EncodesParses(stream: Poly, v: Version, bytes: Poly)
    requires Encodes(stream, v, bytes)
    ensures Parse(ReadData(stream, v), v) == Some(bytes)
  {
    hide Parse, ReadData, Message, PackAll, Fits, TotalCodewords, IsCodeword, BlockOf;
    var tail :| ReadData(stream, v) == PackAll(Message(bytes, v)) + tail;
    ParseRecovers(bytes, v, tail);
  }

  /** A whole matrix: its size gives the version, its format field the mask, its data cells the stream. */
  ghost predicate Carries(m: Matrix, v: Version, mask: Mask, bytes: Poly) {
    IsSquare(m, Size(v)) && ReadMask(m) == mask && Encodes(StreamOf(m, v, mask), v, bytes)
  }

  lemma CarriesReads(m: Matrix, v: Version, mask: Mask, bytes: Poly)
    requires Carries(m, v, mask, bytes)
    ensures Read(m) == Some(bytes)
  {
    hide Read, Parse, ReadData, Encodes, StreamOf, IsSquare, ReadMask;
    ReadOfSize(m, v);
    EncodesParses(StreamOf(m, v, mask), v, bytes);
  }

  /** The matrix drawn for a stream carries what the stream holds. */
  lemma {:induction false} DrawnReadsBack(grid: seq<seq<Cell>>, v: Version, codewords: Poly, mask: Mask, bytes: Poly)
    requires Drawn(grid, v, codewords, mask) && Encodes(codewords, v, bytes)
    ensures StreamOf(DarkMatrix(grid), v, mask) == codewords
    ensures Carries(DarkMatrix(grid), v, mask, bytes) && Read(DarkMatrix(grid)) == Some(bytes)
  {
    assert |codewords| == TotalCodewords(v);
    hide Read, ReadBits, ReadMask, PackAll, Encodes, Drawn, DarkMatrix, AllBits, IsSquare, TotalCodewords, DataCells;
    RoomForCodewords(v);
    MaskIsRead(grid, v, codewords, mask);
    BitsAreRead(grid, v, codewords, mask);
    PackAllBits(codewords);
    DrawnShape(grid, v, codewords, mask);
    CarriesReads(DarkMatrix(grid), v, mask, bytes);
  }

  // ----- damage

  /** Each block of a matrix differs from that of another in at most half as many octets as there are check octets. */
  ghost predicate Near(m: Matrix, other: Matrix, v: Version, mask: Mask) {
    var s, t := StreamOf(m, v, mask), StreamOf(other, v, mask);
    && |s| == |t| == TotalCodewords(v)
    && forall j :: 0 <= j < |BlockLengths(v)| ==> BlockNear(s, t, v, j)
  }

  predicate BlockNear(s: Poly, t: Poly, v: Version, j: nat)
    requires |s| == |t| == TotalCodewords(v) && j < |BlockLengths(v)|
  {
    BlockSize(v, j, s);
    BlockSize(v, j, t);
    Distance(BlockOf(s, v, j), BlockOf(t, v, j)) <= Spec(v).ecPerBlock / 2
  }

  lemma BlockSize(v: Version, j: nat, s: Poly)
    requires |s| == TotalCodewords(v) && j < |BlockLengths(v)|
    ensures |BlockOf(s, v, j)| == BlockLengths(v)[j] + Spec(v).ecPerBlock <= 255
  {
    assert CheckLengths(v)[j] == Spec(v).ecPerBlock;
    LengthsBounded(Spec(v).groups, 44);
    hide BlockLengths, ReadBlock;
  }

  /** A damaged matrix that could have come from two drawn ones carries the same bytes as both. */
  lemma DamageLeavesTheBytes(m: Matrix, x: Matrix, y: Matrix, v: Version, mask: Mask, a: Poly, b: Poly)
    requires Carries(x, v, mask, a) && Carries(y, v, mask, b) && Near(m, x, v, mask) && Near(m, y, v, mask)
    ensures a == b
  {
    var r, s, t := StreamOf(m, v, mask), StreamOf(x, v, mask), StreamOf(y, v, mask);
    hide StreamOf, IsSquare, ReadMask;
    forall j | 0 <= j < |BlockLengths(v)|
      ensures ReadBlock(s, BlockLengths(v), j) == ReadBlock(t, BlockLengths(v), j)
    {
      SameBlock(r, s, t, v, j);
    }
    EncodesParses(s, v, a);
    EncodesParses(t, v, b);
    SameData(s, t, v);
  }

  lemma SameBlock(r: Poly, s: Poly, t: Poly, v: Version, j: nat)
    requires |r| == |s| == |t| == TotalCodewords(v) && j < |BlockLengths(v)|
    requires BlockNear(r, s, v, j) && BlockNear(r, t, v, j)
    requires IsCodeword(BlockOf(s, v, j), Spec(v).ecPerBlock) && IsCodeword(BlockOf(t, v, j), Spec(v).ecPerBlock)
    ensures ReadBlock(s, BlockLengths(v), j) == ReadBlock(t, BlockLengths(v), j)
  {
    hide IsCodeword, Spec, BlockLengths, TotalCodewords, ReadBlock;
    BlockSize(v, j, r);
    BlockSize(v, j, s);
    BlockSize(v, j, t);
    DamageIsCorrectable(BlockOf(r, v, j), BlockOf(s, v, j), BlockOf(t, v, j), Spec(v).ecPerBlock);
    var n := BlockLengths(v)[j];
    assert ReadBlock(s, BlockLengths(v), j) == BlockOf(s, v, j)[..n];
    assert ReadBlock(t, BlockLengths(v), j) == BlockOf(t, v, j)[..n];
  }

  lemma SameData(s: Poly, t: Poly, v: Version)
    requires forall j :: 0 <= j < |BlockLengths(v)| ==>
                ReadBlock(s, BlockLengths(v), j) == ReadBlock(t, BlockLengths(v), j)
    ensures ReadData(s, v) == ReadData(t, v)
  {
    var lens := BlockLengths(v);
    hide BlockLengths, ReadBlock, Join;
    assert seq(|lens|, j requires 0 <= j < |lens| => ReadBlock(s, lens, j))
        == seq(|lens|, j requires 0 <= j < |lens| => ReadBlock(t, lens, j));
  }

  lemma ReadOfSize(m: Matrix, v: Version)
    requires IsSquare(m, Size(v))
    ensures Read(m) == ReadVersion(m, v)
  {
    hide ReadVersion;
  }

  // ----- the encoder

  method Darks(grid: array2<Cell>) returns (m: Matrix)
    ensures m == DarkMatrix(Snapshot(grid))
  {
    m := [];
    ghost var all := DarkMatrix(Snapshot(grid));
    for y := 0 to grid.Length0
      invariant m == all[..y]
    {
      var row := [];
      for x := 0 to grid.Length1
        invariant row == all[y][..x]
      {
        row := row + [grid[y, x].dark];
      }
      assert row == all[y];
      m := m + [row];
    }
  }

  method Codewords(bytes: Poly) returns (r: Option<(Version, Poly)>)
    ensures r.None? <==> |bytes| > 213
    ensures r.Some? ==> Encodes(r.value.1, r.value.0, bytes)
  {
    hide PackAll, ReadData, Fits, Message, TotalCodewords, Capacity, IsCodeword;
    var tables := new Tables();
    var version := VersionFor(|bytes|);
    if version.None? {
      return None;
    }
    var v := version.value;
    var data := DataCodewords(bytes, v);
    var stream := Interleave(tables, data, v);
    r := Some((v, stream));
  }

  /**
   With any mask, what is drawn carries the bytes in code words under that mask, so it reads back as the
   bytes; only more than 213 of them are refused.
   */
  method EncodeWithMask(bytes: Poly, mask: Mask) returns (r: Option<Matrix>)
    ensures r.None? <==> |bytes| > 213
    ensures r.Some? ==> Read(r.value) == Some(bytes) && exists v: Version :: Carries(r.value, v, mask, bytes)
  {
    hide Read, Drawn, Encodes, Carries;
    var stream := Codewords(bytes);
    if stream.None? {
      return None;
    }
    var (v, codewords) := stream.value;
    var m := DrawDark(codewords, v, mask, bytes);
    r := Some(m);
  }

  method DrawDark(codewords: Poly, v: Version, mask: Mask, ghost bytes: Poly) returns (m: Matrix)
    requires Encodes(codewords, v, bytes)
    ensures Carries(m, v, mask, bytes) && Read(m) == Some(bytes) && ReadMask(m) == mask
  {
    hide Read, Drawn, Encodes;
    var grid := Draw(codewords, v, mask);
    m := Darks(grid);
    DrawnReadsBack(Snapshot(grid), v, codewords, mask, bytes);
  }

  ghost predicate FirstLeast(all: seq<Matrix>, penalty: Matrix -> int, k: nat) {
    && k < |all|
    && (forall j :: 0 <= j < |all| ==> penalty(all[k]) <= penalty(all[j]))
    && (forall j :: 0 <= j < k ==> penalty(all[k]) < penalty(all[j]))
  }

  /** The first mask of least penalty is taken, and what is drawn with it reads back as the bytes. */
  method Encode(bytes: Poly, penalty: Matrix -> int) returns (r: Option<Matrix>, ghost all: seq<Matrix>)
    ensures r.None? <==> |bytes| > 213
    ensures r.Some? ==>
      && Read(r.value) == Some(bytes)
      && |all| == 8 && (forall k :: 0 <= k < 8 ==> Read(all[k]) == Some(bytes) && ReadMask(all[k]) == k)
      && exists k :: 0 <= k < 8 && r.value == all[k] && FirstLeast(all, penalty, k)
  {
    hide Read, ReadMask, Drawn, Encodes, Carries;
    all := [];
    var stream := Codewords(bytes);
    if stream.None? {
      return None, all;
    }
    var (v, codewords) := stream.value;
    var best: Matrix, bestScore := [], 0;
    ghost var at := 0;
    for mask := 0 to 8
      invariant |all| == mask
      invariant forall k :: 0 <= k < mask ==> Read(all[k]) == Some(bytes) && ReadMask(all[k]) == k
      invariant 0 <= at <= mask && (mask > 0 ==> at < mask && best == all[at] && bestScore == penalty(best))
      invariant forall j :: 0 <= j < mask ==> bestScore <= penalty(all[j])
      invariant forall j :: 0 <= j < at ==> bestScore < penalty(all[j])
    {
      var m := DrawDark(codewords, v, mask, bytes);
      var score := penalty(m);
      if mask == 0 || score < bestScore {
        best, bestScore, at := m, score, mask;
      }
      all := all + [m];
    }
    assert best == all[at] && FirstLeast(all, penalty, at);
    r := Some(best);
  }
}
