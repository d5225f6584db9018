/**
 Drawing the matrix: function patterns, then data along the walk, then format and version
 information. Each step changes the grid in place; its contract gives the whole new grid.
 */
module QrDraw {
  import opened Bytes
  import opened Gf256
  import opened ReedSolomon
  import opened QrData
  import opened QrInterleave
  import opened QrLayout

  datatype Cell = Cell(dark: bool, reserved: bool)

  type Mask = m: nat | m < 8

  predicate Within(grid: array2<Cell>, y: int, x: int) {
    0 <= y < grid.Length0 && 0 <= x < grid.Length1
  }

  /** A cell after a pattern has been drawn over it, where the pattern has a module there. */
  function Over(module_: Option<bool>, cell: Cell): Cell {
    if module_.Some? then Cell(module_.value, true) else cell
  }

  /** The ring of a square pattern a cell lies on, counted from the centre. */
  function Ring(dy: int, dx: int): nat {
    if Abs(dy) > Abs(dx) then Abs(dy) else Abs(dx)
  }

  // ----- function patterns

  /** A finder is dark on its core and on its third ring; the fourth ring is its light separator. */
  function FinderModule(row: int, column: int, y: int, x: int): Option<bool> {
    var ring := Ring(y - row - 3, x - column - 3);
    if ring > 4 then None else Some(ring <= 1 || ring == 3)
  }

  method Finder(grid: array2<Cell>, row: int, column: int)
    modifies grid
    ensures forall y, x :: Within(grid, y, x) ==> grid[y, x] == Over(FinderModule(row, column, y, x), old(grid[y, x]))
  {
    for r := -1 to 8
      invariant forall y, x :: Within(grid, y, x) ==>
        grid[y, x] == if y < row + r then Over(FinderModule(row, column, y, x), old(grid[y, x])) else old(grid[y, x])
    {
      for c := -1 to 8
        invariant forall y, x :: Within(grid, y, x) ==>
          grid[y, x] == if y < row + r || (y == row + r && x < column + c)
                        then Over(FinderModule(row, column, y, x), old(grid[y, x])) else old(grid[y, x])
      {
        var y, x := row + r, column + c;
        if y < 0 || x < 0 || y >= grid.Length0 || x >= grid.Length1 {
          continue;
        }
        var outer := 0 <= r <= 6 && (c == 0 || c == 6);
        var side := 0 <= c <= 6 && (r == 0 || r == 6);
        var core := 2 <= r <= 4 && 2 <= c <= 4;
        grid[y, x] := Cell(outer || side || core, true);
      }
    }
  }

  /** An alignment pattern is light on its first ring only. */
  function AlignmentModule(v: Version, y: int, x: int): Option<bool> {
    var dy, dx := Offset(Centres(v), y), Offset(Centres(v), x);
    if Abs(dy) <= 2 && Abs(dx) <= 2 && !NearFinder(Size(v), y - dy, x - dx) then Some(Ring(dy, dx) != 1) else None
  }

  method AlignmentSquare(grid: array2<Cell>, row: nat, column: nat)
    requires 2 <= row && row + 2 < grid.Length0 && 2 <= column && column + 2 < grid.Length1
    modifies grid
    ensures forall y, x :: Within(grid, y, x) ==>
      grid[y, x] == if Ring(y - row, x - column) <= 2 then Cell(Ring(y - row, x - column) != 1, true)
                    else old(grid[y, x])
  {
    for r := -2 to 3
      invariant forall y, x :: Within(grid, y, x) ==>
        grid[y, x] == if Ring(y - row, x - column) <= 2 && y < row + r
                      then Cell(Ring(y - row, x - column) != 1, true) else old(grid[y, x])
    {
      for c := -2 to 3
        invariant forall y, x :: Within(grid, y, x) ==>
          grid[y, x] == if Ring(y - row, x - column) <= 2 && (y < row + r || (y == row + r && x < column + c))
                        then Cell(Ring(y - row, x - column) != 1, true) else old(grid[y, x])
      {
        var edge := Abs(r) == 2 || Abs(c) == 2;
        grid[row + r, column + c] := Cell(edge || (r == 0 && c == 0), true);
      }
    }
  }

  /** The centre coordinate with a given index; past the last one, a value above all of them. */
  function CentreOr(v: Version, i: nat): nat {
    if i < |Centres(v)| then Centres(v)[i] else Size(v)
  }

  lemma {:induction false} CentreOffset(v: Version, i: nat, x: int)
    requires i < |Centres(v)| && Abs(x - Centres(v)[i]) <= 2
    ensures Offset(Centres(v), x) == x - Centres(v)[i]
  {
    CentresShape(v);
    hide Centres;
    var c := Centres(v);
    if |c| == 2 { OffsetTwo(c, x); } else { OffsetThree(c, x); }
  }

  /** Among centre coordinates, those below the next one are those up to this one. */
  lemma {:induction false} NextCentre(v: Version, i: nat, x: int)
    requires i < |Centres(v)| && Abs(Offset(Centres(v), x)) <= 2
    ensures var centre := x - Offset(Centres(v), x);
            centre < CentreOr(v, i + 1) <==> centre <= Centres(v)[i]
  {
    CentresShape(v);
    hide Centres, Offset;
    var c := Centres(v);
    var centre := x - Offset(c, x);
    assert centre == c[0] || centre == c[1] || (|c| == 3 && centre == c[2]);
  }

  lemma {:induction false} CentreBounds(v: Version, x: int)
    requires Abs(Offset(Centres(v), x)) <= 2
    ensures var centre := x - Offset(Centres(v), x); CentreOr(v, 0) <= centre < Size(v)
  {
    assert v > 1;
    CentresShape(v);
    hide Centres, Offset;
  }

  /** A cell of an alignment pattern whose square comes before row `row`, or in it before `column`. */
  predicate SquareBefore(v: Version, y: int, x: int, row: int, column: int) {
    && AlignmentModule(v, y, x).Some?
    && var cy, cx := y - Offset(Centres(v), y), x - Offset(Centres(v), x);
       cy < row || (cy == row && cx < column)
  }

  lemma {:induction false} SquareStep(v: Version, i: nat, j: nat, y: int, x: int)
    requires i < |Centres(v)| && j < |Centres(v)|
    ensures var row, column := Centres(v)[i], Centres(v)[j];
            SquareBefore(v, y, x, row, CentreOr(v, j + 1)) <==>
            || SquareBefore(v, y, x, row, column)
            || (Ring(y - row, x - column) <= 2 && !NearFinder(Size(v), row, column))
    ensures var row, column := Centres(v)[i], Centres(v)[j];
            Ring(y - row, x - column) <= 2 && !NearFinder(Size(v), row, column) ==>
            AlignmentModule(v, y, x) == Some(Ring(y - row, x - column) != 1)
  {
    hide Offset, Centres, CentreOr;
    var row, column := Centres(v)[i], Centres(v)[j];
    if Ring(y - row, x - column) <= 2 {
      CentreOffset(v, i, y);
      CentreOffset(v, j, x);
    }
    if Abs(Offset(Centres(v), x)) <= 2 {
      NextCentre(v, j, x);
    }
  }

  lemma {:induction false} RowStep(v: Version, i: nat, y: int, x: int)
    requires i < |Centres(v)|
    ensures SquareBefore(v, y, x, Centres(v)[i], CentreOr(v, |Centres(v)|)) <==>
            SquareBefore(v, y, x, CentreOr(v, i + 1), CentreOr(v, 0))
  {
    hide Offset, Centres, CentreOr;
    assert CentreOr(v, |Centres(v)|) == Size(v) by { BeyondLast(v); }
    if Abs(Offset(Centres(v), y)) <= 2 && Abs(Offset(Centres(v), x)) <= 2 {
      NextCentre(v, i, y);
      CentreBounds(v, x);
    }
  }

  lemma BeyondLast(v: Version)
    ensures CentreOr(v, |Centres(v)|) == Size(v)
  {}

  lemma {:induction false} AllSquares(v: Version, y: int, x: int)
    ensures !SquareBefore(v, y, x, CentreOr(v, 0), CentreOr(v, 0))
    ensures SquareBefore(v, y, x, CentreOr(v, |Centres(v)|), CentreOr(v, 0)) <==> AlignmentModule(v, y, x).Some?
  {
    BeyondLast(v);
    hide Offset, Centres, CentreOr;
    if AlignmentModule(v, y, x).Some? {
      CentreBounds(v, y);
      CentreBounds(v, x);
    }
  }

  lemma SquareFits(v: Version, i: nat)
    requires i < |Centres(v)|
    ensures 2 <= Centres(v)[i] && Centres(v)[i] + 2 < Size(v)
    ensures CentreOr(v, i) == Centres(v)[i]
  {}

  method Alignment(grid: array2<Cell>, v: Version)
    requires grid.Length0 == grid.Length1 == Size(v)
    modifies grid
    ensures forall y, x :: Within(grid, y, x) ==> grid[y, x] == Over(AlignmentModule(v, y, x), old(grid[y, x]))
  {
    hide Offset, Centres, CentreOr, AlignmentModule, SquareBefore, NearFinder;
    var centres := Centres(v);
    forall y, x | Within(grid, y, x) { AllSquares(v, y, x); }
    for i := 0 to |centres|
      invariant forall y, x :: Within(grid, y, x) ==>
        grid[y, x] == if SquareBefore(v, y, x, CentreOr(v, i), CentreOr(v, 0))
                      then Over(AlignmentModule(v, y, x), old(grid[y, x])) else old(grid[y, x])
    {
      SquareFits(v, i);
      for j := 0 to |centres|
        invariant forall y, x :: Within(grid, y, x) ==>
          grid[y, x] == if SquareBefore(v, y, x, centres[i], CentreOr(v, j))
                        then Over(AlignmentModule(v, y, x), old(grid[y, x])) else old(grid[y, x])
      {
        SquareFits(v, j);
        var row, column := centres[i], centres[j];
        forall y, x | Within(grid, y, x) { SquareStep(v, i, j, y, x); }
        if NearFinder(grid.Length0, row, column) {
          continue;
        }
        AlignmentSquare(grid, row, column);
      }
      forall y, x | Within(grid, y, x) { RowStep(v, i, y, x); }
    }
  }

  /** The timing patterns alternate, dark on even coordinates. */
  function TimingModule(size: nat, y: int, x: int): Option<bool> {
    if y == 6 && 8 <= x < size - 8 then Some(x % 2 == 0)
    else if x == 6 && 8 <= y < size - 8 then Some(y % 2 == 0)
    else None
  }

  method Timing(grid: array2<Cell>)
    requires grid.Length0 == grid.Length1 >= 21
    modifies grid
    ensures forall y, x :: Within(grid, y, x) ==> grid[y, x] == Over(TimingModule(grid.Length0, y, x), old(grid[y, x]))
  {
    var size := grid.Length0;
    for i := 8 to size - 8
      invariant forall y, x :: Within(grid, y, x) ==>
        grid[y, x] == if (y == 6 && x < i) || (x == 6 && y < i)
                      then Over(TimingModule(size, y, x), old(grid[y, x])) else old(grid[y, x])
    {
      grid[6, i] := Cell(i % 2 == 0, true);
      grid[i, 6] := Cell(i % 2 == 0, true);
    }
  }

  // ----- format and version areas

  /** The cells kept for format information, and the one cell that is always dark. */
  predicate InFormat(size: nat, y: int, x: int) {
    || (y == 8 && (0 <= x <= 5 || 7 <= x <= 8 || size - 8 <= x < size))
    || (x == 8 && (0 <= y <= 5 || 7 <= y <= 8 || size - 8 <= y < size))
  }

  function ReservedModule(v: Version, y: int, x: int): Option<bool> {
    var size := Size(v);
    if InFormat(size, y, x) then Some(y == size - 8)
    else if y >= 0 && x >= 0 && InVersionArea(v, Pos(y, x)) then Some(false)
    else None
  }

  /** The cells of the format information: row 8 and column 8 next to the three corners. */
  method ReserveFormatCells(grid: array2<Cell>)
    requires grid.Length0 == grid.Length1 >= 21
    modifies grid
    ensures forall y, x :: Within(grid, y, x) ==>
      grid[y, x] == if InFormat(grid.Length0, y, x) then Cell(y == grid.Length0 - 8, true) else old(grid[y, x])
  {
    var size := grid.Length0;
    for i := 0 to 9
      invariant forall y, x :: Within(grid, y, x) ==>
        grid[y, x] == if (y == 8 && x < i && x != 6) || (x == 8 && y < i && y != 6)
                      then Cell(false, true) else old(grid[y, x])
    {
      if i != 6 {
        grid[8, i] := Cell(false, true);
        grid[i, 8] := Cell(false, true);
      }
    }
    for i := 0 to 8
      invariant forall y, x :: Within(grid, y, x) ==>
        grid[y, x] == if InFormat(size, y, x) && (y <= 8 || y >= size - i) && (x <= 8 || x >= size - i)
                      then Cell(false, true) else old(grid[y, x])
    {
      grid[8, size - 1 - i] := Cell(false, true);
      grid[size - 1 - i, 8] := Cell(false, true);
    }
    grid[size - 8, 8] := Cell(true, true);
  }

  /** Which of the eighteen version bits a cell of the version areas shows. */
  function VersionIndex(size: nat, p: Pos): int {
    if p.row < p.column then 3 * p.row + (p.column - (size - 11)) else 3 * p.column + (p.row - (size - 11))
  }

  lemma VersionCell(v: Version, i: nat, p: Pos)
    requires v >= 7 && i < 18
    ensures InVersionArea(v, p) && VersionIndex(Size(v), p) == i <==>
            || p == Pos(i / 3, Size(v) - 11 + i % 3)
            || p == Pos(Size(v) - 11 + i % 3, i / 3)
    ensures InVersionArea(v, p) ==> 0 <= VersionIndex(Size(v), p) < 18
  {}

  /** Both version areas at once; bit i stands in row i / 3 of one and in column i / 3 of the other. */
  method FillVersionAreas(grid: array2<Cell>, v: Version, bits: seq<bool>)
    requires grid.Length0 == grid.Length1 == Size(v) && v >= 7 && |bits| == 18
    modifies grid
    ensures forall y: nat, x: nat :: Within(grid, y, x) ==>
      grid[y, x] == if InVersionArea(v, Pos(y, x)) && 0 <= VersionIndex(Size(v), Pos(y, x)) < 18
                    then Cell(bits[VersionIndex(Size(v), Pos(y, x))], true) else old(grid[y, x])
  {
    hide InVersionArea, VersionIndex;
    var size := grid.Length0;
    for i := 0 to 18
      invariant forall y: nat, x: nat :: Within(grid, y, x) ==>
        grid[y, x] == if InVersionArea(v, Pos(y, x)) && 0 <= VersionIndex(size, Pos(y, x)) < i
                      then Cell(bits[VersionIndex(size, Pos(y, x))], true) else old(grid[y, x])
    {
      var row, column := i / 3, size - 11 + i % 3;
      grid[row, column] := Cell(bits[i], true);
      grid[column, row] := Cell(bits[i], true);
      forall y: nat, x: nat | Within(grid, y, x) { VersionCell(v, i, Pos(y, x)); }
    }
  }

  method ReserveFormat(grid: array2<Cell>, v: Version)
    requires grid.Length0 == grid.Length1 == Size(v)
    modifies grid
    ensures forall y: nat, x: nat :: Within(grid, y, x) ==>
      grid[y, x] == Over(ReservedModule(v, y, x), old(grid[y, x]))
  {
    ReserveFormatCells(grid);
    if v >= 7 {
      FillVersionAreas(grid, v, seq(18, _ => false));
      forall y: nat, x: nat | Within(grid, y, x) { VersionCell(v, 0, Pos(y, x)); }
    }
  }

  // ----- format and version information

  const FORMAT_GENERATOR: bv16 := 0x537
  const FORMAT_MASK: bv16 := 0x5412

  /** One round of the check loop, at bit i. */
  function FormatStep(value: bv16, i: nat): bv16
    requires 10 <= i <= 14
  {
    if (value >> i) & 1 == 1 then value ^ (FORMAT_GENERATOR << (i - 10)) else value
  }

  /** Five data bits, the ten check bits the loop leaves, and the fixed pattern over all of them. */
  function FormatWord(data: bv16): bv16 {
    var value := data << 10;
    var check := FormatStep(FormatStep(FormatStep(FormatStep(FormatStep(value, 14), 13), 12), 11), 10);
    (value | check) ^ FORMAT_MASK
  }

  /** Level M is zero, so the data is the mask number. */
  function FormatBits(mask: Mask): bv16 {
    FormatWord(mask as bv16)
  }

  function FormatBit(mask: Mask, i: nat): bool
    requires i < 15
  {
    (FormatBits(mask) >> i) & 1 == 1
  }

  const VERSION_GENERATOR: bv32 := 0x1f25

  function VersionRemainder(value: bv32, i: nat): bv32
    requires 11 <= i <= 17
  {
    if i == 11 then value
    else VersionRemainder(if (value >> i) & 1 == 1 then value ^ (VERSION_GENERATOR << (i - 12)) else value, i - 1)
  }

  function VersionBits(v: Version): bv32 {
    var data := v as bv32;
    (data << 12) | VersionRemainder(data << 12, 17)
  }

  function VersionBit(v: Version, i: nat): bool
    requires i < 18
  {
    (VersionBits(v) >> i) & 1 == 1
  }

  /** The places of the two copies of the format information, bit 0 first. */
  function FirstCopy(): (s: seq<Pos>)
    ensures |s| == 15
  {
    [Pos(0, 8), Pos(1, 8), Pos(2, 8), Pos(3, 8), Pos(4, 8), Pos(5, 8), Pos(7, 8), Pos(8, 8),
     Pos(8, 7), Pos(8, 5), Pos(8, 4), Pos(8, 3), Pos(8, 2), Pos(8, 1), Pos(8, 0)]
  }

  function SecondCopy(size: nat): (s: seq<Pos>)
    requires size >= 21
    ensures |s| == 15
  {
    [Pos(8, size - 1), Pos(8, size - 2), Pos(8, size - 3), Pos(8, size - 4), Pos(8, size - 5), Pos(8, size - 6),
     Pos(8, size - 7), Pos(8, size - 8),
     Pos(size - 7, 8), Pos(size - 6, 8), Pos(size - 5, 8), Pos(size - 4, 8), Pos(size - 3, 8), Pos(size - 2, 8),
     Pos(size - 1, 8)]
  }

  /** Which format bit a cell shows, if any. The always dark cell shows none. */
  function FormatIndex(size: nat, p: Pos): int {
    if p.column == 8 && p.row <= 5 then p.row
    else if p.column == 8 && 7 <= p.row <= 8 then p.row - 1
    else if p.row == 8 && p.column == 7 then 8
    else if p.row == 8 && p.column <= 5 then 14 - p.column
    else if p.row == 8 && size - 8 <= p.column < size then size - 1 - p.column
    else if p.column == 8 && size - 7 <= p.row < size then p.row - size + 15
    else -1
  }

  lemma FormatCell(size: nat, i: nat, p: Pos)
    requires size >= 21 && i < 15
    ensures FormatIndex(size, p) == i <==> p == FirstCopy()[i] || p == SecondCopy(size)[i]
  {
    FirstCopyAt(i);
    SecondCopyAt(size, i);
    hide FirstCopy, SecondCopy;
  }

  lemma FirstCopyAt(i: nat)
    requires i < 15
    ensures FirstCopy()[i] == if i < 8 then Pos(if i < 6 then i else i + 1, 8) else Pos(8, if i == 8 then 7 else 14 - i)
  {}

  lemma SecondCopyAt(size: nat, i: nat)
    requires size >= 21 && i < 15
    ensures SecondCopy(size)[i] == if i < 8 then Pos(8, size - 1 - i) else Pos(size - 15 + i, 8)
  {}

  lemma CopiesInside(size: nat, i: nat)
    requires size >= 21 && i < 15
    ensures FirstCopy()[i].row < size && FirstCopy()[i].column < size
    ensures SecondCopy(size)[i].row < size && SecondCopy(size)[i].column < size
  {}

  method WriteFormatBits(grid: array2<Cell>, mask: Mask)
    requires grid.Length0 == grid.Length1 >= 21
    modifies grid
    ensures forall y: nat, x: nat :: Within(grid, y, x) ==>
      grid[y, x] == if 0 <= FormatIndex(grid.Length0, Pos(y, x)) < 15
                    then Cell(FormatBit(mask, FormatIndex(grid.Length0, Pos(y, x))), true) else old(grid[y, x])
  {
    hide FormatIndex, FormatBit, FirstCopy, SecondCopy;
    var size := grid.Length0;
    var first, second := FirstCopy(), SecondCopy(size);
    for i := 0 to 15
      invariant forall y: nat, x: nat :: Within(grid, y, x) ==>
        grid[y, x] == if 0 <= FormatIndex(size, Pos(y, x)) < i
                      then Cell(FormatBit(mask, FormatIndex(size, Pos(y, x))), true) else old(grid[y, x])
    {
      var a, b := first[i], second[i];
      CopiesInside(size, i);
      grid[a.row, a.column] := Cell(FormatBit(mask, i), true);
      grid[b.row, b.column] := Cell(FormatBit(mask, i), true);
      forall y: nat, x: nat | Within(grid, y, x) { FormatCell(size, i, Pos(y, x)); }
    }
  }

  method WriteFormat(grid: array2<Cell>, mask: Mask, v: Version)
    requires grid.Length0 == grid.Length1 == Size(v)
    modifies grid
    ensures forall y: nat, x: nat :: Within(grid, y, x) ==>
      grid[y, x] == Over(InformationModule(v, mask, y, x), old(grid[y, x]))
  {
    hide FormatIndex, FormatBit, VersionBit, InVersionArea;
    WriteFormatBits(grid, mask);
    if v >= 7 {
      FillVersionAreas(grid, v, seq(18, i requires 0 <= i < 18 => VersionBit(v, i)));
    }
    forall y: nat, x: nat | Within(grid, y, x) { AreasApart(v, Pos(y, x)); }
  }

  /** What format and version information put on a cell. */
  function InformationModule(v: Version, mask: Mask, y: nat, x: nat): Option<bool> {
    var f, i := FormatIndex(Size(v), Pos(y, x)), VersionIndex(Size(v), Pos(y, x));
    if 0 <= f < 15 then Some(FormatBit(mask, f))
    else if InVersionArea(v, Pos(y, x)) && 0 <= i < 18 then Some(VersionBit(v, i))
    else None
  }

  lemma AreasApart(v: Version, p: Pos)
    ensures InVersionArea(v, p) ==>
      v >= 7 && 0 <= VersionIndex(Size(v), p) < 18 && !(0 <= FormatIndex(Size(v), p) < 15)
  {}

  // ----- data

  /** The eight masks of section 7.8.2 of ISO/IEC 18004:2015: true on the cells a mask inverts. */
  function Masked(mask: Mask, row: nat, column: nat): bool {
    match mask
    case 0 => (row + column) % 2 == 0
    case 1 => row % 2 == 0
    case 2 => column % 3 == 0
    case 3 => (row + column) % 3 == 0
    case 4 => (row / 2 + column / 3) % 2 == 0
    case 5 => row * column % 2 + row * column % 3 == 0
    case 6 => (row * column % 2 + row * column % 3) % 2 == 0
    case _ => ((row + column) % 2 + row * column % 3) % 2 == 0
  }

  /** Bit i of the codeword stream; past its end the remainder bits are zero. */
  function StreamBit(codewords: Poly, i: nat): bool {
    i / 8 < |codewords| && OctetBits(codewords[i / 8])[i % 8]
  }

  /** One cell of the walk: a reserved cell is passed over, any other takes the next bit. */
  method PlaceBit(grid: array2<Cell>, codewords: Poly, mask: Mask, p: Pos, bit: nat) returns (bit': nat)
    requires Within(grid, p.row, p.column)
    modifies grid
    ensures forall y: nat, x: nat :: Within(grid, y, x) ==>
      grid[y, x] == if Pos(y, x) == p && !old(grid[y, x].reserved)
                    then Cell(StreamBit(codewords, bit) != Masked(mask, p.row, p.column), false)
                    else old(grid[y, x])
    ensures bit' == if old(grid[p.row, p.column].reserved) then bit else bit + 1
  {
    var cell := grid[p.row, p.column];
    if cell.reserved {
      return bit;
    }
    var octet := if bit / 8 < |codewords| then codewords[bit / 8] else ZERO;
    ZeroBits();
    var value := OctetBits(octet)[bit % 8];
    grid[p.row, p.column] := Cell(value != Masked(mask, p.row, p.column), false);
    bit' := bit + 1;
  }

  lemma ZeroBits()
    ensures OctetBits(ZERO) == seq(8, _ => false)
  {}

  /** What is left of the walk when the scan stands at `right`. */
  function RestFrom(size: nat, right: int, upward: bool): seq<Pos> {
    if right <= 0 then [] else Walk(size, right, upward)
  }

  lemma {:induction false} StripPrefix(size: nat, right: nat, upward: bool, steps: nat, more: nat)
    requires 0 < right && steps <= more <= size
    ensures Strip(size, right, upward, steps) <= Strip(size, right, upward, more)
  {
    if steps < more {
      StripPrefix(size, right, upward, steps, more - 1);
    }
  }

  lemma {:induction false} NextUnreserved(v: Version, walk: seq<Pos>, done: seq<Pos>, p: Pos)
    requires NoDuplicates(walk) && done + [p] <= walk
    ensures Unreserved(v, done + [p]) == Unreserved(v, done) + (if Reserved(v, p) then [] else [p])
    ensures p !in Unreserved(v, done)
  {}

  ghost predicate SameShape(grid: array2<Cell>, before: seq<seq<Cell>>) {
    |before| == grid.Length0 && forall y :: 0 <= y < |before| ==> |before[y]| == grid.Length1
  }

  ghost function Snapshot(grid: array2<Cell>): (s: seq<seq<Cell>>)
    reads grid
    ensures SameShape(grid, s)
    ensures forall y, x :: Within(grid, y, x) ==> s[y][x] == grid[y, x]
  {
    seq(grid.Length0, y requires 0 <= y < grid.Length0 reads grid =>
      seq(grid.Length1, x requires 0 <= x < grid.Length1 reads grid => grid[y, x]))
  }

  /** The cells met so far hold the first bits of the stream, and the rest of the grid is as it was. */
  ghost predicate Placed(grid: array2<Cell>, codewords: Poly, mask: Mask, cells: seq<Pos>, before: seq<seq<Cell>>)
    requires SameShape(grid, before)
    reads grid
  {
    && (forall i :: 0 <= i < |cells| ==>
      var p := cells[i];
      && Within(grid, p.row, p.column)
      && grid[p.row, p.column] == Cell(StreamBit(codewords, i) != Masked(mask, p.row, p.column), false))
    && (forall y: nat, x: nat :: Within(grid, y, x) && Pos(y, x) !in cells ==> grid[y, x] == before[y][x])
  }

  /** The next cell of the walk, and what it adds to the cells already placed. */
  method PlaceNext(grid: array2<Cell>, v: Version, codewords: Poly, mask: Mask, p: Pos, bit: nat, ghost done: seq<Pos>,
                   ghost walk: seq<Pos>, ghost before: seq<seq<Cell>>) returns (bit': nat)
    requires NoDuplicates(walk) && done + [p] <= walk && Within(grid, p.row, p.column)
    requires bit == |Unreserved(v, done)|
    requires SameShape(grid, before)
    requires forall y, x :: 0 <= y < |before| && 0 <= x < |before[y]| ==>
                before[y][x].reserved == Reserved(v, Pos(y, x))
    requires Placed(grid, codewords, mask, Unreserved(v, done), before)
    modifies grid
    ensures Placed(grid, codewords, mask, Unreserved(v, done + [p]), before)
    ensures bit' == |Unreserved(v, done + [p])|
  {
    hide Reserved, Masked, StreamBit, Unreserved;
    NextUnreserved(v, walk, done, p);
    bit' := PlaceBit(grid, codewords, mask, p, bit);
  }

  /** One strip of two columns, snaking upwards or downwards. */
  method PlaceStrip(grid: array2<Cell>, v: Version, codewords: Poly, mask: Mask, right: nat, upward: bool, bit: nat,
                    ghost start: seq<Pos>, ghost walk: seq<Pos>, ghost before: seq<seq<Cell>>) returns (bit': nat)
    requires grid.Length0 == grid.Length1 == Size(v) && 0 < right < Size(v)
    requires NoDuplicates(walk) && start + Strip(Size(v), right, upward, Size(v)) <= walk
    requires SameShape(grid, before)
    requires forall y, x :: 0 <= y < |before| && 0 <= x < |before[y]| ==>
                before[y][x].reserved == Reserved(v, Pos(y, x))
    requires Placed(grid, codewords, mask, Unreserved(v, start), before) && bit == |Unreserved(v, start)|
    modifies grid
    ensures var done := start + Strip(Size(v), right, upward, Size(v));
            Placed(grid, codewords, mask, Unreserved(v, done), before) && bit' == |Unreserved(v, done)|
  {
    hide Placed, Reserved, Strip, Unreserved, NoDuplicates;
    var size := grid.Length0;
    bit' := bit;
    ghost var done := start;
    EmptyStrip(size, right, upward);
    for step := 0 to size
      invariant done == start + Strip(size, right, upward, step)
      invariant Placed(grid, codewords, mask, Unreserved(v, done), before) && bit' == |Unreserved(v, done)|
    {
      var row := if upward then size - 1 - step else step;
      StripStep(size, right, upward, step);
      StripPrefix(size, right, upward, step + 1, size);
      assert done + [Pos(row, right), Pos(row, right - 1)] == start + Strip(size, right, upward, step + 1);
      bit' := PlaceNext(grid, v, codewords, mask, Pos(row, right), bit', done, walk, before);
      done := done + [Pos(row, right)];
      bit' := PlaceNext(grid, v, codewords, mask, Pos(row, right - 1), bit', done, walk, before);
      done := done + [Pos(row, right - 1)];
    }
  }

  method PlaceData(grid: array2<Cell>, v: Version, codewords: Poly, mask: Mask)
    requires grid.Length0 == grid.Length1 == Size(v)
    requires forall y: nat, x: nat :: Within(grid, y, x) ==> grid[y, x].reserved == Reserved(v, Pos(y, x))
    modifies grid
    ensures Placed(grid, codewords, mask, DataCells(v), old(Snapshot(grid)))
  {
    hide Placed, Reserved, Walk, Strip, Unreserved, NoDuplicates;
    var size := grid.Length0;
    ghost var before, walk, done: seq<Pos> := Snapshot(grid), WholeWalk(v), [];
    WholeWalkCells(v);
    NothingPlaced(grid, v, codewords, mask, before);
    var bit, upward, right := 0, true, size - 1;
    while right > 0
      invariant right <= size - 1 && (right > 0 ==> AtStrip(right))
      invariant done + RestFrom(size, right, upward) == walk
      invariant Placed(grid, codewords, mask, Unreserved(v, done), before) && bit == |Unreserved(v, done)|
    {
      NextStrip(size, right, upward);
      if right == 6 { right := right - 1; }
      ghost var strip, rest := Strip(size, right, upward, size), RestFrom(size, right - 2, !upward);
      Regroup(done, strip, rest);
      bit := PlaceStrip(grid, v, codewords, mask, right, upward, bit, done, walk, before);
      done := done + strip;
      right, upward := right - 2, !upward;
    }
    assert done == walk;
  }

  lemma NothingPlaced(grid: array2<Cell>, v: Version, codewords: Poly, mask: Mask, before: seq<seq<Cell>>)
    requires before == Snapshot(grid)
    ensures Unreserved(v, []) == [] && Placed(grid, codewords, mask, [], before)
  {}

  lemma EmptyStrip(size: nat, right: nat, upward: bool)
    requires right > 0
    ensures Strip(size, right, upward, 0) == []
  {}

  lemma StripStep(size: nat, right: nat, upward: bool, step: nat)
    requires right > 0 && step < size
    ensures Strip(size, right, upward, step + 1) == Strip(size, right, upward, step)
         + [Pos(StepRow(size, upward, step), right), Pos(StepRow(size, upward, step), right - 1)]
  {}

  lemma {:induction false} NextStrip(size: nat, right: nat, upward: bool)
    requires right > 0 && AtStrip(right)
    ensures RestFrom(size, right, upward)
         == Strip(size, Skip(right), upward, size) + RestFrom(size, Skip(right) - 2, !upward)
  {}

  // ----- the whole drawing

  /** The module of a cell that carries no data, by the pattern it belongs to. */
  function FunctionDark(v: Version, mask: Mask, p: Pos): bool {
    var n := Size(v);
    var topLeft, topRight, bottomLeft :=
      FinderModule(0, 0, p.row, p.column), FinderModule(0, n - 7, p.row, p.column),
      FinderModule(n - 7, 0, p.row, p.column);
    if topLeft.Some? then topLeft.value
    else if topRight.Some? then topRight.value
    else if bottomLeft.Some? then bottomLeft.value
    else if InformationModule(v, mask, p.row, p.column).Some? then InformationModule(v, mask, p.row, p.column).value
    else if InAlignment(v, p) then Ring(Offset(Centres(v), p.row), Offset(Centres(v), p.column)) != 1
    else if p.row == 6 then p.column % 2 == 0
    else if p.column == 6 then p.row % 2 == 0
    else true
  }

  function Patterns(v: Version, y: nat, x: nat): Cell {
    var n := Size(v);
    Over(ReservedModule(v, y, x), Over(TimingModule(n, y, x), Over(AlignmentModule(v, y, x),
      Over(FinderModule(n - 7, 0, y, x), Over(FinderModule(0, n - 7, y, x), Over(FinderModule(0, 0, y, x),
      Cell(false, false)))))))
  }

  lemma {:induction false} AlignmentApart(v: Version, p: Pos)
    ensures AlignmentModule(v, p.row, p.column).Some? <==> InAlignment(v, p)
    ensures InAlignment(v, p) ==> !InCorner(Size(v), p) && !InVersionArea(v, p)
  {
    if InAlignment(v, p) {
      CentreBounds(v, p.row);
      CentreBounds(v, p.column);
      CentresShape(v);
      hide Centres, Offset;
    }
  }

  lemma CentresEven(v: Version, i: nat)
    requires i < |Centres(v)|
    ensures Centres(v)[i] % 2 == 0
  {}

  lemma EvenShift(x: int, d: int)
    requires (x - d) % 2 == 0
    ensures x % 2 == d % 2
  {}

  /** A centre is even, so a coordinate has the parity of its offset; on the timing line the offset is zero. */
  lemma {:induction false} OffsetParity(v: Version, x: int)
    requires Abs(Offset(Centres(v), x)) <= 2
    ensures x % 2 == Offset(Centres(v), x) % 2
    ensures x == 6 ==> Offset(Centres(v), x) == 0
  {
    hide Centres, Offset;
    var d := Offset(Centres(v), x);
    var i :| 0 <= i < |Centres(v)| && Centres(v)[i] == x - d;
    CentresEven(v, i);
    EvenShift(x, d);
    if x == 6 {
      assert v > 1 by { CentreBounds(v, x); NoCentresInOne(v); }
      CentresShape(v);
      CentreOffset(v, 0, 6);
    }
  }

  lemma NoCentresInOne(v: Version)
    ensures |Centres(v)| > 0 ==> v > 1
  {}

  lemma {:induction false} AlignmentOnTiming(v: Version, p: Pos)
    requires InAlignment(v, p) && (p.row == 6 || p.column == 6)
    ensures Ring(Offset(Centres(v), p.row), Offset(Centres(v), p.column)) != 1
       <==> (if p.row == 6 then p.column % 2 == 0 else p.row % 2 == 0)
  {
    hide Centres, Offset, NearFinder;
    OffsetParity(v, p.row);
    OffsetParity(v, p.column);
  }

  lemma {:induction false} PatternsReserve(v: Version, p: Pos)
    requires p.row < Size(v) && p.column < Size(v)
    ensures Patterns(v, p.row, p.column).reserved <==> Reserved(v, p)
  {
    AlignmentApart(v, p);
    hide InAlignment, AlignmentModule;
  }

  lemma {:induction false} CornerCells(v: Version, mask: Mask, p: Pos)
    requires p.row < Size(v) && p.column < Size(v) && InCorner(Size(v), p)
    ensures Over(InformationModule(v, mask, p.row, p.column), Patterns(v, p.row, p.column))
         == Cell(FunctionDark(v, mask, p), true)
  {
    AlignmentApart(v, p);
    hide InAlignment, AlignmentModule, Offset, Centres, FormatBit, VersionBit;
  }

  lemma NoFinder(v: Version, p: Pos)
    requires p.row < Size(v) && p.column < Size(v) && !InCorner(Size(v), p)
    ensures FinderModule(0, 0, p.row, p.column).None? && FinderModule(0, Size(v) - 7, p.row, p.column).None?
    ensures FinderModule(Size(v) - 7, 0, p.row, p.column).None?
  {}

  lemma {:induction false} AlignmentCells(v: Version, mask: Mask, p: Pos)
    requires p.row < Size(v) && p.column < Size(v) && InAlignment(v, p) && !InCorner(Size(v), p)
    ensures Over(InformationModule(v, mask, p.row, p.column), Patterns(v, p.row, p.column))
         == Cell(FunctionDark(v, mask, p), true)
  {
    AlignmentApart(v, p);
    NoFinder(v, p);
    if p.row == 6 || p.column == 6 {
      AlignmentOnTiming(v, p);
    }
    hide InAlignment, Offset, Centres, FormatBit, VersionBit, FinderModule;
  }

  lemma {:induction false} LineCells(v: Version, mask: Mask, p: Pos)
    requires p.row < Size(v) && p.column < Size(v) && Reserved(v, p) && !InAlignment(v, p) && !InCorner(Size(v), p)
    ensures Over(InformationModule(v, mask, p.row, p.column), Patterns(v, p.row, p.column))
         == Cell(FunctionDark(v, mask, p), true)
  {
    AlignmentApart(v, p);
    NoFinder(v, p);
    hide InAlignment, AlignmentModule, Offset, Centres, FormatBit, VersionBit, FinderModule;
  }

  lemma {:induction false} FunctionCells(v: Version, mask: Mask, p: Pos)
    requires p.row < Size(v) && p.column < Size(v) && Reserved(v, p)
    ensures Over(InformationModule(v, mask, p.row, p.column), Patterns(v, p.row, p.column))
         == Cell(FunctionDark(v, mask, p), true)
  {
    hide *;
    if InCorner(Size(v), p) {
      CornerCells(v, mask, p);
    } else if InAlignment(v, p) {
      AlignmentCells(v, mask, p);
    } else {
      LineCells(v, mask, p);
    }
  }

  /** A grid drawn for a codeword stream: function modules where cells are reserved, masked bits elsewhere. */
  ghost predicate Drawn(grid: seq<seq<Cell>>, v: Version, codewords: Poly, mask: Mask) {
    && |grid| == Size(v) && (forall y :: 0 <= y < |grid| ==> |grid[y]| == Size(v))
    && (forall y, x :: 0 <= y < Size(v) && 0 <= x < Size(v) && Reserved(v, Pos(y, x)) ==>
      grid[y][x] == Cell(FunctionDark(v, mask, Pos(y, x)), true))
    && (forall i :: 0 <= i < |DataCells(v)| ==>
      var p := DataCells(v)[i];
      && p.row < Size(v) && p.column < Size(v)
      && grid[p.row][p.column] == Cell(StreamBit(codewords, i) != Masked(mask, p.row, p.column), false))
  }

  method DrawPatterns(v: Version) returns (grid: array2<Cell>)
    ensures fresh(grid) && grid.Length0 == grid.Length1 == Size(v)
    ensures forall y: nat, x: nat :: Within(grid, y, x) ==> grid[y, x] == Patterns(v, y, x)
  {
    hide FinderModule, AlignmentModule, TimingModule, ReservedModule;
    var size := 4 * v + 17;
    grid := new Cell[size, size]((_, _) => Cell(false, false));
    Finder(grid, 0, 0);
    Finder(grid, 0, size - 7);
    Finder(grid, size - 7, 0);
    Alignment(grid, v);
    Timing(grid);
    ReserveFormat(grid, v);
  }

  method Draw(codewords: Poly, v: Version, mask: Mask) returns (grid: array2<Cell>)
    ensures fresh(grid) && grid.Length0 == grid.Length1 == Size(v)
    ensures Drawn(Snapshot(grid), v, codewords, mask)
  {
    hide Patterns, FunctionDark, InformationModule, Reserved, StreamBit, Masked, DataCells;
    grid := DrawPatterns(v);
    forall y: nat, x: nat | Within(grid, y, x)
      ensures grid[y, x].reserved <==> Reserved(v, Pos(y, x))
      ensures Reserved(v, Pos(y, x)) ==>
        Over(InformationModule(v, mask, y, x), grid[y, x]) == Cell(FunctionDark(v, mask, Pos(y, x)), true)
      ensures !Reserved(v, Pos(y, x)) ==> InformationModule(v, mask, y, x) == None
    {
      PatternsReserve(v, Pos(y, x));
      InformationReserved(v, mask, Pos(y, x));
      if Reserved(v, Pos(y, x)) {
        FunctionCells(v, mask, Pos(y, x));
      }
    }
    ghost var before := Snapshot(grid);
    PlaceData(grid, v, codewords, mask);
    RoomForCodewords(v);
    WriteFormat(grid, mask, v);
  }

  lemma InformationReserved(v: Version, mask: Mask, p: Pos)
    ensures InformationModule(v, mask, p.row, p.column).Some? ==> Reserved(v, p)
  {}
}
