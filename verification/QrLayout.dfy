/**
 Where things stand in a QR matrix (sections 6.3 and 7.7 of ISO/IEC 18004:2015): the cells kept for
 function patterns, and the order in which the remaining cells take data.
 */
module QrLayout {
  import opened QrData
  import opened QrInterleave

  datatype Pos = Pos(row: nat, column: nat)

  function Size(v: Version): nat { 4 * v + 17 }

  const ALIGNMENT: seq<seq<nat>> := [
    [], [6, 18], [6, 22], [6, 26], [6, 30], [6, 34], [6, 22, 38], [6, 24, 42], [6, 26, 46], [6, 28, 50]
  ]

  function Centres(v: Version): seq<nat> { ALIGNMENT[v - 1] }

  function Abs(x: int): nat { if x < 0 then -x else x }

  /** How far a coordinate is from the alignment centre it belongs to, or 3 when there is none. */
  function Offset(centres: seq<nat>, x: int): (d: int)
    ensures d <= 3 && (Abs(d) <= 2 ==> x - d in centres)
    decreases |centres|
  {
    if centres == [] then 3
    else if Abs(x - centres[0]) <= 2 then x - centres[0]
    else Offset(centres[1..], x)
  }

  /** Alignment patterns give way to the three finder patterns. */
  predicate NearFinder(size: nat, row: int, column: int) {
    || (row <= 8 && column <= 8)
    || (row <= 8 && column >= size - 9)
    || (row >= size - 9 && column <= 8)
  }

  predicate InAlignment(v: Version, p: Pos) {
    var dr, dc := Offset(Centres(v), p.row), Offset(Centres(v), p.column);
    Abs(dr) <= 2 && Abs(dc) <= 2 && !NearFinder(Size(v), p.row - dr, p.column - dc)
  }

  /** The blocks in three corners: finder, separator and format cells. */
  predicate InCorner(size: nat, p: Pos) {
    || (p.row <= 8 && p.column <= 8)
    || (p.row <= 8 && p.column >= size - 8)
    || (p.row >= size - 8 && p.column <= 8)
  }

  predicate InVersionArea(v: Version, p: Pos) {
    && v >= 7
    && var n := Size(v);
       || (p.row < 6 && n - 11 <= p.column <= n - 9)
       || (p.column < 6 && n - 11 <= p.row <= n - 9)
  }

  /** The cells that carry no data. */
  predicate Reserved(v: Version, p: Pos) {
    || InCorner(Size(v), p)
    || p.row == 6 || p.column == 6
    || InAlignment(v, p)
    || InVersionArea(v, p)
  }

  // ----- the walk

  function StepRow(size: nat, upward: bool, step: nat): nat
    requires step < size
  {
    if upward then size - 1 - step else step
  }

  /** The first `steps` pairs of cells of one two-column strip. */
  function Strip(size: nat, right: nat, upward: bool, steps: nat): (s: seq<Pos>)
    requires 0 < right && steps <= size
    ensures |s| == 2 * steps
  {
    if steps == 0 then []
    else
      var row := StepRow(size, upward, steps - 1);
      Strip(size, right, upward, steps - 1) + [Pos(row, right), Pos(row, right - 1)]
  }

  /** The column strip to take when the scan stands at `right`: the timing column is skipped. */
  function Skip(right: nat): nat { if right == 6 then 5 else right }

  /** All cells in the order data is placed, from the strip at `right` to the left edge. */
  function Walk(size: nat, right: nat, upward: bool): seq<Pos> {
    if right == 0 then []
    else
      var r := Skip(right);
      Strip(size, r, upward, size) + (if r < 2 then [] else Walk(size, r - 2, !upward))
  }

  predicate NoDuplicates(s: seq<Pos>) {
    forall i, j :: 0 <= i < j < |s| ==> s[i] != s[j]
  }

  lemma {:induction false} StripCells(size: nat, right: nat, upward: bool, steps: nat)
    requires 0 < right && steps <= size
    ensures NoDuplicates(Strip(size, right, upward, steps))
    ensures forall p :: p in Strip(size, right, upward, steps) <==>
      && (p.column == right || p.column == right - 1)
      && (if upward then size - steps <= p.row < size else p.row < steps)
  {
    if steps > 0 {
      StripCells(size, right, upward, steps - 1);
    }
  }

  lemma ConcatDistinct(a: seq<Pos>, b: seq<Pos>)
    requires NoDuplicates(a) && NoDuplicates(b)
    requires forall i, j :: 0 <= i < |a| && 0 <= j < |b| ==> a[i] != b[j]
    ensures NoDuplicates(a + b)
  {}

  /** Where the scan can stand: on an even column right of the timing column, on it, or on an odd one left of it. */
  predicate AtStrip(right: nat) {
    if right > 6 then right % 2 == 0 else right == 6 || right % 2 == 1 || right == 0
  }

  /** The walk meets every cell left of its start and outside the timing column, and no other. */
  lemma {:induction false} WalkMember(size: nat, right: nat, upward: bool, p: Pos)
    requires AtStrip(right)
    ensures p in Walk(size, right, upward) <==> p.row < size && p.column <= right && p.column != 6 && right > 0
    decreases right
  {
    if right > 0 {
      var r := Skip(right);
      StripCells(size, r, upward, size);
      var strip := Strip(size, r, upward, size);
      assert p in strip <==> (p.column == r || p.column == r - 1) && p.row < size;
      hide Strip;
      if r >= 2 {
        var rest := Walk(size, r - 2, !upward);
        WalkMember(size, r - 2, !upward, p);
        assert Walk(size, right, upward) == strip + rest;
        assert p in strip + rest <==> p in strip || p in rest;
      } else {
        assert Walk(size, right, upward) == strip;
      }
    }
  }

  /** It meets none twice. */
  lemma {:induction false} WalkDistinct(size: nat, right: nat, upward: bool)
    requires AtStrip(right)
    ensures NoDuplicates(Walk(size, right, upward))
    decreases right
  {
    if right > 0 {
      var r := Skip(right);
      StripCells(size, r, upward, size);
      if r >= 2 {
        var strip, rest := Strip(size, r, upward, size), Walk(size, r - 2, !upward);
        WalkDistinct(size, r - 2, !upward);
        forall i, j | 0 <= i < |strip| && 0 <= j < |rest|
          ensures strip[i] != rest[j]
        {
          assert strip[i] in strip && rest[j] in rest;
          WalkMember(size, r - 2, !upward, rest[j]);
        }
        ConcatDistinct(strip, rest);
      }
    }
  }

  lemma {:induction false} WalkLength(size: nat, right: nat, upward: bool)
    requires AtStrip(right)
    ensures |Walk(size, right, upward)| == size * (if right >= 6 then right else if right == 0 then 0 else right + 1)
    decreases right
  {
    if right > 0 {
      var r := Skip(right);
      if r >= 2 {
        WalkLength(size, r - 2, !upward);
        var rest := if r - 2 >= 6 then r - 2 else if r == 2 then 0 else r - 1;
        assert size * (rest + 2) == size * rest + 2 * size;
      }
    }
  }

  function WholeWalk(v: Version): seq<Pos> { Walk(Size(v), Size(v) - 1, true) }

  /** The cells of a walk that take data. */
  function Unreserved(v: Version, walk: seq<Pos>): (s: seq<Pos>)
    ensures forall p :: p in s <==> p in walk && !Reserved(v, p)
  {
    if walk == [] then []
    else
      var last := walk[|walk| - 1];
      Unreserved(v, walk[..|walk| - 1]) + (if Reserved(v, last) then [] else [last])
  }

  function DataCells(v: Version): seq<Pos> { Unreserved(v, WholeWalk(v)) }

  lemma {:induction false} UnreservedDistinct(v: Version, walk: seq<Pos>)
    requires NoDuplicates(walk)
    ensures NoDuplicates(Unreserved(v, walk))
  {
    if walk != [] {
      UnreservedDistinct(v, walk[..|walk| - 1]);
    }
  }

  // ----- there is room for every codeword

  datatype Rect = Rect(top: nat, bottom: nat, left: nat, right: nat)

  /** Rows top to bottom and columns left to right, the ends excluded. */
  predicate InRect(r: Rect, p: Pos) {
    r.top <= p.row < r.bottom && r.left <= p.column < r.right
  }

  function Area(r: Rect): nat {
    if r.top <= r.bottom && r.left <= r.right then (r.bottom - r.top) * (r.right - r.left) else 0
  }

  function TotalArea(rects: seq<Rect>): nat {
    if rects == [] then 0 else Area(rects[0]) + TotalArea(rects[1..])
  }

  predicate Covered(rects: seq<Rect>, p: Pos) {
    exists r :: r in rects && InRect(r, p)
  }

  /** The part of a walk inside one rectangle is no larger than the rectangle. */
  lemma {:induction false} CellsInRect(s: set<Pos>, r: Rect)
    requires forall p :: p in s ==> InRect(r, p)
    ensures |s| <= Area(r)
    decreases r.bottom
  {
    if s != {} {
      var p :| p in s;
      var lower := set q | q in s && q.row == r.bottom - 1;
      var upper := r.(bottom := r.bottom - 1);
      CellsInRect(s - lower, upper);
      CellsInRow(lower, r.bottom - 1, r.left, r.right);
      assert |s| == |s - lower| + |lower|;
      AreaOfOneMoreRow(r);
    }
  }

  lemma AreaOfOneMoreRow(r: Rect)
    requires r.top < r.bottom && r.left < r.right
    ensures Area(r) == Area(r.(bottom := r.bottom - 1)) + (r.right - r.left)
  {}

  lemma {:induction false} CellsInRow(s: set<Pos>, row: nat, left: nat, right: nat)
    requires left <= right && forall p :: p in s ==> p.row == row && left <= p.column < right
    ensures |s| <= right - left
    decreases right
  {
    if left < right {
      CellsInRow(s - {Pos(row, right - 1)}, row, left, right - 1);
    } else {
      assert s == {};
    }
  }

  lemma {:induction false} CellsCovered(s: set<Pos>, rects: seq<Rect>)
    requires forall p :: p in s ==> Covered(rects, p)
    ensures |s| <= TotalArea(rects)
  {
    if rects == [] {
      assert s == {};
    } else {
      var inside := set p | p in s && InRect(rects[0], p);
      CellsInRect(inside, rects[0]);
      forall p | p in s - inside
        ensures Covered(rects[1..], p)
      {
        var r :| r in rects && InRect(r, p);
        assert r in rects[1..];
      }
      CellsCovered(s - inside, rects[1..]);
      assert |s| == |s - inside| + |inside|;
    }
  }

  /** Rectangles that together hold every reserved cell outside the timing column. */
  function Regions(v: Version): seq<Rect> {
    var n := Size(v);
    [Rect(0, 9, 0, 6), Rect(0, 9, 7, 9), Rect(0, 9, n - 8, n), Rect(n - 8, n, 0, 6), Rect(n - 8, n, 7, 9),
     Rect(6, 7, 9, n - 8)]
    + AlignmentRegions(Centres(v))
    + (if v < 7 then [] else [Rect(0, 6, n - 11, n - 8), Rect(n - 11, n - 8, 0, 6)])
  }

  function AlignmentRegions(c: seq<nat>): seq<Rect> {
    if |c| < 2 then []
    else if |c| == 2 then [Around(c[1], c[1])]
    else
      [Rect(4, 6, From(c[1]), c[1] + 3), Rect(7, 9, From(c[1]), c[1] + 3),
       Rect(From(c[1]), c[1] + 3, 4, 6), Rect(From(c[1]), c[1] + 3, 7, 9),
       Around(c[1], c[1]), Around(c[1], c[2]), Around(c[2], c[1]), Around(c[2], c[2])]
  }

  function From(centre: nat): nat { if centre < 2 then 0 else centre - 2 }

  function Around(row: nat, column: nat): Rect {
    Rect(From(row), row + 3, From(column), column + 3)
  }

  /** The centres run from the timing column to seven cells before the edge, well apart. */
  lemma CentresShape(v: Version)
    requires v > 1
    ensures var c := Centres(v);
            && |c| == (if v < 7 then 2 else 3)
            && c[0] == 6 && c[|c| - 1] == Size(v) - 7
            && (v >= 7 ==> c[0] + 16 <= c[1] <= c[2] - 16)
            && (v < 7 ==> c[0] + 12 <= c[1])
  {}

  lemma {:induction false} OffsetTwo(c: seq<nat>, x: int)
    requires |c| == 2
    ensures Offset(c, x) == if Abs(x - c[0]) <= 2 then x - c[0] else if Abs(x - c[1]) <= 2 then x - c[1] else 3
  {
    assert c[1..] == [c[1]];
    assert Offset([c[1]], x) == if Abs(x - c[1]) <= 2 then x - c[1] else Offset([], x);
  }

  lemma {:induction false} OffsetThree(c: seq<nat>, x: int)
    requires |c| == 3
    ensures Offset(c, x) == if Abs(x - c[0]) <= 2 then x - c[0] else if Abs(x - c[1]) <= 2 then x - c[1]
                            else if Abs(x - c[2]) <= 2 then x - c[2] else 3
  {
    OffsetTwo(c[1..], x);
  }

  lemma CoveredBy(rects: seq<Rect>, i: nat, p: Pos)
    requires i < |rects| && InRect(rects[i], p)
    ensures Covered(rects, p)
  {}

  lemma {:induction false} AlignmentCoveredSmall(v: Version, p: Pos)
    requires 1 < v < 7 && InAlignment(v, p)
    ensures Covered(AlignmentRegions(Centres(v)), p)
  {
    CentresShape(v);
    hide Covered, Centres;
    var c := Centres(v);
    OffsetTwo(c, p.row);
    OffsetTwo(c, p.column);
    CoveredBy(AlignmentRegions(c), 0, p);
  }

  lemma {:induction false} AlignmentCoveredLarge(v: Version, p: Pos)
    requires v >= 7 && InAlignment(v, p) && p.row != 6 && p.column != 6
    ensures Covered(AlignmentRegions(Centres(v)), p)
  {
    CentresShape(v);
    hide Covered, Centres, Offset;
    var c := Centres(v);
    NearCentresCovered(c, Size(v), p, p.row - Offset(c, p.row), p.column - Offset(c, p.column));
  }

  lemma {:induction false} NearCentresCovered(c: seq<nat>, size: nat, p: Pos, a: int, b: int)
    requires |c| == 3 && c[0] == 6 && c[2] + 7 == size && 22 <= c[1] && c[1] + 16 <= c[2]
    requires (a == c[0] || a == c[1] || a == c[2]) && (b == c[0] || b == c[1] || b == c[2]) && !NearFinder(size, a, b)
    requires Abs(p.row - a) <= 2 && Abs(p.column - b) <= 2 && p.row != 6 && p.column != 6
    ensures Covered(AlignmentRegions(c), p)
  {
    hide Covered;
    var i := if a == 6 then (if p.row < 6 then 0 else 1)
             else if b == 6 then (if p.column < 6 then 2 else 3)
             else if a == c[1] then (if b == c[1] then 4 else 5)
             else if b == c[1] then 6 else 7;
    CoveredBy(AlignmentRegions(c), i, p);
  }

  lemma CornerCovered(v: Version, p: Pos)
    requires InCorner(Size(v), p) || p.row == 6
    requires p.column != 6 && p.row < Size(v) && p.column < Size(v)
    ensures Covered(Regions(v), p)
  {
    hide Covered, AlignmentRegions;
    var n := Size(v);
    var i := if p.row <= 8 && p.column < 6 then 0 else if p.row <= 8 && p.column <= 8 then 1
             else if p.row <= 8 && p.column >= n - 8 then 2
             else if p.row == 6 then 5
             else if p.column < 6 then 3 else 4;
    CoveredBy(Regions(v), i, p);
  }

  lemma {:induction false} ReservedCovered(v: Version, p: Pos)
    requires Reserved(v, p) && p.column != 6 && p.row < Size(v) && p.column < Size(v)
    ensures Covered(Regions(v), p)
  {
    hide InAlignment, InCorner, AlignmentRegions, Centres, InRect;
    if InCorner(Size(v), p) || p.row == 6 {
      CornerCovered(v, p);
    } else if InAlignment(v, p) {
      NoAlignmentInOne(v, p);
      if v < 7 { AlignmentCoveredSmall(v, p); } else { AlignmentCoveredLarge(v, p); }
      var r :| r in AlignmentRegions(Centres(v)) && InRect(r, p);
      assert r in Regions(v);
    } else {
      VersionCovered(v, p);
    }
  }

  lemma NoAlignmentInOne(v: Version, p: Pos)
    requires InAlignment(v, p)
    ensures v > 1
  {}

  lemma VersionCovered(v: Version, p: Pos)
    requires InVersionArea(v, p)
    ensures Covered(Regions(v), p)
  {
    hide Covered, AlignmentRegions;
    var rects := Regions(v);
    CoveredBy(rects, if p.row < 6 then |rects| - 2 else |rects| - 1, p);
  }

  lemma {:induction false} TotalAreaConcat(a: seq<Rect>, b: seq<Rect>)
    ensures TotalArea(a + b) == TotalArea(a) + TotalArea(b)
  {
    if a == [] {
      assert a + b == b;
    } else {
      TotalAreaConcat(a[1..], b);
      assert (a + b)[1..] == a[1..] + b;
    }
  }

  lemma NoArea(rects: seq<Rect>)
    requires rects == []
    ensures TotalArea(rects) == 0
  {}

  lemma TotalAreaOfTwo(a: Rect, b: Rect)
    ensures TotalArea([a, b]) == Area(a) + Area(b) && TotalArea([a]) == Area(a)
  {
    assert [a, b][1..] == [b] && [b][1..] == [] && [a][1..] == [];
    assert TotalArea([b]) == Area(b) + TotalArea([]) && TotalArea([a]) == Area(a) + TotalArea([]);
  }

  lemma TotalAreaOfFour(a: Rect, b: Rect, c: Rect, d: Rect)
    ensures TotalArea([a, b, c, d]) == Area(a) + Area(b) + Area(c) + Area(d)
  {
    assert [a, b, c, d] == [a, b] + [c, d];
    TotalAreaConcat([a, b], [c, d]);
    TotalAreaOfTwo(a, b);
    TotalAreaOfTwo(c, d);
  }

  lemma {:induction false} AlignmentArea(v: Version)
    ensures TotalArea(AlignmentRegions(Centres(v))) == if v == 1 then 0 else if v < 7 then 25 else 140
  {
    if v > 1 { CentresShape(v); }
    var c := Centres(v);
    var rects := AlignmentRegions(c);
    if v == 1 {
      assert rects == [];
    } else if v < 7 {
      TotalAreaOfTwo(rects[0], rects[0]);
    } else {
      assert rects == rects[..4] + rects[4..];
      TotalAreaConcat(rects[..4], rects[4..]);
      TotalAreaOfFour(rects[0], rects[1], rects[2], rects[3]);
      TotalAreaOfFour(rects[4], rects[5], rects[6], rects[7]);
      assert rects[..4] == [rects[0], rects[1], rects[2], rects[3]];
      assert rects[4..] == [rects[4], rects[5], rects[6], rects[7]];
    }
  }

  function ReservedBound(v: Version): nat {
    208 + (Size(v) - 17) + (if v == 1 then 0 else if v < 7 then 25 else 140) + (if v < 7 then 0 else 36)
  }

  lemma {:induction false} RegionsArea(v: Version)
    ensures TotalArea(Regions(v)) == ReservedBound(v)
  {
    hide TotalArea, AlignmentRegions;
    var n := Size(v);
    var corners := [Rect(0, 9, 0, 6), Rect(0, 9, 7, 9), Rect(0, 9, n - 8, n), Rect(n - 8, n, 0, 6)];
    var edges := [Rect(n - 8, n, 7, 9), Rect(6, 7, 9, n - 8)];
    var align := AlignmentRegions(Centres(v));
    var info := if v < 7 then [] else [Rect(0, 6, n - 11, n - 8), Rect(n - 11, n - 8, 0, 6)];
    assert corners + edges + align + info == Regions(v);
    TotalAreaConcat(corners, edges);
    TotalAreaConcat(corners + edges, align);
    TotalAreaConcat(corners + edges + align, info);
    TotalAreaOfFour(corners[0], corners[1], corners[2], corners[3]);
    TotalAreaOfTwo(edges[0], edges[1]);
    AlignmentArea(v);
    if v >= 7 { TotalAreaOfTwo(info[0], info[1]); } else { NoArea(info); }
  }

  /** The complement of `Unreserved` in a walk. */
  function Kept(v: Version, walk: seq<Pos>): (s: seq<Pos>)
    ensures forall p :: p in s <==> p in walk && Reserved(v, p)
  {
    if walk == [] then []
    else
      var last := walk[|walk| - 1];
      Kept(v, walk[..|walk| - 1]) + (if Reserved(v, last) then [last] else [])
  }

  lemma {:induction false} KeptCount(v: Version, walk: seq<Pos>)
    requires NoDuplicates(walk)
    ensures |Unreserved(v, walk)| + |Kept(v, walk)| == |walk|
    ensures NoDuplicates(Kept(v, walk))
  {
    if walk != [] {
      KeptCount(v, walk[..|walk| - 1]);
    }
  }

  lemma {:induction false} DistinctSize(s: seq<Pos>) returns (cells: set<Pos>)
    requires NoDuplicates(s)
    ensures |cells| == |s| && forall p :: p in cells <==> p in s
  {
    if s == [] {
      cells := {};
    } else {
      var rest := DistinctSize(s[..|s| - 1]);
      cells := rest + {s[|s| - 1]};
    }
  }

  /** The walk stays inside the matrix and off the timing column. */
  lemma {:induction false} WholeWalkCells(v: Version)
    ensures |WholeWalk(v)| == Size(v) * (Size(v) - 1) && NoDuplicates(WholeWalk(v))
    ensures forall p :: p in WholeWalk(v) ==> p.row < Size(v) && p.column < Size(v) && p.column != 6
  {
    hide Walk;
    var n := Size(v);
    WalkLength(n, n - 1, true);
    WalkDistinct(n, n - 1, true);
    forall p | p in WholeWalk(v)
      ensures p.row < n && p.column < n && p.column != 6
    {
      WalkMember(n, n - 1, true, p);
    }
  }

  /** Every version leaves a module for every bit of every codeword. */
  lemma {:induction false} RoomForCodewords(v: Version)
    ensures |DataCells(v)| >= 8 * TotalCodewords(v)
    ensures NoDuplicates(DataCells(v))
    ensures forall p :: p in DataCells(v) ==> p.row < Size(v) && p.column < Size(v) && !Reserved(v, p)
  {
    hide Reserved, WholeWalk, Covered, Regions, TotalCodewords, ReservedBound, NoDuplicates, Unreserved, Kept;
    var walk := WholeWalk(v);
    WholeWalkCells(v);
    UnreservedDistinct(v, walk);
    KeptCount(v, walk);
    var kept := DistinctSize(Kept(v, walk));
    forall p | p in kept
      ensures Covered(Regions(v), p)
    {
      ReservedCovered(v, p);
    }
    CellsCovered(kept, Regions(v));
    RegionsArea(v);
    CodewordsTable(v);
  }

  lemma {:induction false} CodewordsTable(v: Version)
    ensures 8 * TotalCodewords(v) <= Size(v) * (Size(v) - 1) - ReservedBound(v)
  {}
}
