/**
 Block interleaving (section 7.6 of ISO/IEC 18004:2015). The encoder writes the blocks column by
 column; the reader finds the k-th octet of block j at `Position`, counted from the block lengths
 alone.
 */
module QrInterleave {
  import opened Bytes
  import opened Gf256
  import opened ReedSolomon
  import opened QrData

  function Lengths(groups: seq<Group>): seq<nat> {
    if groups == [] then [] else seq(groups[0].blocks, _ => groups[0].dataCodewords) + Lengths(groups[1..])
  }

  function BlockLengths(v: Version): seq<nat> { Lengths(Spec(v).groups) }

  lemma {:induction false} LengthsBounded(groups: seq<Group>, most: nat)
    requires forall g :: g in groups ==> g.dataCodewords <= most
    ensures forall i :: 0 <= i < |Lengths(groups)| ==> Lengths(groups)[i] <= most
  {
    if groups != [] {
      LengthsBounded(groups[1..], most);
    }
  }

  lemma {:induction false} SumConcat(a: seq<nat>, b: seq<nat>)
    ensures Sum(a + b) == Sum(a) + Sum(b)
  {
    if a == [] {
      assert a + b == b;
    } else {
      SumConcat(a[1..], b);
      assert (a + b)[1..] == a[1..] + b;
    }
  }

  lemma {:induction false} SumConstant(n: nat, c: nat)
    ensures Sum(seq(n, _ => c)) == n * c
  {
    if n > 0 {
      SumConstant(n - 1, c);
      assert seq(n, _ => c)[1..] == seq(n - 1, _ => c);
    }
  }

  lemma {:induction false} LengthsTotal(groups: seq<Group>)
    ensures Sum(Lengths(groups)) == GroupTotal(groups)
  {
    if groups != [] {
      LengthsTotal(groups[1..]);
      SumConcat(seq(groups[0].blocks, _ => groups[0].dataCodewords), Lengths(groups[1..]));
      SumConstant(groups[0].blocks, groups[0].dataCodewords);
    }
  }

  // ----- columns

  function LensOf(blocks: seq<Poly>): (lens: seq<nat>)
    ensures |lens| == |blocks|
  {
    seq(|blocks|, j requires 0 <= j < |blocks| => |blocks[j]|)
  }

  /** The k-th octets of all blocks that have one. */
  function Column(blocks: seq<Poly>, k: nat): Poly {
    if blocks == [] then []
    else
      var b := blocks[|blocks| - 1];
      Column(blocks[..|blocks| - 1], k) + (if k < |b| then [b[k]] else [])
  }

  function Columns(blocks: seq<Poly>, n: nat): Poly {
    if n == 0 then [] else Columns(blocks, n - 1) + Column(blocks, n - 1)
  }

  /** How many blocks reach column k. */
  function Reaching(lens: seq<nat>, k: nat): nat {
    if lens == [] then 0 else Reaching(lens[..|lens| - 1], k) + (if k < lens[|lens| - 1] then 1 else 0)
  }

  /** How many octets the first n columns hold. */
  function Before(lens: seq<nat>, n: nat): nat {
    if n == 0 then 0 else Before(lens, n - 1) + Reaching(lens, n - 1)
  }

  /** Where the k-th octet of block j stands in the stream. */
  function Position(lens: seq<nat>, j: nat, k: nat): nat
    requires j < |lens|
  {
    Before(lens, k) + Reaching(lens[..j], k)
  }

  lemma {:induction false} ColumnSize(blocks: seq<Poly>, k: nat)
    ensures |Column(blocks, k)| == Reaching(LensOf(blocks), k)
  {
    if blocks != [] {
      ColumnSize(blocks[..|blocks| - 1], k);
      assert LensOf(blocks)[..|blocks| - 1] == LensOf(blocks[..|blocks| - 1]);
    }
  }

  lemma {:induction false} ColumnsSize(blocks: seq<Poly>, n: nat)
    ensures |Columns(blocks, n)| == Before(LensOf(blocks), n)
  {
    if n > 0 {
      ColumnsSize(blocks, n - 1);
      ColumnSize(blocks, n - 1);
    }
  }

  lemma {:induction false} ColumnAt(blocks: seq<Poly>, j: nat, k: nat)
    requires j < |blocks| && k < |blocks[j]|
    ensures Reaching(LensOf(blocks)[..j], k) < |Column(blocks, k)|
    ensures Column(blocks, k)[Reaching(LensOf(blocks)[..j], k)] == blocks[j][k]
  {
    var n := |blocks| - 1;
    var shorter := blocks[..n];
    ColumnSize(shorter, k);
    assert LensOf(shorter) == LensOf(blocks)[..n];
    if j < n {
      ColumnAt(shorter, j, k);
      assert LensOf(shorter)[..j] == LensOf(blocks)[..j];
    }
  }

  lemma {:induction false} ColumnsAt(blocks: seq<Poly>, n: nat, j: nat, k: nat)
    requires j < |blocks| && k < |blocks[j]| && k < n
    ensures Position(LensOf(blocks), j, k) < |Columns(blocks, n)|
    ensures Columns(blocks, n)[Position(LensOf(blocks), j, k)] == blocks[j][k]
  {
    hide Column, Reaching, LensOf;
    ColumnsSize(blocks, n - 1);
    var at := Position(LensOf(blocks), j, k);
    assert Columns(blocks, n) == Columns(blocks, n - 1) + Column(blocks, n - 1);
    if k < n - 1 {
      ColumnsAt(blocks, n - 1, j, k);
    } else {
      ColumnAt(blocks, j, k);
    }
  }


  function Capped(lens: seq<nat>, n: nat): seq<nat> {
    seq(|lens|, j requires 0 <= j < |lens| => Min(lens[j], n))
  }

  lemma {:induction false} ReachingIsGrowth(lens: seq<nat>, k: nat)
    ensures Sum(Capped(lens, k + 1)) == Sum(Capped(lens, k)) + Reaching(lens, k)
  {
    if lens != [] {
      var n := |lens| - 1;
      ReachingIsGrowth(lens[..n], k);
      assert Capped(lens, k + 1) == Capped(lens[..n], k + 1) + [Min(lens[n], k + 1)];
      assert Capped(lens, k) == Capped(lens[..n], k) + [Min(lens[n], k)];
      SumConcat(Capped(lens[..n], k + 1), [Min(lens[n], k + 1)]);
      SumConcat(Capped(lens[..n], k), [Min(lens[n], k)]);
    }
  }

  lemma {:induction false} BeforeIsCappedSum(lens: seq<nat>, n: nat)
    ensures Before(lens, n) == Sum(Capped(lens, n))
  {
    if n == 0 {
      assert Capped(lens, 0) == seq(|lens|, _ => 0);
      SumConstant(|lens|, 0);
    } else {
      BeforeIsCappedSum(lens, n - 1);
      ReachingIsGrowth(lens, n - 1);
    }
  }

  /** The columns up to the longest block hold every octet. */
  lemma ColumnsTotal(blocks: seq<Poly>, n: nat)
    requires forall b :: b in blocks ==> |b| <= n
    ensures |Columns(blocks, n)| == Sum(LensOf(blocks))
  {
    ColumnsSize(blocks, n);
    BeforeIsCappedSum(LensOf(blocks), n);
    assert Capped(LensOf(blocks), n) == LensOf(blocks);
  }

  // ----- blocks

  function Split(data: Poly, lens: seq<nat>): (blocks: seq<Poly>)
    requires |data| == Sum(lens)
    ensures |blocks| == |lens|
    ensures forall j :: 0 <= j < |lens| ==> |blocks[j]| == lens[j]
  {
    if lens == [] then [] else [data[..lens[0]]] + Split(data[lens[0]..], lens[1..])
  }

  lemma {:induction false} JoinSplit(data: Poly, lens: seq<nat>)
    requires |data| == Sum(lens)
    ensures Join(Split(data, lens)) == data
  {
    if lens != [] {
      JoinSplit(data[lens[0]..], lens[1..]);
      assert Split(data, lens)[1..] == Split(data[lens[0]..], lens[1..]);
    }
  }

  /** The slice taken for a block, by the running offset of the loop. */
  lemma {:induction false} SplitAt(data: Poly, lens: seq<nat>, j: nat)
    requires |data| == Sum(lens) && j < |lens|
    ensures Sum(lens[..j]) + lens[j] <= |data|
    ensures Split(data, lens)[j] == data[Sum(lens[..j])..Sum(lens[..j]) + lens[j]]
  {
    if j == 0 {
      assert lens[..0] == [];
    } else {
      SplitAt(data[lens[0]..], lens[1..], j - 1);
      assert lens[..j][1..] == lens[1..][..j - 1];
      assert Sum(lens[..j]) == lens[0] + Sum(lens[1..][..j - 1]);
      hide Sum;
    }
  }

  /** What the reader takes for block j of the data part, and for its check octets. */
  function ReadBlock(stream: Poly, lens: seq<nat>, j: nat): (r: Poly)
    requires j < |lens|
    ensures |r| == lens[j]
  {
    seq(lens[j], k requires 0 <= k < lens[j] =>
      if Position(lens, j, k) < |stream| then stream[Position(lens, j, k)] else ZERO)
  }

  function ReadData(stream: Poly, v: Version): Poly {
    var lens := BlockLengths(v);
    Join(seq(|lens|, j requires 0 <= j < |lens| => ReadBlock(stream, lens, j)))
  }

  function CheckLengths(v: Version): seq<nat> {
    seq(|BlockLengths(v)|, _ => Spec(v).ecPerBlock)
  }

  function ReadCheck(stream: Poly, v: Version, j: nat): (r: Poly)
    requires j < |BlockLengths(v)| && |stream| >= Capacity(v)
  {
    ReadBlock(stream[Capacity(v)..], CheckLengths(v), j)
  }

  function TotalCodewords(v: Version): nat {
    Capacity(v) + |BlockLengths(v)| * Spec(v).ecPerBlock
  }

  // ----- the encoder

  method WriteColumns(blocks: seq<Poly>, n: nat) returns (out: Poly)
    ensures out == Columns(blocks, n)
  {
    out := [];
    for i := 0 to n
      invariant out == Columns(blocks, i)
    {
      ghost var done := out;
      for j := 0 to |blocks|
        invariant out == done + Column(blocks[..j], i)
      {
        var block := blocks[j];
        assert blocks[..j + 1][..j] == blocks[..j];
        if i < |block| {
          out := out + [block[i]];
        }
      }
      assert blocks[..|blocks|] == blocks;
    }
  }

  /** The first blocks of the data, each with check octets that complete a code word. */
  ghost predicate Taken(data: Poly, lens: seq<nat>, ec: nat, blocks: seq<Poly>, ecBlocks: seq<Poly>) {
    && |data| == Sum(lens)
    && |blocks| == |ecBlocks| <= |lens|
    && blocks == Split(data, lens)[..|blocks|]
    && (forall j :: 0 <= j < |blocks| ==> |ecBlocks[j]| == ec && IsCodeword(blocks[j] + ecBlocks[j], ec))
  }

  method TakeBlock(tables: Tables, data: Poly, ghost lens: seq<nat>, at: nat, length: nat, ec: nat,
                   blocks: seq<Poly>, ecBlocks: seq<Poly>)
      returns (at': nat, blocks': seq<Poly>, ecBlocks': seq<Poly>)
    requires tables.Valid() && 0 < ec <= 512
    requires Taken(data, lens, ec, blocks, ecBlocks) && at == Sum(lens[..|blocks|])
    requires |blocks| < |lens| && lens[|blocks|] == length
    ensures Taken(data, lens, ec, blocks', ecBlocks') && |blocks'| == |blocks| + 1
    ensures at' == Sum(lens[..|blocks'|])
  {
    hide IsCodeword, Split;
    ghost var j := |blocks|;
    SplitAt(data, lens, j);
    assert lens[..j + 1] == lens[..j] + [lens[j]];
    SumConcat(lens[..j], [lens[j]]);
    var block := data[at..at + length];
    var check := ErrorCorrection(tables, block, ec);
    at' := at + length;
    blocks' := blocks + [block];
    ecBlocks' := ecBlocks + [check];
  }

  method SplitBlocks(tables: Tables, data: Poly, v: Version) returns (blocks: seq<Poly>, ecBlocks: seq<Poly>)
    requires tables.Valid() && |data| == Capacity(v)
    ensures Taken(data, BlockLengths(v), Spec(v).ecPerBlock, blocks, ecBlocks)
    ensures |blocks| == |BlockLengths(v)|
  {
    var spec := Spec(v);
    assert 0 < spec.ecPerBlock <= 512;
    LengthsTotal(spec.groups);
    hide Taken, Capacity, GroupTotal, Spec;
    ghost var lens := Lengths(spec.groups);
    assert Taken(data, lens, spec.ecPerBlock, [], []) by { NothingTaken(data, lens, spec.ecPerBlock); }
    CapacityIsTotal(v);
    blocks, ecBlocks := [], [];
    var at := 0;
    for g := 0 to |spec.groups|
      invariant Taken(data, lens, spec.ecPerBlock, blocks, ecBlocks)
      invariant |blocks| == |Lengths(spec.groups[..g])| && at == Sum(lens[..|blocks|])
    {
      var group := spec.groups[g];
      ghost var start := |blocks|;
      LengthsPrefix(spec.groups, g);
      for i := 0 to group.blocks
        invariant Taken(data, lens, spec.ecPerBlock, blocks, ecBlocks)
        invariant |blocks| == start + i && at == Sum(lens[..|blocks|])
      {
        at, blocks, ecBlocks :=
          TakeBlock(tables, data, lens, at, group.dataCodewords, spec.ecPerBlock, blocks, ecBlocks);
      }
    }
    assert spec.groups[..|spec.groups|] == spec.groups;
  }

  lemma NothingTaken(data: Poly, lens: seq<nat>, ec: nat)
    requires |data| == Sum(lens)
    ensures Taken(data, lens, ec, [], [])
  {}

  lemma CapacityIsTotal(v: Version)
    ensures Capacity(v) == GroupTotal(Spec(v).groups)
  {}

  lemma {:induction false} LengthsPrefix(groups: seq<Group>, g: nat)
    requires g < |groups|
    ensures Lengths(groups[..g + 1]) == Lengths(groups[..g]) + seq(groups[g].blocks, _ => groups[g].dataCodewords)
    ensures Lengths(groups[..g + 1]) <= Lengths(groups)
  {
    if g > 0 {
      LengthsPrefix(groups[1..], g - 1);
      assert groups[..g + 1][1..] == groups[1..][..g] && groups[..g][1..] == groups[1..][..g - 1];
    } else {
      assert groups[..1][1..] == [] && groups[..0] == [];
    }
  }

  /** The stream gives back the data, and every block read with its check octets is a code word. */
  method Interleave(tables: Tables, data: Poly, v: Version) returns (out: Poly)
    requires tables.Valid() && |data| == Capacity(v)
    ensures |out| == TotalCodewords(v)
    ensures ReadData(out, v) == data
    ensures forall j :: 0 <= j < |BlockLengths(v)| ==>
      IsCodeword(ReadBlock(out, BlockLengths(v), j) + ReadCheck(out, v, j), Spec(v).ecPerBlock)
  {
    hide IsCodeword, Capacity, Split, Columns, Spec;
    var blocks, ecBlocks := SplitBlocks(tables, data, v);
    var longest: nat := 0;
    for j := 0 to |blocks|
      invariant forall k :: 0 <= k < j ==> |blocks[k]| <= longest
    {
      if |blocks[j]| > longest { longest := |blocks[j]|; }
    }
    var ec := Spec(v).ecPerBlock;
    var body := WriteColumns(blocks, longest);
    var checks := WriteColumns(ecBlocks, ec);
    out := body + checks;
    StreamReadsBack(data, v, blocks, ecBlocks, longest);
  }

  lemma StreamReadsBack(data: Poly, v: Version, blocks: seq<Poly>, ecBlocks: seq<Poly>, longest: nat)
    requires |data| == Capacity(v) && |blocks| == |BlockLengths(v)|
    requires Taken(data, BlockLengths(v), Spec(v).ecPerBlock, blocks, ecBlocks)
    requires forall b :: b in blocks ==> |b| <= longest
    ensures var out := Columns(blocks, longest) + Columns(ecBlocks, Spec(v).ecPerBlock);
            && |out| == TotalCodewords(v)
            && ReadData(out, v) == data
            && forall j :: 0 <= j < |blocks| ==>
              IsCodeword(ReadBlock(out, BlockLengths(v), j) + ReadCheck(out, v, j), Spec(v).ecPerBlock)
  {
    hide IsCodeword, Capacity, Split, Columns, Spec, ReadBlock;
    var lens, ec := BlockLengths(v), Spec(v).ecPerBlock;
    var body, checks := Columns(blocks, longest), Columns(ecBlocks, ec);
    var out := body + checks;
    assert blocks == Split(data, lens);
    assert LensOf(blocks) == lens && LensOf(ecBlocks) == CheckLengths(v);
    ColumnsTotal(blocks, longest);
    ColumnsTotal(ecBlocks, ec);
    SumConstant(|lens|, ec);
    JoinSplit(data, lens);
    assert out[Capacity(v)..] == checks + [];
    forall j | 0 <= j < |lens|
      ensures ReadBlock(out, lens, j) == blocks[j] && ReadCheck(out, v, j) == ecBlocks[j]
    {
      ReadsBack(blocks, longest, body, checks, j);
      ReadsBack(ecBlocks, ec, checks, [], j);
    }
    assert seq(|lens|, j requires 0 <= j < |lens| => ReadBlock(out, lens, j)) == blocks;
  }

  lemma ReadsBack(blocks: seq<Poly>, n: nat, stream: Poly, rest: Poly, j: nat)
    requires stream == Columns(blocks, n) && j < |blocks| && |blocks[j]| <= n
    ensures ReadBlock(stream + rest, LensOf(blocks), j) == blocks[j]
  {
    forall k | 0 <= k < |blocks[j]|
      ensures ReadBlock(stream + rest, LensOf(blocks), j)[k] == blocks[j][k]
    {
      ColumnsAt(blocks, n, j, k);
    }
  }
}
