/**
 At-rest encryption in counter mode (section 6.5 and appendix B.1 of NIST SP 800-38A), positioned at
 any byte offset by adding to a big-endian counter by hand.
 */
module Shred {
  import opened Bytes
  import opened Multipart

  const BLOCK: nat := 16

  /** Offsets are 64-bit and signed. */
  const LIMIT: nat := 0x8000_0000_0000_0000

  // ----- the counter

  lemma {:induction false} ValueBound(c: Bytes)
    ensures Value(c) < Pow256(|c|)
  {
    if c != [] {
      ValueBound(c[..|c| - 1]);
    }
  }

  lemma {:induction false} ValueInjective(a: Bytes, b: Bytes)
    requires |a| == |b| && Value(a) == Value(b)
    ensures a == b
  {
    if a != [] {
      var n := |a| - 1;
      ValueInjective(a[..n], b[..n]);
      assert a == a[..n] + [a[n]] && b == b[..n] + [b[n]];
    }
  }

  /** Reduction modulo p, kept apart so that proofs reason by its law. */
  function Wrap(n: nat, p: nat): nat
    requires p > 0
  {
    n % p
  }

  /** The counter after a carry has been added at its low end, octet by octet. */
  function AddCarry(c: Bytes, carry: nat): (r: Bytes)
    ensures |r| == |c|
  {
    if c == [] || carry == 0 then c
    else
      var n := |c| - 1;
      var sum := c[n] + carry % 256;
      AddCarry(c[..n], carry / 256 + sum / 256) + [sum % 256]
  }

  /** Octet-wise addition is addition modulo 256^length. */
  lemma {:induction false} AddCarryAdds(c: Bytes, carry: nat)
    ensures Value(AddCarry(c, carry)) == Wrap(Value(c) + carry, Pow256(|c|))
  {
    hide Wrap;
    if c == [] || carry == 0 {
      ValueBound(c);
      WrapSmall(Value(c), Pow256(|c|));
      if c == [] { WrapOne(carry); }
    } else {
      var n := |c| - 1;
      var sum: nat := c[n] + carry % 256;
      var high := carry / 256 + sum / 256;
      AddCarryAdds(c[..n], high);
      var r := AddCarry(c, carry);
      assert r[..n] == AddCarry(c[..n], high) && r[n] == sum % 256;
      assert Value(r) == 256 * Value(r[..n]) + r[n] && Value(c) == 256 * Value(c[..n]) + c[n];
      assert Pow256(|c|) == 256 * Pow256(n);
      hide Value, AddCarry, Pow256;
      CarryOut(Value(c[..n]), c[n], carry);
      ModuloOctet(Value(c[..n]) + high, sum % 256, Pow256(n));
    }
  }

  lemma WrapSmall(n: nat, p: nat)
    requires n < p
    ensures Wrap(n, p) == n
  {}

  lemma WrapOne(n: nat)
    ensures Wrap(n, 1) == 0
  {}

  lemma CarryOut(v: nat, octet: byte, carry: nat)
    ensures var sum := octet + carry % 256;
            256 * (v + (carry / 256 + sum / 256)) + sum % 256 == 256 * v + octet + carry
  {}

  lemma ModuloOctet(high: nat, low: nat, p: nat)
    requires p > 0 && low < 256
    ensures Wrap(256 * high + low, 256 * p) == 256 * Wrap(high, p) + low
  {
    var q, r := high / p, high % p;
    assert high == p * q + r;
    assert 256 * high + low == (256 * p) * q + (256 * r + low);
    assert 256 * r + low < 256 * p;
    RemainderIs(256 * high + low, 256 * p, q, 256 * r + low);
  }

  lemma RemainderIs(n: nat, d: nat, q: nat, r: nat)
    requires r < d && n == d * q + r
    ensures n % d == r && n / d == q
  {
    var q' := n / d;
    assert n == d * q' + n % d;
    assert q' < q ==> d * q >= d * (q' + 1);
    assert q < q' ==> d * q' >= d * (q + 1);
  }

  /** What is left to do when the octets after i are done: the octets up to i, with a carry. */
  ghost predicate Carried(c: Bytes, start: Bytes, n: nat, i: int, carry: nat) {
    && |c| == |start| && -1 <= i < |c| && c[..i + 1] == start[..i + 1]
    && AddCarry(start[..i + 1], carry) + c[i + 1..] == AddCarry(start, n)
  }

  lemma CarriedStep(c: Bytes, start: Bytes, n: nat, i: nat, carry: nat)
    requires Carried(c, start, n, i, carry) && carry > 0
    ensures var sum := c[i] + carry % 256;
            Carried(c[i := sum % 256], start, n, i - 1, carry / 256 + sum / 256)
  {
    hide AddCarry;
    AddCarryStep(start, i, carry);
    assert c[i] == c[..i + 1][i] == start[i];
    var sum := c[i] + carry % 256;
    var d := c[i := sum % 256];
    assert d[i..] == [sum % 256] + c[i + 1..];
    assert d[..i] == start[..i];
  }

  lemma CarriedStart(start: Bytes, n: nat)
    ensures Carried(start, start, n, |start| - 1, n)
  {
    assert start[..|start|] == start && start[|start|..] == [];
  }

  lemma CarriedEnd(c: Bytes, start: Bytes, n: nat, i: int, carry: nat)
    requires Carried(c, start, n, i, carry) && (i < 0 || carry == 0)
    ensures c == AddCarry(start, n)
  {
    AddCarryDone(start[..i + 1], carry);
    assert c == c[..i + 1] + c[i + 1..];
  }

  /** In place, with a 64-bit carry that never overflows. */
  method IncrementCounter(counter: array<byte>, n: nat)
    requires n < 0x1_0000_0000_0000_0000
    modifies counter
    ensures counter[..] == AddCarry(old(counter[..]), n)
    ensures Value(counter[..]) == Wrap(Value(old(counter[..])) + n, Pow256(counter.Length))
  {
    hide AddCarry, Value, Wrap, Carried;
    ghost var start := counter[..];
    var carry: nat := n;
    var i := counter.Length - 1;
    CarriedStart(start, n);
    while i >= 0 && carry > 0
      invariant -1 <= i < counter.Length && carry < 0x1_0000_0000_0000_0000
      invariant Carried(counter[..], start, n, i, carry)
    {
      CarriedStep(counter[..], start, n, i, carry);
      ghost var before: Bytes := counter[..];
      var sum: nat := counter[i] + carry % 256;
      var octet: byte := sum % 256;
      counter[i] := octet;
      assert counter[..] == before[i := octet];
      carry := carry / 256 + sum / 256;
      i := i - 1;
    }
    CarriedEnd(counter[..], start, n, i, carry);
    AddCarryAdds(start, n);
  }

  lemma AddCarryStep(c: Bytes, i: nat, carry: nat)
    requires i < |c| && carry > 0
    ensures AddCarry(c[..i + 1], carry)
         == AddCarry(c[..i], carry / 256 + (c[i] + carry % 256) / 256) + [(c[i] + carry % 256) % 256]
  {
    assert c[..i + 1][..i] == c[..i];
  }

  lemma AddCarryDone(c: Bytes, carry: nat)
    requires c == [] || carry == 0
    ensures AddCarry(c, carry) == c
  {}

  /** Adding twice is adding the sum, whatever wraps around. */
  lemma {:induction false} AddTwice(c: Bytes, m: nat, n: nat)
    ensures AddCarry(AddCarry(c, m), n) == AddCarry(c, m + n)
  {
    hide AddCarry, Value, Pow256, Wrap;
    AddCarryAdds(c, m);
    AddCarryAdds(AddCarry(c, m), n);
    AddCarryAdds(c, m + n);
    ModuloTwice(Value(c) + m, n, Pow256(|c|));
    ValueInjective(AddCarry(AddCarry(c, m), n), AddCarry(c, m + n));
  }

  lemma ModuloTwice(a: nat, b: nat, p: nat)
    requires p > 0
    ensures Wrap(Wrap(a, p) + b, p) == Wrap(a + b, p)
  {
    var q, r := (a % p + b) / p, (a % p + b) % p;
    assert a == p * (a / p) + a % p;
    assert a % p + b == p * q + r;
    assert a + b == p * (a / p + q) + r;
    RemainderIs(a + b, p, a / p + q, r);
  }

  // ----- the keystream

  /** What an at-rest key gives: a first counter block, and a block function. */
  datatype AtRest = AtRest(iv: Bytes, encrypt: Bytes -> Bytes)

  ghost predicate Lawful(k: AtRest) {
    |k.iv| == BLOCK && forall c: Bytes :: |c| == BLOCK ==> |k.encrypt(c)| == BLOCK
  }

  /** The keystream octet at a position, counted from a counter block. */
  function KeystreamAt(k: AtRest, counter: Bytes, pos: nat): byte
    requires |counter| == BLOCK && forall c: Bytes :: |c| == BLOCK ==> |k.encrypt(c)| == BLOCK
  {
    k.encrypt(AddCarry(counter, pos / BLOCK))[pos % BLOCK]
  }

  /** Octet i of block j is octet i of the encryption of whichever block has the value of the first plus j. */
  lemma {:induction false} KeystreamBlocks(k: AtRest, j: nat, i: nat, c: Bytes)
    requires Lawful(k) && i < BLOCK && |c| == BLOCK && Value(c) == (Value(k.iv) + j) % Pow256(BLOCK)
    ensures KeystreamAt(k, k.iv, BLOCK * j + i) == k.encrypt(c)[i]
  {
    hide AddCarry, Value, Pow256;
    AddCarryAdds(k.iv, j);
    ValueInjective(AddCarry(k.iv, j), c);
    assert (BLOCK * j + i) / BLOCK == j && (BLOCK * j + i) % BLOCK == i;
  }

  /** Starting later by whole blocks is the same keystream from there on. */
  lemma {:induction false} KeystreamShift(k: AtRest, blocks: nat, pos: nat)
    requires Lawful(k)
    ensures KeystreamAt(k, AddCarry(k.iv, blocks), pos) == KeystreamAt(k, k.iv, BLOCK * blocks + pos)
  {
    hide AddCarry;
    AddTwice(k.iv, blocks, pos / BLOCK);
    assert (BLOCK * blocks + pos) / BLOCK == blocks + pos / BLOCK && (BLOCK * blocks + pos) % BLOCK == pos % BLOCK;
  }

  /** Data combined with the keystream from a position on; its own inverse. */
  function Combined(k: AtRest, data: Bytes, at: nat): (r: Bytes)
    requires Lawful(k)
    ensures |r| == |data|
  {
    seq(|data|, i requires 0 <= i < |data| => Xor(data[i], KeystreamAt(k, k.iv, at + i)))
  }

  lemma CombinedTwice(k: AtRest, data: Bytes, at: nat)
    requires Lawful(k)
    ensures Combined(k, Combined(k, data, at), at) == data
  {
    hide Xor, KeystreamAt;
    forall i | 0 <= i < |data|
      ensures Combined(k, Combined(k, data, at), at)[i] == data[i]
    {
      XorCancelsByte(data[i], KeystreamAt(k, k.iv, at + i));
    }
  }

  lemma XorCancelsByte(a: byte, b: byte)
    ensures Xor(Xor(a, b), b) == a
  {
    XorCancels(a, b);
  }

  lemma CombinedSplit(k: AtRest, a: Bytes, b: Bytes, at: nat)
    requires Lawful(k)
    ensures Combined(k, a + b, at) == Combined(k, a, at) + Combined(k, b, at + |a|)
  {}

  /** A running counter-mode stream. Where it stands is `BLOCK * blocks + used` of the key's own keystream. */
  class CtrStream {
    const k: AtRest
    const counter: Bytes
    var used: nat
    ghost const blocks: nat

    ghost predicate Valid()
      reads this
    {
      Lawful(k) && |counter| == BLOCK && counter == AddCarry(k.iv, blocks)
    }

    ghost function Position(): nat
      reads this
    {
      BLOCK * blocks + used
    }

    constructor (k: AtRest, counter: Bytes, ghost blocks: nat)
      requires Lawful(k) && counter == AddCarry(k.iv, blocks)
      ensures Valid() && this.k == k && this.blocks == blocks && used == 0
    {
      this.k, this.counter, this.blocks, used := k, counter, blocks, 0;
    }

    method XorKeyStream(data: Bytes) returns (out: Bytes)
      requires Valid()
      modifies this
      ensures Valid() && Position() == old(Position()) + |data|
      ensures out == Combined(k, data, old(Position()))
    {
      hide Xor, KeystreamAt, AddCarry;
      out := [];
      ghost var at := Position();
      for i := 0 to |data|
        invariant used == old(used)
        invariant out == Combined(k, data, at)[..i]
      {
        KeystreamShift(k, blocks, used + i);
        assert BLOCK * blocks + (used + i) == at + i;
        out := out + [Xor(data[i], KeystreamAt(k, counter, used + i))];
      }
      used := used + |data|;
    }
  }

  /** The stream for an offset: on the block that holds it, with the octets before it still to be discarded. */
  method StreamAt(k: AtRest, offset: int) returns (r: Option<CtrStream>, skip: nat)
    requires Lawful(k) && offset < LIMIT
    ensures r.None? <==> offset < 0
    ensures r.Some? ==> fresh(r.value) && r.value.Valid() && r.value.k == k
    ensures r.Some? ==> skip < BLOCK && r.value.Position() + skip == offset
  {
    hide AddCarry, Value, Wrap;
    if offset < 0 {
      return None, 0;
    }
    var blocks: nat := offset / BLOCK;
    skip := offset % BLOCK;
    var iv := new byte[BLOCK](i requires 0 <= i < BLOCK => k.iv[i]);
    assert iv[..] == k.iv;
    IncrementCounter(iv, blocks);
    var ctr := new CtrStream(k, iv[..], blocks);
    r := Some(ctr);
  }

  // ----- writing

  /** A store behind the encryption: what arrives of a chunk is encrypted at its offset and appended. */
  class Shredder {
    const k: AtRest
    const inner: Store

    constructor (k: AtRest, inner: Store)
      ensures this.k == k && this.inner == inner
    {
      this.k, this.inner := k, inner;
    }

    /** The replies are the store's own, whether the body ends, is cut short or breaks. */
    method WriteChunk(offset: int, src: Source) returns (r: Reply)
      requires Lawful(k) && offset < LIMIT && Ready(inner)
      modifies Cells(inner)
      ensures Ready(inner)
      ensures offset < 0 ==> r == Reply(0, Some(NegativeOffset)) && Held(inner) == old(Held(inner))
      ensures offset >= 0 ==>
                && r == StoreReply(inner, old(Held(inner)), offset, src)
                && Held(inner) == Appended(old(Held(inner)), offset, Source(Combined(k, src.bytes, offset), src.end))
                && (offset == |old(Held(inner))| ==> Begun(inner))
    {
      hide Combined, Held, Ready, Begun, Appended;
      var cipher := EncryptAt(k, offset, src.bytes);
      if cipher.None? {
        return Reply(0, Some(NegativeOffset));
      }
      r := StoreChunk(inner, offset, Source(cipher.value, src.end));
    }
  }

  /** Data through a stream positioned at an offset, the keystream before it in its block being discarded. */
  method EncryptAt(k: AtRest, offset: int, data: Bytes) returns (cipher: Option<Bytes>)
    requires Lawful(k) && offset < LIMIT
    ensures cipher == if offset < 0 then None else Some(Combined(k, data, offset))
  {
    hide Combined;
    var stream, skip := StreamAt(k, offset);
    if stream.None? {
      return None;
    }
    var ctr := stream.value;
    if skip > 0 {
      var _ := ctr.XorKeyStream(seq(skip, _ => 0));
    }
    var out := ctr.XorKeyStream(data);
    cipher := Some(out);
  }

  /**
   Wherever the chunks end and however, in either store, resuming after each and finishing stores what one
   write of everything would. Without any chunk there is nothing to finish.
   */
  method WriteAll(k: AtRest, st: Store, chunks: seq<Bytes>, ends: nat -> Multipart.End) returns (blob: Option<Bytes>)
    requires Lawful(k) && |Join(chunks)| < LIMIT
    requires Ready(st) && Held(st) == [] && !Begun(st)
    modifies Cells(st)
    ensures blob == if chunks == [] then None else Some(Combined(k, Join(chunks), 0))
  {
    var s := new Shredder(k, st);
    assert StoredSoFar(s, chunks, 0);
    hide Lawful, Combined, Join, StoredSoFar;
    var offset := 0;
    JoinNothing(chunks);
    for i := 0 to |chunks|
      invariant s.k == k && s.inner == st && StoredSoFar(s, chunks, i) && offset == |Join(chunks[..i])|
    {
      JoinPart(chunks, i);
      JoinNext(chunks, i);
      var r := WriteNext(s, chunks, i, offset, ends(i));
      offset := offset + r.n;
    }
    assert chunks[..|chunks|] == chunks;
    blob := StoredAll(s, chunks);
  }

  ghost predicate StoredSoFar(s: Shredder, chunks: seq<Bytes>, i: nat)
    requires i <= |chunks|
    reads Cells(s.inner)
  {
    && Lawful(s.k) && Ready(s.inner) && Held(s.inner) == Combined(s.k, Join(chunks[..i]), 0)
    && (Begun(s.inner) <==> i > 0)
  }

  method WriteNext(s: Shredder, chunks: seq<Bytes>, i: nat, offset: nat, end: Multipart.End) returns (r: Reply)
    requires i < |chunks| && StoredSoFar(s, chunks, i) && offset == |Join(chunks[..i])| < LIMIT
    modifies Cells(s.inner)
    ensures StoredSoFar(s, chunks, i + 1) && r.n == |chunks[i]|
  {
    hide Combined, Join, Ready, Held, Begun;
    JoinNext(chunks, i);
    CombinedSplit(s.k, Join(chunks[..i]), chunks[i], 0);
    r := s.WriteChunk(offset, Source(chunks[i], end));
  }

  method StoredAll(s: Shredder, chunks: seq<Bytes>) returns (blob: Option<Bytes>)
    requires StoredSoFar(s, chunks, |chunks|)
    modifies Cells(s.inner)
    ensures blob == if chunks == [] then None else Some(Combined(s.k, Join(chunks), 0))
  {
    assert chunks[..|chunks|] == chunks;
    hide Combined, Join, Ready, Held, Begun;
    blob := StoreFinish(s.inner);
  }

  // ----- reading

  datatype Whence = FromStart | FromCurrent | FromEnd

  /** At most n bytes from a position on. */
  function Slice(b: Bytes, pos: nat, n: nat): Bytes {
    if pos >= |b| then [] else b[pos..pos + Min(n, |b| - pos)]
  }

  /** Where a seek leads, when there is such a position. */
  function Target(offset: int, whence: Whence, pos: nat, length: nat): Option<nat> {
    var target := offset + (match whence case FromStart => 0 case FromCurrent => pos case FromEnd => length);
    if 0 <= target < LIMIT then Some(target) else None
  }

  /** A seek to a place that exists reports it and stands there; any other fails and stays. */
  ghost predicate Landed(place: int, was: nat, now: nat, r: Option<nat>) {
    if 0 <= place < LIMIT then r == Some(place) && now == place else r == None && now == was
  }

  /** The decrypting reader over a stored blob; it stands at `pos`. */
  class DecryptingReader {
    const k: AtRest
    const blob: Bytes
    var pos: nat
    var ctr: CtrStream
    var skip: nat

    ghost predicate Valid()
      reads this, ctr
    {
      && Lawful(k) && ctr.Valid() && ctr.k == k
      && ctr.Position() + skip == pos < LIMIT
    }

    /** What the blob decrypts to. */
    ghost function Plain(): Bytes
      requires Lawful(k)
    {
      Combined(k, blob, 0)
    }

    constructor (k: AtRest, blob: Bytes)
      requires Lawful(k)
      ensures Valid() && fresh(ctr) && this.k == k && this.blob == blob && pos == 0
    {
      var stream, skip0 := StreamAt(k, 0);
      this.k, this.blob, pos, ctr, skip := k, blob, 0, stream.value, skip0;
    }

    /** However few bytes the store gives, they are the plaintext at the current position. */
    method Read(size: nat, granted: nat) returns (out: Bytes)
      requires Valid() && |blob| < LIMIT
      modifies this, ctr
      ensures Valid() && ctr == old(ctr)
      ensures out == Slice(Plain(), old(pos), Min(size, granted)) && pos == old(pos) + |out|
    {
      hide Combined;
      while skip > 0
        invariant Valid() && ctr == old(ctr) && pos == old(pos)
      {
        var n := if skip < BLOCK then skip else BLOCK;
        var _ := ctr.XorKeyStream(seq(n, _ => 0));
        skip := skip - n;
      }
      if pos >= |blob| {
        return [];
      }
      var n := Min(Min(size, granted), |blob| - pos);
      PlainSlice(k, blob, pos, n);
      out := ctr.XorKeyStream(blob[pos..pos + n]);
      pos := pos + n;
    }

    /** Moves anywhere at or after the start; a position before it is refused and changes nothing. */
    method Seek(offset: int, whence: Whence) returns (r: Option<nat>)
      requires Valid() && |blob| < LIMIT
      modifies this
      ensures Valid() && (ctr == old(ctr) || fresh(ctr))
      ensures whence == FromStart ==> Landed(offset, old(pos), pos, r)
      ensures whence == FromCurrent ==> Landed(old(pos) + offset, old(pos), pos, r)
      ensures whence == FromEnd ==> Landed(|blob| + offset, old(pos), pos, r)
    {
      r := Target(offset, whence, pos, |blob|);
      if r.None? {
        return;
      }
      pos := r.value;
      var stream, rest := StreamAt(k, pos);
      ctr, skip := stream.value, rest;
    }

    method Serve(r: Request) returns (out: Outcome)
      requires Valid() && |blob| < LIMIT
      modifies this, ctr
      ensures Valid() && (ctr == old(ctr) || fresh(ctr))
      ensures out == Answer(Plain(), old(pos), r) && pos == NextPosition(Plain(), old(pos), r)
    {
      match r
      case Get(size, granted) =>
        var bytes := Read(size, granted);
        out := Data(bytes);
      case Move(offset, whence) =>
        var at := Seek(offset, whence);
        out := Position(at);
    }
  }

  lemma PlainSlice(k: AtRest, blob: Bytes, pos: nat, n: nat)
    requires Lawful(k) && pos + n <= |blob|
    ensures Combined(k, blob[pos..pos + n], pos) == Combined(k, blob, 0)[pos..pos + n]
  {}

  /** One call on the reader; a read asks for `size` bytes and the store grants it some of them. */
  datatype Request = Get(size: nat, granted: nat) | Move(offset: int, whence: Whence)

  /** What a call returns: bytes, or the position moved to unless the move failed. */
  datatype Outcome = Data(bytes: Bytes) | Position(at: Option<nat>)

  function Answer(plain: Bytes, pos: nat, r: Request): Outcome {
    match r
    case Get(size, granted) => Data(Slice(plain, pos, Min(size, granted)))
    case Move(offset, whence) => Position(Target(offset, whence, pos, |plain|))
  }

  /** Where a request leads from a position. */
  function NextPosition(plain: Bytes, pos: nat, r: Request): nat {
    match Answer(plain, pos, r)
    case Data(bytes) => pos + |bytes|
    case Position(at) => if at.Some? then at.value else pos
  }

  /** Where the first n requests lead from the start. */
  function PositionAfter(plain: Bytes, requests: seq<Request>, n: nat): nat
    requires n <= |requests|
  {
    if n == 0 then 0 else NextPosition(plain, PositionAfter(plain, requests, n - 1), requests[n - 1])
  }

  /** What request i must return, at the position the requests before it lead to. */
  function AnswerTo(plain: Bytes, requests: seq<Request>, i: nat): Outcome
    requires i < |requests|
  {
    Answer(plain, PositionAfter(plain, requests, i), requests[i])
  }

  /** In any sequence of seeks and reads of a blob written in any chunks, every call returns just that. */
  method SeekAndRead(k: AtRest, st: Store, chunks: seq<Bytes>, ends: nat -> Multipart.End, requests: seq<Request>)
    returns (outs: Option<seq<Outcome>>)
    requires Lawful(k) && |Join(chunks)| < LIMIT
    requires Ready(st) && Held(st) == [] && !Begun(st)
    modifies Cells(st)
    ensures outs.None? <==> chunks == []
    ensures outs.Some? ==> Explained(Join(chunks), requests, outs.value)
    ensures outs.Some? ==> |outs.value| == |requests|
    ensures outs.Some? ==> forall i :: 0 <= i < |requests| ==> outs.value[i] == AnswerTo(Join(chunks), requests, i)
  {
    hide Held, Begun, Ready, Explained, AnswerTo;
    var blob := WriteAll(k, st, chunks, ends);
    if blob.None? {
      return None;
    }
    CombinedTwice(k, Join(chunks), 0);
    var all := ServeAll(k, blob.value, requests);
    AnswersAreExplained(Join(chunks), requests, all);
    outs := Some(all);
  }

  method ServeAll(k: AtRest, blob: Bytes, requests: seq<Request>) returns (outs: seq<Outcome>)
    requires Lawful(k) && |blob| < LIMIT
    ensures |outs| == |requests|
    ensures forall i :: 0 <= i < |requests| ==> outs[i] == AnswerTo(Combined(k, blob, 0), requests, i)
  {
    var d := new DecryptingReader(k, blob);
    ghost var plain := Combined(k, blob, 0);
    hide Lawful, Combined, Answer, NextPosition;
    outs := [];
    for i := 0 to |requests|
      invariant d.Valid() && fresh(d) && fresh(d.ctr) && d.k == k && d.blob == blob
      invariant |outs| == i && d.pos == PositionAfter(plain, requests, i)
      invariant forall j :: 0 <= j < i ==> outs[j] == AnswerTo(plain, requests, j)
    {
      var out := d.Serve(requests[i]);
      outs := outs + [out];
    }
  }

  // ----- what the answers say of one another

  /** What a client works out from the answers alone: the last position reported, and the bytes read since. */
  ghost function Told(outs: seq<Outcome>): nat {
    if outs == [] then 0
    else
      var last, before := outs[|outs| - 1], Told(outs[..|outs| - 1]);
      match last
      case Data(bytes) => before + |bytes|
      case Position(at) => if at.Some? then at.value else before
  }

  /** An answer, judged by the plaintext and by what the answers before it told. */
  ghost predicate AnswersFrom(plain: Bytes, at: nat, r: Request, out: Outcome) {
    match r
    case Get(size, granted) =>
      && out.Data? && |out.bytes| <= size && |out.bytes| <= granted
      && (out.bytes == [] || (at + |out.bytes| <= |plain| && out.bytes == plain[at..at + |out.bytes|]))
      && (|out.bytes| == size || |out.bytes| == granted || at + |out.bytes| >= |plain|)
    case Move(offset, FromStart) => out == Position(if 0 <= offset < LIMIT then Some(offset) else None)
    case Move(offset, FromCurrent) => out == Position(if 0 <= at + offset < LIMIT then Some(at + offset) else None)
    case Move(offset, FromEnd) =>
      out == Position(if 0 <= |plain| + offset < LIMIT then Some(|plain| + offset) else None)
  }

  ghost predicate Explained(plain: Bytes, requests: seq<Request>, outs: seq<Outcome>) {
    && |outs| == |requests|
    && forall i :: 0 <= i < |requests| ==> AnswersFrom(plain, Told(outs[..i]), requests[i], outs[i])
  }

  lemma AnswerIsPlain(plain: Bytes, pos: nat, r: Request)
    ensures AnswersFrom(plain, pos, r, Answer(plain, pos, r))
  {}

  /** The answers so far tell where the reader stands. */
  lemma {:induction false} ToldIsPosition(plain: Bytes, requests: seq<Request>, outs: seq<Outcome>, n: nat)
    requires |outs| == |requests| && n <= |requests|
    requires forall i :: 0 <= i < |requests| ==> outs[i] == AnswerTo(plain, requests, i)
    ensures Told(outs[..n]) == PositionAfter(plain, requests, n)
  {
    hide Answer;
    if n > 0 {
      ToldIsPosition(plain, requests, outs, n - 1);
      assert outs[..n][..n - 1] == outs[..n - 1] && outs[n - 1] == AnswerTo(plain, requests, n - 1);
    }
  }

  lemma {:induction false} AnswersAreExplained(plain: Bytes, requests: seq<Request>, outs: seq<Outcome>)
    requires |outs| == |requests|
    requires forall i :: 0 <= i < |requests| ==> outs[i] == AnswerTo(plain, requests, i)
    ensures Explained(plain, requests, outs)
  {
    hide Answer, AnswersFrom, Told;
    forall i | 0 <= i < |requests|
      ensures AnswersFrom(plain, Told(outs[..i]), requests[i], outs[i])
    {
      ToldIsPosition(plain, requests, outs, i);
      AnswerIsPlain(plain, PositionAfter(plain, requests, i), requests[i]);
    }
  }

  ghost function Payloads(outs: seq<Outcome>): seq<Bytes>
    requires forall i :: 0 <= i < |outs| ==> outs[i].Data?
  {
    if outs == [] then [] else [outs[0].bytes] + Payloads(outs[1..])
  }

  /** A seek of nothing from where the reader stands reports what all the reads since the start have returned. */
  lemma {:induction false} TellAfterReads(plain: Bytes, requests: seq<Request>, outs: seq<Outcome>)
    requires requests != [] && Explained(plain, requests, outs) && |plain| < LIMIT
    requires forall i :: 0 <= i < |requests| - 1 ==> requests[i].Get?
    requires requests[|requests| - 1] == Move(0, FromCurrent)
    ensures var n := |requests| - 1;
            && (forall i :: 0 <= i < n ==> outs[i].Data?)
            && Join(Payloads(outs[..n])) <= plain
            && outs[n] == Position(Some(|Join(Payloads(outs[..n]))|))
  {
    hide Told;
    var n := |requests| - 1;
    ReadsInOrder(plain, requests, outs, n);
  }

  lemma {:induction false} ReadsInOrder(plain: Bytes, requests: seq<Request>, outs: seq<Outcome>, n: nat)
    requires Explained(plain, requests, outs) && n <= |requests|
    requires forall i :: 0 <= i < n ==> requests[i].Get?
    ensures forall i :: 0 <= i < n ==> outs[i].Data?
    ensures Join(Payloads(outs[..n])) <= plain
    ensures Told(outs[..n]) == |Join(Payloads(outs[..n]))|
  {
    NothingRead(outs);
    hide Join, Payloads, Told, Answer;
    if n > 0 {
      ReadsInOrder(plain, requests, outs, n - 1);
      ReadNext(outs, n - 1);
      NextPrefix(plain, Join(Payloads(outs[..n - 1])), outs[n - 1].bytes);
    }
  }

  lemma NothingRead(outs: seq<Outcome>)
    ensures Join(Payloads(outs[..0])) == [] && Told(outs[..0]) == 0
  {}

  lemma {:induction false} ReadNext(outs: seq<Outcome>, n: nat)
    requires n < |outs| && forall i :: 0 <= i <= n ==> outs[i].Data?
    ensures Join(Payloads(outs[..n + 1])) == Join(Payloads(outs[..n])) + outs[n].bytes
    ensures Told(outs[..n + 1]) == Told(outs[..n]) + |outs[n].bytes|
  {
    assert outs[..n + 1][..n] == outs[..n];
    PayloadsNext(outs[..n + 1]);
    JoinLast(Payloads(outs[..n]), outs[n].bytes);
    hide Join, Payloads;
  }

  lemma NextPrefix(all: Bytes, first: Bytes, next: Bytes)
    requires first <= all
    requires next == [] || (|first| + |next| <= |all| && next == all[|first|..|first| + |next|])
    ensures first + next <= all
  {
    if next == [] {
      assert first + next == first;
    }
  }

  lemma {:induction false} PayloadsNext(outs: seq<Outcome>)
    requires outs != [] && forall i :: 0 <= i < |outs| ==> outs[i].Data?
    ensures Payloads(outs) == Payloads(outs[..|outs| - 1]) + [outs[|outs| - 1].bytes]
  {
    if |outs| > 1 {
      PayloadsNext(outs[1..]);
      assert outs[1..][..|outs| - 2] == outs[..|outs| - 1][1..];
    }
  }

  /** A seek of nothing from the end reports the length of what was written, whatever came before. */
  lemma EndIsLength(plain: Bytes, requests: seq<Request>, outs: seq<Outcome>, i: nat)
    requires Explained(plain, requests, outs) && |plain| < LIMIT
    requires i < |requests| && requests[i] == Move(0, FromEnd)
    ensures outs[i] == Position(Some(|plain|)) && Told(outs[..i + 1]) == |plain|
  {
    assert AnswersFrom(plain, Told(outs[..i]), requests[i], outs[i]);
  }
}
