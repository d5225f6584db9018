/**
 The browser's upload: an encrypted stream, however it is cut up, is sent in chunks whose size
 follows how long the last one took, and the total is compared with the declared length.
 */
module ChunkedUpload {
  import opened Bytes
  import opened ContentFraming
  import ContentWebStreams

  const DEFAULT_CHUNK: nat := 4 * 1024 * 1024
  const FIRST_CHUNK: nat := 512 * 1024
  const MIN_CHUNK: nat := 256 * 1024
  const TARGET_MS: real := 2000.0

  function Lesser(a: real, b: real): real { if a < b then a else b }
  function Greater(a: real, b: real): real { if a < b then b else a }
  function Max(a: nat, b: nat): nat { if a < b then b else a }
  function Round(x: real): int { (x + 0.5).Floor }

  function Scaled(sent: nat, elapsed: real): real {
    if elapsed <= 0.0 then sent as real * 2.0 else sent as real * (TARGET_MS / elapsed)
  }

  /** Aims at the target time, within a factor of two of what was sent and within the fixed bounds. */
  function NextChunkSize(sent: nat, elapsed: real): (size: nat)
    ensures MIN_CHUNK <= size <= DEFAULT_CHUNK
  {
    var bounded := Lesser(Greater(Scaled(sent, elapsed), sent as real / 2.0), sent as real * 2.0);
    Min(Max(Round(bounded), MIN_CHUNK), DEFAULT_CHUNK)
  }

  lemma SlowerScalesLess(sent: nat, elapsed: real, longer: real)
    requires 0.0 < elapsed <= longer
    ensures Scaled(sent, longer) <= Scaled(sent, elapsed)
  {}

  lemma OnTimeScalesNothing(sent: nat)
    ensures Scaled(sent, TARGET_MS) == sent as real
  {}

  /** A slower send is never followed by a larger chunk, and a send that takes the target time keeps its size. */
  lemma ChunkSizeFollowsSpeed(sent: nat, elapsed: real, longer: real)
    requires elapsed <= longer
    ensures NextChunkSize(sent, longer) <= NextChunkSize(sent, elapsed)
    ensures MIN_CHUNK <= sent <= DEFAULT_CHUNK ==> NextChunkSize(sent, TARGET_MS) == sent
    ensures MIN_CHUNK <= sent <= DEFAULT_CHUNK ==>
                sent <= 2 * NextChunkSize(sent, elapsed) && NextChunkSize(sent, elapsed) <= 2 * sent
  {
    OnTimeScalesNothing(sent);
    if elapsed > 0.0 {
      SlowerScalesLess(sent, elapsed, longer);
    }
    hide Scaled;
  }

  lemma ScaledTakesTarget(sent: nat, elapsed: real)
    requires elapsed > 0.0
    ensures Scaled(sent, elapsed) * elapsed == sent as real * TARGET_MS
  {
    var k := TARGET_MS / elapsed;
    assert k * elapsed == TARGET_MS;
    assert (sent as real * k) * elapsed == sent as real * (k * elapsed);
  }

  lemma ScaledWithin(sent: nat, elapsed: real)
    requires TARGET_MS / 2.0 <= elapsed <= 2.0 * TARGET_MS
    ensures sent as real / 2.0 <= Scaled(sent, elapsed) <= sent as real * 2.0
  {
    var k := TARGET_MS / elapsed;
    assert k * elapsed == TARGET_MS;
    assert 0.5 <= k <= 2.0;
    assert sent as real * 0.5 <= sent as real * k <= sent as real * 2.0;
  }

  /**
   At the speed just seen the next chunk takes the target time, but for half a byte of rounding, unless
   that is more than a factor of two away: then it is twice or half what was sent. The fixed bounds win.
   */
  lemma ChunkSizeAimsAtTarget(sent: nat, elapsed: real)
    ensures var next := NextChunkSize(sent, elapsed);
            && (elapsed <= 1000.0 ==> next == Min(Max(2 * sent, 262_144), 4_194_304))
            && (elapsed >= 4000.0 ==> next == Min(Max((sent + 1) / 2, 262_144), 4_194_304))
            && (1000.0 <= elapsed <= 4000.0 && 262_144 < next < 4_194_304 ==>
                -elapsed <= 2.0 * (next as real * elapsed - sent as real * 2000.0) <= elapsed)
  {
    if elapsed > 0.0 {
      ScaledTakesTarget(sent, elapsed);
    }
    if 1000.0 <= elapsed <= 4000.0 {
      ScaledWithin(sent, elapsed);
    } else if elapsed > 4000.0 {
      ScaledWithin(sent, 4000.0);
      SlowerScalesLess(sent, 4000.0, elapsed);
      ScaledTakesTarget(sent, 4000.0);
    } else if elapsed > 0.0 {
      SlowerScalesLess(sent, elapsed, 1000.0);
      ScaledTakesTarget(sent, 1000.0);
    }
    var scaled, next := Scaled(sent, elapsed), NextChunkSize(sent, elapsed);
    hide Scaled;
    if 1000.0 <= elapsed <= 4000.0 && 262_144 < next < 4_194_304 {
      RoundTimes(scaled, elapsed);
    }
  }

  lemma RoundTimes(x: real, t: real)
    requires t > 0.0
    ensures -t <= 2.0 * (Round(x) as real * t - x * t) <= t
  {
    var d := Round(x) as real - x;
    assert -0.5 <= d <= 0.5;
    assert d * t == Round(x) as real * t - x * t;
    assert -0.5 * t <= d * t <= 0.5 * t;
  }

  // ----- the chunks of a stream

  /** What a response carries where the offset should be. */
  datatype Field = Absent | Unreadable | Number(value: int)

  datatype Response = Response(status: int, offset: Field)

  /** The offset a client reads: any other status, no header, or no safe integer in it, ends the upload. */
  function ReadReply(r: Response): Option<nat> {
    if r.status != 204 || !r.offset.Number? || !(0 <= r.offset.value < TWO_53) then None
    else Some(r.offset.value)
  }

  /**
   What the network does with the i-th send: how long it takes, how many of its bytes are stored, and
   what is answered once n bytes are stored in all.
   */
  datatype Network = Network(elapsed: nat -> real, takes: nat -> nat, replies: (nat, nat) -> Response)

  /** An offset that can be read is what is stored. */
  ghost predicate Honest(net: Network) {
    forall i: nat, n: nat :: ReadReply(net.replies(i, n)).Some? ==> ReadReply(net.replies(i, n)).value == n
  }

  datatype Sizing = Sizing(adapt: bool, cap: nat, first: nat)

  predicate Usable(z: Sizing) { 0 < z.first <= z.cap }

  /** A named size is used for every chunk; the default adapts. */
  function SizingFor(named: Option<int>): Sizing
    requires named.Some? ==> named.value > 0
  {
    if named.None? then Sizing(true, DEFAULT_CHUNK, Min(FIRST_CHUNK, DEFAULT_CHUNK))
    else Sizing(false, named.value, named.value)
  }

  function NextTarget(z: Sizing, net: Network, target: nat, sent: nat, i: nat): (next: nat)
    requires Usable(z) && 0 < target <= z.cap
    ensures 0 < next <= z.cap
  {
    if z.adapt then Min(NextChunkSize(sent, net.elapsed(i)), z.cap) else target
  }

  /** The chunks of a stream, from the i-th on. */
  function Chunks(z: Sizing, net: Network, stream: Bytes, target: nat, i: nat): seq<Bytes>
    requires Usable(z) && 0 < target <= z.cap
    decreases |stream|
  {
    if stream == [] then []
    else if |stream| < target then [stream]
    else [stream[..target]] + Chunks(z, net, stream[target..], NextTarget(z, net, target, target, i), i + 1)
  }

  /** The size aimed at for the i-th of some chunks. */
  function TargetAt(z: Sizing, net: Network, target: nat, i: nat, n: nat): (t: nat)
    requires Usable(z) && 0 < target <= z.cap
    ensures 0 < t <= z.cap
    decreases n
  {
    if n == 0 then target else TargetAt(z, net, NextTarget(z, net, target, target, i), i + 1, n - 1)
  }

  lemma {:induction false} ChunksJoin(z: Sizing, net: Network, stream: Bytes, target: nat, i: nat)
    requires Usable(z) && 0 < target <= z.cap
    ensures Join(Chunks(z, net, stream, target, i)) == stream
    decreases |stream|
  {
    if |stream| >= target {
      var next := NextTarget(z, net, target, target, i);
      ChunksJoin(z, net, stream[target..], next, i + 1);
      var rest := Chunks(z, net, stream[target..], next, i + 1);
      assert Chunks(z, net, stream, target, i) == [stream[..target]] + rest;
      hide Chunks, NextTarget;
      assert ([stream[..target]] + rest)[1..] == rest;
    } else if stream != [] {
      assert Chunks(z, net, stream, target, i)[1..] == [];
    }
  }

  lemma {:induction false} ChunkSize(z: Sizing, net: Network, stream: Bytes, target: nat, i: nat, n: nat)
    requires Usable(z) && 0 < target <= z.cap && n < |Chunks(z, net, stream, target, i)|
    ensures var sends := Chunks(z, net, stream, target, i);
            && 0 < |sends[n]| <= TargetAt(z, net, target, i, n)
            && (n < |sends| - 1 ==> |sends[n]| == TargetAt(z, net, target, i, n))
    decreases n
  {
    if |stream| >= target && n > 0 {
      var next := NextTarget(z, net, target, target, i);
      var rest := Chunks(z, net, stream[target..], next, i + 1);
      assert Chunks(z, net, stream, target, i) == [stream[..target]] + rest;
      ChunkSize(z, net, stream[target..], next, i + 1, n - 1);
      hide Chunks, NextTarget;
    }
  }

  /** Nothing is lost, no chunk is empty or exceeds the buffer, and all but the last have the size aimed at. */
  lemma ChunksCover(z: Sizing, net: Network, stream: Bytes, target: nat, i: nat)
    requires Usable(z) && 0 < target <= z.cap
    ensures var sends := Chunks(z, net, stream, target, i);
            && Join(sends) == stream
            && (forall n :: 0 <= n < |sends| ==> 0 < |sends[n]| <= TargetAt(z, net, target, i, n) <= z.cap)
            && (forall n :: 0 <= n < |sends| - 1 ==> |sends[n]| == TargetAt(z, net, target, i, n))
  {
    hide Chunks, TargetAt;
    ChunksJoin(z, net, stream, target, i);
    var sends := Chunks(z, net, stream, target, i);
    forall n | 0 <= n < |sends|
      ensures 0 < |sends[n]| <= TargetAt(z, net, target, i, n)
      ensures (n < |sends| - 1 ==> |sends[n]| == TargetAt(z, net, target, i, n))
    {
      ChunkSize(z, net, stream, target, i, n);
    }
  }

  // ----- the server

  function Prefix(chunk: Bytes, n: nat): Bytes { chunk[..Min(n, |chunk|)] }

  /** What a server holds after some sends of which it stored the given prefixes. */
  function KeptOf(net: Network, sends: seq<Bytes>): Bytes {
    if sends == [] then []
    else
      var n := |sends| - 1;
      KeptOf(net, sends[..n]) + Prefix(sends[n], net.takes(n))
  }

  /** If as much is stored as was sent, what is stored is what was sent. */
  lemma {:induction false} KeptAllOrLess(net: Network, sends: seq<Bytes>)
    ensures |KeptOf(net, sends)| <= |Join(sends)|
    ensures |KeptOf(net, sends)| == |Join(sends)| ==> KeptOf(net, sends) == Join(sends)
  {
    if sends != [] {
      var n := |sends| - 1;
      KeptAllOrLess(net, sends[..n]);
      JoinNext(sends, n);
      assert sends[..n + 1] == sends;
    }
  }

  lemma {:induction false} KeptWhole(net: Network, sends: seq<Bytes>)
    requires forall n :: 0 <= n < |sends| ==> net.takes(n) >= |sends[n]|
    ensures KeptOf(net, sends) == Join(sends)
  {
    if sends != [] {
      var n := |sends| - 1;
      KeptWhole(net, sends[..n]);
      JoinNext(sends, n);
      assert sends[..n + 1] == sends;
    }
  }

  /** An upload on the server: a chunk must start where the stored bytes end, and may be stored in part. */
  class Server {
    var stored: Bytes

    constructor ()
      ensures stored == []
    {
      stored := [];
    }

    method Append(offset: nat, chunk: Bytes, takes: nat) returns (ok: bool)
      modifies this
      ensures ok == (offset == |old(stored)|)
      ensures stored == if ok then old(stored) + Prefix(chunk, takes) else old(stored)
    {
      ok := offset == |stored|;
      if ok {
        stored := stored + Prefix(chunk, takes);
      }
    }
  }

  /** One request: the chunk goes out at an offset, and the offset the server then holds comes back, or nothing does. */
  method PatchChunk(server: Server, net: Network, i: nat, offset: nat, chunk: Bytes) returns (reported: Option<nat>)
    requires Honest(net) && offset == |server.stored|
    modifies server
    ensures server.stored == old(server.stored) + Prefix(chunk, net.takes(i))
    ensures reported == ReadReply(net.replies(i, |server.stored|))
    ensures (reported.Some? ==> reported.value == |server.stored|)
  {
    var _ := server.Append(offset, chunk, net.takes(i));
    var response := net.replies(i, |server.stored|);
    if response.status != 204 {
      return None;
    }
    if response.offset.Absent? {
      return None;
    }
    if response.offset.Unreadable? || response.offset.value >= TWO_53 || response.offset.value < 0 {
      return None;
    }
    reported := Some(response.offset.value);
  }

  // ----- sending

  class Sender {
    const z: Sizing
    const net: Network
    const server: Server
    const buffer: array<byte>
    var target: nat
    var held: nat
    var offset: nat
    var sends: seq<Bytes>

    ghost predicate Valid()
      reads this, server
    {
      && Usable(z) && Honest(net) && buffer.Length == z.cap && 0 < target <= z.cap && held <= target
      && offset == |server.stored| < TWO_53 && server.stored == KeptOf(net, sends)
    }

    constructor (z: Sizing, net: Network, server: Server)
      requires Usable(z) && Honest(net) && server.stored == []
      ensures Valid() && fresh(buffer) && this.z == z && this.net == net && this.server == server
      ensures target == z.first && held == 0 && sends == []
    {
      this.z, this.net, this.server := z, net, server;
      buffer := new byte[z.cap];
      target, held, offset, sends := z.first, 0, 0, [];
    }

    method Send(chunk: Bytes) returns (ok: bool)
      requires Valid()
      modifies this`target, this`offset, this`sends, server
      ensures sends == old(sends) + [chunk] && server.stored == KeptOf(net, sends)
      ensures ok ==> offset == |server.stored| < TWO_53
      ensures ok ==> target == NextTarget(z, net, old(target), |chunk|, |old(sends)|)
      ensures ok == ReadReply(net.replies(|old(sends)|, |server.stored|)).Some?
    {
      var n := |sends|;
      var reported := PatchChunk(server, net, n, offset, chunk);
      sends := sends + [chunk];
      assert sends[..n] == old(sends);
      if reported.None? {
        return false;
      }
      offset := reported.value;
      if z.adapt {
        target := Min(NextChunkSize(|chunk|, net.elapsed(n)), z.cap);
      }
      ok := true;
    }

    /** What is still to be sent is what the buffer holds and what is to come. */
    ghost predicate Sends(stream: Bytes, rest: Bytes)
      reads this, server, buffer
    {
      && Valid() && held < target
      && Chunks(z, net, stream, z.first, 0) == sends + Chunks(z, net, buffer[..held] + rest, target, |sends|)
    }

    /** The last request was not answered as it must be: what went out are the first chunks of the stream. */
    ghost predicate Stopped(stream: Bytes)
      reads this, server
    {
      && Usable(z) && sends <= Chunks(z, net, stream, z.first, 0) && server.stored == KeptOf(net, sends)
      && sends != [] && ReadReply(net.replies(|sends| - 1, |server.stored|)).None?
    }

    /** One value read from the encrypted stream: fills the buffer, sending whenever the target is reached. */
    method Take(value: Bytes, ghost stream: Bytes, ghost rest: Bytes) returns (ok: bool)
      requires Sends(stream, value + rest)
      modifies this`target, this`held, this`offset, this`sends, server, buffer
      ensures if ok then Sends(stream, rest) else Stopped(stream)
    {
      hide Chunks, KeptOf, NextTarget;
      var taken := 0;
      assert value[0..] == value;
      while taken < |value|
        invariant taken <= |value| && Sends(stream, value[taken..] + rest)
        decreases |value| - taken
      {
        taken, ok := Step(value, taken, stream, rest);
        if !ok {
          return;
        }
      }
      assert value[|value|..] + rest == rest;
      ok := true;
    }

    /** Copies up to the target. */
    method Copy(value: Bytes, from: nat) returns (taken: nat)
      requires held < target <= buffer.Length && from < |value|
      modifies this`held, buffer
      ensures from < taken <= |value| && held <= target && (held < target ==> taken == |value|)
      ensures buffer[..held] == old(buffer[..held]) + value[from..taken]
    {
      var take := Min(target - held, |value| - from);
      ghost var before := buffer[..held];
      forall k | 0 <= k < take {
        buffer[held + k] := value[from + k];
      }
      taken := from + take;
      assert buffer[..held + take] == before + value[from..taken];
      held := held + take;
    }

    method Step(value: Bytes, from: nat, ghost stream: Bytes, ghost rest: Bytes) returns (taken: nat, ok: bool)
      requires from < |value| && Sends(stream, value[from..] + rest)
      modifies this`target, this`held, this`offset, this`sends, server, buffer
      ensures from < taken <= |value|
      ensures if ok then Sends(stream, value[taken..] + rest) else Stopped(stream)
    {
      hide Chunks, KeptOf, NextTarget;
      ghost var before := buffer[..held];
      taken := Copy(value, from);
      ghost var more := value[taken..] + rest;
      assert before + (value[from..] + rest) == buffer[..held] + more;
      ok := true;
      if held == target {
        ghost var sent, chunk := sends, buffer[..held];
        NextChunk(z, net, chunk, more, target, |sends|);
        ok := Send(buffer[..held]);
        assert forall tail: seq<Bytes> :: (sent + [chunk]) + tail == sent + ([chunk] + tail);
        held := 0;
        assert buffer[..0] + more == more;
      }
    }

    /** The tail. */
    method Finish(ghost stream: Bytes) returns (ok: bool)
      requires Sends(stream, [])
      modifies this`target, this`offset, this`sends, server
      ensures ok ==>
                && sends == Chunks(z, net, stream, z.first, 0)
                && offset == |server.stored| < TWO_53 && server.stored == KeptOf(net, sends)
      ensures !ok ==> Stopped(stream)
    {
      assert buffer[..held] + [] == buffer[..held];
      ok := true;
      if held > 0 {
        ok := Send(buffer[..held]);
      }
    }
  }

  lemma NextChunk(z: Sizing, net: Network, chunk: Bytes, rest: Bytes, target: nat, i: nat)
    requires Usable(z) && 0 < target <= z.cap && |chunk| == target
    ensures Chunks(z, net, chunk + rest, target, i)
         == [chunk] + Chunks(z, net, rest, NextTarget(z, net, target, target, i), i + 1)
  {
    assert (chunk + rest)[..target] == chunk && (chunk + rest)[target..] == rest;
  }

  /**
   However the stream is cut up, the chunks sent are the chunks of the whole, or the first of them if
   an answer cannot be read.
   */
  method SendInChunks(server: Server, values: seq<Bytes>, z: Sizing, net: Network)
    returns (offset: Option<nat>, sends: seq<Bytes>)
    requires Usable(z) && Honest(net) && server.stored == []
    modifies server
    ensures server.stored == KeptOf(net, sends) && sends <= Chunks(z, net, Join(values), z.first, 0)
    ensures offset.Some? ==> sends == Chunks(z, net, Join(values), z.first, 0)
    ensures offset.Some? ==> offset.value == |server.stored| < TWO_53
    ensures offset.None? ==> sends != [] && ReadReply(net.replies(|sends| - 1, |server.stored|)).None?
  {
    var s := new Sender(z, net, server);
    ghost var stream := Join(values);
    assert s.buffer[..0] == [] && [] + stream == stream && values[0..] == values;
    hide Chunks, KeptOf;
    for i := 0 to |values|
      invariant s.Sends(stream, Join(values[i..])) && fresh(s) && fresh(s.buffer)
      invariant s.server == server && s.net == net && s.z == z
    {
      assert values[i..][1..] == values[i + 1..];
      var ok := s.Take(values[i], stream, Join(values[i + 1..]));
      if !ok {
        return None, s.sends;
      }
    }
    var ok := s.Finish(stream);
    offset, sends := if ok then Some(s.offset) else None, s.sends;
  }

  /**
   A file, however its stream is cut up, is encrypted, sent and checked against the declared length. The upload is
   reported done only if the server holds the whole encoding, and, if every answer can be read, exactly then. An
   encoding of 2^53 octets or more is never reported done, since the offset at its end cannot be read.
   */
  method UploadFile(server: Server, derive: Bytes -> Keys, salt: Bytes, pieces: seq<Bytes>, named: Option<int>,
                    net: Network, quotient: real) returns (done: bool, sends: seq<Bytes>)
    requires Lawful(derive(salt)) && |derive(salt).nonceBase| == 12 && |salt| == SALT_SIZE && server.stored == []
    requires Honest(net)
    requires Rounded(|Join(pieces)|, quotient)
    modifies server
    ensures server.stored == KeptOf(net, sends)
    ensures done ==> server.stored == Header(salt) + Body(derive(salt), Join(pieces), 0)
    ensures done ==> |server.stored| < TWO_53
    ensures !Accepts(|Join(pieces)|, named) ==> !done && server.stored == []
    ensures Accepts(|Join(pieces)|, named) && Answers(net, |Header(salt) + Body(derive(salt), Join(pieces), 0)|) ==>
              && (done <==> server.stored == Header(salt) + Body(derive(salt), Join(pieces), 0))
              && ((forall i: nat :: net.takes(i) >= SizingFor(named).cap) ==> done)
  {
    if named.Some? && (named.value <= 0 || named.value >= TWO_53) {
      return false, [];
    }
    ghost var k, encoding := derive(salt), Header(salt) + Body(derive(salt), Join(pieces), 0);
    var length := Length(pieces);
    if length >= TWO_53 {
      return false, [];
    }
    var total := WebContentLength(length, quotient);
    Declared(k, salt, Join(pieces), quotient);
    var z := SizingFor(named);
    hide Header, Body, WebContentLength, NonFinalRecords, Lawful, Rounded, Join, Honest, Answers, KeptOf;
    var sent;
    sent, sends := EncryptAndSend(server, derive, salt, pieces, z, net);
    done := sent.Some? && sent.value == total;
  }

  /** The stream of the file goes through the encoder and out in chunks. */
  method EncryptAndSend(server: Server, derive: Bytes -> Keys, salt: Bytes, pieces: seq<Bytes>, z: Sizing, net: Network)
    returns (sent: Option<nat>, sends: seq<Bytes>)
    requires Lawful(derive(salt)) && |derive(salt).nonceBase| == 12 && |salt| == SALT_SIZE && server.stored == []
    requires Honest(net) && Usable(z) && NonFinalRecords(|Join(pieces)|) < MAX_SEQUENCE
    modifies server
    ensures server.stored == KeptOf(net, sends)
    ensures sent.Some? ==>
              var encoding := Header(salt) + Body(derive(salt), Join(pieces), 0);
              && sent.value == |server.stored| < TWO_53
              && (server.stored == encoding <==> |server.stored| == |encoding|)
              && ((forall i: nat :: net.takes(i) >= z.cap) ==> server.stored == encoding)
    ensures Answers(net, |Header(salt) + Body(derive(salt), Join(pieces), 0)|) ==>
              sent.Some? && |Header(salt) + Body(derive(salt), Join(pieces), 0)| < TWO_53
  {
    ghost var encoding := Header(salt) + Body(derive(salt), Join(pieces), 0);
    hide Chunks, KeptOf, Header, Body, NonFinalRecords, Lawful, Join;
    var values := ContentWebStreams.EncryptWeb(derive, salt, pieces);
    sent, sends := SendInChunks(server, values.value, z, net);
    SentAndKept(z, net, encoding, sends);
    AnswersBelow(net, |encoding|);
  }

  /** What the browser declares for a file, against what it is going to send. */
  lemma Declared(k: Keys, salt: Bytes, file: Bytes, quotient: real)
    requires Lawful(k) && |salt| == SALT_SIZE && |file| < TWO_53 && Rounded(|file|, quotient)
    ensures var encoding, total := Header(salt) + Body(k, file, 0), WebContentLength(|file|, quotient);
            if |encoding| < TWO_53 then total == |encoding| else total >= TWO_53
    ensures NonFinalRecords(|file|) < MAX_SEQUENCE
  {
    ClientsDeclareTheSameLength(|file|, quotient);
    LengthDoesNotOverflow(|file|);
    DeclaredLengthIsExact(k, salt, file);
    hide Body, Header, WebContentLength, NonFinalRecords, Lawful, Rounded;
  }

  /** What is stored of the chunks of a stream, or of the first of them. */
  lemma SentAndKept(z: Sizing, net: Network, stream: Bytes, sends: seq<Bytes>)
    requires Usable(z) && sends <= Chunks(z, net, stream, z.first, 0)
    ensures |KeptOf(net, sends)| <= |stream|
    ensures sends == Chunks(z, net, stream, z.first, 0) ==>
              && (KeptOf(net, sends) == stream <==> |KeptOf(net, sends)| == |stream|)
              && ((forall i: nat :: net.takes(i) >= z.cap) ==> KeptOf(net, sends) == stream)
  {
    ChunksCover(z, net, stream, z.first, 0);
    hide Chunks, KeptOf, Join;
    KeptAllOrLess(net, sends);
    KeptWithin(net, sends, Chunks(z, net, stream, z.first, 0));
    if sends == Chunks(z, net, stream, z.first, 0) && forall i: nat :: net.takes(i) >= z.cap {
      KeptWhole(net, sends);
    }
  }

  /** No honest network can answer readably at 2^53 or beyond. */
  lemma AnswersBelow(net: Network, limit: nat)
    requires Honest(net)
    ensures Answers(net, limit) ==> limit < TWO_53
  {
    assert Answers(net, limit) ==> ReadReply(net.replies(0, limit)).Some?;
  }

  /** What is stored of the first chunks is no longer than all of them. */
  lemma KeptWithin(net: Network, sends: seq<Bytes>, chunks: seq<Bytes>)
    requires sends <= chunks
    ensures |KeptOf(net, sends)| <= |Join(chunks)|
  {
    KeptAllOrLess(net, sends);
    JoinPart(chunks, |sends|);
    assert chunks[..|sends|] == sends;
  }

  /** Every answer up to a length can be read. */
  ghost predicate Answers(net: Network, limit: nat) {
    forall i: nat, n: nat :: n <= limit ==> ReadReply(net.replies(i, n)).Some?
  }

  /** The sizes the browser agrees to send. */
  predicate Accepts(size: nat, named: Option<int>) {
    size < TWO_53 && (named.Some? ==> 0 < named.value < TWO_53)
  }

  method Length(pieces: seq<Bytes>) returns (n: nat)
    ensures n == |Join(pieces)|
  {
    n := 0;
    for i := 0 to |pieces|
      invariant n == |Join(pieces[..i])|
    {
      JoinNext(pieces, i);
      n := n + |pieces[i]|;
    }
    assert pieces[..|pieces|] == pieces;
  }
}
