/**
 Which streams the decryptor accepts, and what they decrypt to, stated on whole streams. The
 streaming decryptors are proved against `DecodeStream` and `DecodeWebStream` elsewhere.
 */
module ContentDecoding {
  import opened Bytes
  import opened ContentFraming

  /** What a reader has been given, and whether the stream ended well. */
  datatype Outcome = Outcome(delivered: Bytes, ok: bool)

  const REJECTED := Outcome([], false)

  function After(chunk: Bytes, rest: Outcome): Outcome { Outcome(chunk + rest.delivered, rest.ok) }

  function FirstRecord(s: Bytes): Bytes { if |s| <= RECORD_SIZE then s else s[..RECORD_SIZE] }

  /** A record that opens and ends in a delimiter it may carry: a full one or the final one. */
  datatype Opened = Bad | More(chunk: Bytes) | Last(chunk: Bytes)

  function OpenRecord(k: Keys, i: nat, record: Bytes): Opened
    requires |k.nonceBase| == 12
  {
    match k.open(RecordNonce(k.nonceBase, i), record)
    case None => Bad
    case Some(plaintext) =>
      if plaintext == [] then Bad
      else
        var n := |plaintext| - 1;
        if plaintext[n] == FINAL then Last(plaintext[..n])
        else if plaintext[n] == NON_FINAL && |record| == RECORD_SIZE then More(plaintext[..n])
        else Bad
  }

  /** The records of a stream from the i-th on, as the Go reader takes them. */
  function Decode(k: Keys, s: Bytes, i: nat): Outcome
    requires |k.nonceBase| == 12
    decreases |s|
  {
    if i >= MAX_SEQUENCE || s == [] then REJECTED
    else
      var record := FirstRecord(s);
      match OpenRecord(k, i, record)
      case Bad => REJECTED
      case Last(chunk) => if |s| > |record| then REJECTED else Outcome(chunk, true)
      case More(chunk) => After(chunk, Decode(k, s[|record|..], i + 1))
  }

  function HeaderOk(x: Bytes): bool {
    |x| >= HEADER_SIZE && x[SALT_SIZE..HEADER_SIZE] == BigEndian(RECORD_SIZE, 4) + [0]
  }

  function DecodeStream(derive: Bytes -> Keys, x: Bytes): Outcome
    requires forall salt :: |derive(salt).nonceBase| == 12
  {
    if HeaderOk(x) then Decode(derive(x[..SALT_SIZE]), x[HEADER_SIZE..], 0) else REJECTED
  }

  // ----- the accepted streams

  /** Full chunks, then a last one that may be anything up to a full chunk. */
  predicate Framed(chunks: seq<Bytes>) {
    && chunks != []
    && (forall j :: 0 <= j < |chunks| - 1 ==> |chunks[j]| == MAX_PLAINTEXT)
    && |chunks[|chunks| - 1]| <= MAX_PLAINTEXT
  }

  function Assemble(k: Keys, chunks: seq<Bytes>, i: nat): Bytes
    requires |k.nonceBase| == 12 && chunks != []
  {
    if |chunks| == 1 then Record(k, i, chunks[0], true)
    else Record(k, i, chunks[0], false) + Assemble(k, chunks[1..], i + 1)
  }

  lemma {:induction false} OpenSealed(k: Keys, i: nat, chunk: Bytes, final: bool)
    requires Lawful(k) && |chunk| <= MAX_PLAINTEXT && (final || |chunk| == MAX_PLAINTEXT)
    ensures |Record(k, i, chunk, final)| == |chunk| + 17
    ensures OpenRecord(k, i, Record(k, i, chunk, final)) == if final then Last(chunk) else More(chunk)
  {}

  /** An opened record is the sealing of its chunk. */
  lemma {:induction false} OpenedIsSealed(k: Keys, i: nat, record: Bytes)
    requires Lawful(k) && OpenRecord(k, i, record) != Bad && |record| <= RECORD_SIZE
    ensures var o := OpenRecord(k, i, record);
            && record == Record(k, i, o.chunk, o.Last?)
            && |o.chunk| <= MAX_PLAINTEXT && (o.More? ==> |o.chunk| == MAX_PLAINTEXT)
  {
    hide RecordNonce;
    var nonce := RecordNonce(k.nonceBase, i);
    var plaintext := k.open(nonce, record).value;
    assert k.seal(nonce, plaintext) == record;
    assert plaintext == plaintext[..|plaintext| - 1] + [plaintext[|plaintext| - 1]];
  }

  /** Every framing of at most 2^48 records is accepted and gives its chunks. */
  lemma {:induction false} FramedIsAccepted(k: Keys, chunks: seq<Bytes>, i: nat)
    requires Lawful(k) && Framed(chunks) && i + |chunks| <= MAX_SEQUENCE
    ensures Decode(k, Assemble(k, chunks, i), i) == Outcome(Join(chunks), true)
  {
    hide Record, OpenRecord;
    var final := |chunks| == 1;
    var s := Assemble(k, chunks, i);
    var record := Record(k, i, chunks[0], final);
    OpenSealed(k, i, chunks[0], final);
    if final {
      assert Join(chunks) == chunks[0] + Join(chunks[1..]) && chunks[1..] == [];
    } else {
      FramedIsAccepted(k, chunks[1..], i + 1);
      assert FirstRecord(s) == record && s[|record|..] == Assemble(k, chunks[1..], i + 1);
    }
  }

  /** Whatever is accepted is a framing. */
  lemma {:induction false} AcceptedIsFramed(k: Keys, s: Bytes, i: nat) returns (chunks: seq<Bytes>)
    requires Lawful(k) && Decode(k, s, i).ok
    ensures Framed(chunks) && i + |chunks| <= MAX_SEQUENCE
    ensures s == Assemble(k, chunks, i) && Decode(k, s, i).delivered == Join(chunks)
    decreases |s|
  {
    hide Record, OpenRecord;
    var record := FirstRecord(s);
    var o := OpenRecord(k, i, record);
    OpenedIsSealed(k, i, record);
    match o
    case Last(chunk) =>
      chunks := [chunk];
      assert Join([chunk]) == chunk by { assert [chunk][1..] == []; }
    case More(chunk) =>
      var rest := AcceptedIsFramed(k, s[|record|..], i + 1);
      chunks := [chunk] + rest;
      assert chunks[1..] == rest;
  }

  ghost predicate Frames(k: Keys, s: Bytes, p: Bytes, chunks: seq<Bytes>)
    requires |k.nonceBase| == 12
  {
    Framed(chunks) && |chunks| <= MAX_SEQUENCE && s == Assemble(k, chunks, 0) && p == Join(chunks)
  }

  /** The accepted records are exactly the framings: full records, one final record, and nothing after. */
  lemma {:induction false} AcceptedStreams(k: Keys, s: Bytes, p: Bytes)
    requires Lawful(k)
    ensures Decode(k, s, 0) == Outcome(p, true) <==> exists chunks: seq<Bytes> :: Frames(k, s, p, chunks)
  {
    hide Decode, Assemble, Join;
    if Decode(k, s, 0) == Outcome(p, true) {
      var chunks := AcceptedIsFramed(k, s, 0);
      assert Frames(k, s, p, chunks);
    }
    if chunks: seq<Bytes> :| Frames(k, s, p, chunks) {
      FramedIsAccepted(k, chunks, 0);
    }
  }

  /** A header, then the records. */
  predicate Headed(x: Bytes, salt: Bytes, s: Bytes) { |salt| == SALT_SIZE && x == Header(salt) + s }

  lemma HeaderIsOk(x: Bytes)
    ensures HeaderOk(x) ==> Headed(x, x[..SALT_SIZE], x[HEADER_SIZE..])
    ensures forall salt, s :: Headed(x, salt, s) ==> HeaderOk(x) && salt == x[..SALT_SIZE] && s == x[HEADER_SIZE..]
  {
    hide BigEndian;
    if HeaderOk(x) {
      assert x == x[..SALT_SIZE] + x[SALT_SIZE..HEADER_SIZE] + x[HEADER_SIZE..];
    }
    forall salt, s | Headed(x, salt, s) ensures HeaderOk(x) && salt == x[..SALT_SIZE] && s == x[HEADER_SIZE..] {
      assert |Header(salt)| == HEADER_SIZE;
      assert x[SALT_SIZE..HEADER_SIZE] == Header(salt)[SALT_SIZE..];
    }
  }

  /** Whole streams: exactly a header and such records. */
  lemma AcceptedWholeStreams(derive: Bytes -> Keys, x: Bytes, p: Bytes)
    requires forall salt :: |derive(salt).nonceBase| == 12 && Lawful(derive(salt))
    ensures DecodeStream(derive, x) == Outcome(p, true) <==>
            exists salt: Bytes, s: Bytes, chunks: seq<Bytes> :: Headed(x, salt, s) && Frames(derive(salt), s, p, chunks)
  {
    HeaderIsOk(x);
    hide Decode, Header, Headed, Frames, BigEndian;
    if HeaderOk(x) {
      AcceptedStreams(derive(x[..SALT_SIZE]), x[HEADER_SIZE..], p);
    }
  }

  // ----- how many encodings a plaintext has

  /** The other way to frame a whole number of full chunks: all of them non-final, then an empty final record. */
  function BodyWithEmptyTail(k: Keys, p: Bytes, i: nat): Bytes
    requires |k.nonceBase| == 12 && |p| % MAX_PLAINTEXT == 0
    decreases |p|
  {
    if p == [] then Record(k, i, [], true)
    else Record(k, i, p[..MAX_PLAINTEXT], false) + BodyWithEmptyTail(k, p[MAX_PLAINTEXT..], i + 1)
  }

  /** The two ways a framing can look. */
  predicate FramesPlainly(k: Keys, chunks: seq<Bytes>, i: nat)
    requires |k.nonceBase| == 12 && chunks != []
  {
    var p := Join(chunks);
    Assemble(k, chunks, i) == Body(k, p, i) && |chunks| == NonFinalRecords(|p|) + 1
  }

  predicate FramesWithEmptyTail(k: Keys, chunks: seq<Bytes>, i: nat)
    requires |k.nonceBase| == 12 && chunks != []
  {
    var p := Join(chunks);
    && |p| > 0 && |p| % MAX_PLAINTEXT == 0 && Assemble(k, chunks, i) == BodyWithEmptyTail(k, p, i)
    && |chunks| == NonFinalRecords(|p|) + 2
  }

  lemma {:induction false} FramingOf(k: Keys, chunks: seq<Bytes>, i: nat)
    requires |k.nonceBase| == 12 && Framed(chunks)
    ensures FramesPlainly(k, chunks, i) || FramesWithEmptyTail(k, chunks, i)
  {
    if |chunks| == 1 {
      FramingOfOne(k, chunks, i);
    } else if Join(chunks[1..]) == [] {
      FramingOfFullAndEmpty(k, chunks, i);
    } else {
      FramingOf(k, chunks[1..], i + 1);
      FramingOfMore(k, chunks, i);
    }
  }

  lemma FramingOfOne(k: Keys, chunks: seq<Bytes>, i: nat)
    requires |k.nonceBase| == 12 && Framed(chunks) && |chunks| == 1
    ensures FramesPlainly(k, chunks, i)
  {
    hide Record;
    assert Join(chunks) == chunks[0] + Join(chunks[1..]) && Join(chunks[1..]) == [];
    assert Join(chunks) == chunks[0];
  }

  lemma FramingOfFullAndEmpty(k: Keys, chunks: seq<Bytes>, i: nat)
    requires |k.nonceBase| == 12 && Framed(chunks) && |chunks| > 1 && Join(chunks[1..]) == []
    ensures FramesWithEmptyTail(k, chunks, i)
  {
    hide Record;
    var p, rest := Join(chunks), chunks[1..];
    assert p == chunks[0] + Join(rest) && p == chunks[0];
    assert Join(rest) == rest[0] + Join(rest[1..]);
    assert rest[0] == [];
    assert |rest| == 1;
    assert p[..MAX_PLAINTEXT] == p && p[MAX_PLAINTEXT..] == [];
    assert BodyWithEmptyTail(k, p, i) == Record(k, i, p, false) + Record(k, i + 1, [], true);
    assert Assemble(k, rest, i + 1) == Record(k, i + 1, [], true);
    assert Assemble(k, chunks, i) == Record(k, i, p, false) + Assemble(k, rest, i + 1);
    assert NonFinalRecords(|p|) == 0;
  }

  lemma FramingOfMore(k: Keys, chunks: seq<Bytes>, i: nat)
    requires |k.nonceBase| == 12 && Framed(chunks) && |chunks| > 1 && Join(chunks[1..]) != []
    requires FramesPlainly(k, chunks[1..], i + 1) || FramesWithEmptyTail(k, chunks[1..], i + 1)
    ensures FramesPlainly(k, chunks, i) || FramesWithEmptyTail(k, chunks, i)
  {
    hide Record;
    var p, q := Join(chunks), Join(chunks[1..]);
    assert p == chunks[0] + q;
    assert p[..MAX_PLAINTEXT] == chunks[0] && p[MAX_PLAINTEXT..] == q;
    OneRecordLess(|p|);
    hide Join, NonFinalRecords;
    assert Assemble(k, chunks, i) == Record(k, i, chunks[0], false) + Assemble(k, chunks[1..], i + 1);
    assert Body(k, p, i) == Record(k, i, chunks[0], false) + Body(k, q, i + 1);
    if FramesWithEmptyTail(k, chunks[1..], i + 1) {
      assert BodyWithEmptyTail(k, p, i) == Record(k, i, chunks[0], false) + BodyWithEmptyTail(k, q, i + 1);
    }
  }

  /** One more full chunk in front of a framing. */
  lemma FramedCons(k: Keys, chunk: Bytes, rest: seq<Bytes>, i: nat)
    requires |k.nonceBase| == 12 && Framed(rest) && |chunk| == MAX_PLAINTEXT
    ensures Framed([chunk] + rest) && Join([chunk] + rest) == chunk + Join(rest)
    ensures Assemble(k, [chunk] + rest, i) == Record(k, i, chunk, false) + Assemble(k, rest, i + 1)
  {}

  lemma FramedOne(k: Keys, chunk: Bytes, i: nat)
    requires |k.nonceBase| == 12 && |chunk| <= MAX_PLAINTEXT
    ensures Framed([chunk]) && Join([chunk]) == chunk && Assemble(k, [chunk], i) == Record(k, i, chunk, true)
  {}

  lemma {:induction false} BodyIsFramed(k: Keys, p: Bytes, i: nat) returns (chunks: seq<Bytes>)
    requires |k.nonceBase| == 12
    ensures Framed(chunks) && Join(chunks) == p && Assemble(k, chunks, i) == Body(k, p, i)
    ensures |chunks| == NonFinalRecords(|p|) + 1
    decreases |p|
  {
    hide Record, Framed, Join, Assemble;
    if |p| <= MAX_PLAINTEXT {
      chunks := [p];
      FramedOne(k, p, i);
    } else {
      var rest := BodyIsFramed(k, p[MAX_PLAINTEXT..], i + 1);
      chunks := [p[..MAX_PLAINTEXT]] + rest;
      FramedCons(k, p[..MAX_PLAINTEXT], rest, i);
      OneRecordLess(|p|);
    }
  }

  lemma {:induction false} EmptyTailIsFramed(k: Keys, p: Bytes, i: nat) returns (chunks: seq<Bytes>)
    requires |k.nonceBase| == 12 && |p| % MAX_PLAINTEXT == 0
    ensures Framed(chunks) && Join(chunks) == p && Assemble(k, chunks, i) == BodyWithEmptyTail(k, p, i)
    ensures |chunks| == |p| / MAX_PLAINTEXT + 1
    decreases |p|
  {
    hide Record, Framed, Join, Assemble;
    if p == [] {
      chunks := [[]];
      FramedOne(k, p, i);
    } else {
      var rest := EmptyTailIsFramed(k, p[MAX_PLAINTEXT..], i + 1);
      chunks := [p[..MAX_PLAINTEXT]] + rest;
      FramedCons(k, p[..MAX_PLAINTEXT], rest, i);
    }
  }

  predicate IsEncoding(k: Keys, s: Bytes, p: Bytes)
    requires |k.nonceBase| == 12
  {
    || (s == Body(k, p, 0) && NonFinalRecords(|p|) < MAX_SEQUENCE)
    || (|p| > 0 && |p| % MAX_PLAINTEXT == 0 && s == BodyWithEmptyTail(k, p, 0) && |p| / MAX_PLAINTEXT < MAX_SEQUENCE)
  }

  /**
   A plaintext has one accepted encoding under one key and salt, except that a positive whole number of
   full chunks has two: the last full chunk final, or followed by an empty final record.
   */
  lemma {:induction false} EncodingsOf(k: Keys, s: Bytes, p: Bytes)
    requires Lawful(k)
    ensures Decode(k, s, 0) == Outcome(p, true) <==> IsEncoding(k, s, p)
  {
    hide Decode, Assemble, Join, Framed, Body, BodyWithEmptyTail;
    if Decode(k, s, 0) == Outcome(p, true) {
      var chunks := AcceptedIsFramed(k, s, 0);
      FramingOf(k, chunks, 0);
    }
    if s == Body(k, p, 0) && NonFinalRecords(|p|) < MAX_SEQUENCE {
      var chunks := BodyIsFramed(k, p, 0);
      FramedIsAccepted(k, chunks, 0);
    }
    if |p| > 0 && |p| % MAX_PLAINTEXT == 0 && s == BodyWithEmptyTail(k, p, 0) && |p| / MAX_PLAINTEXT < MAX_SEQUENCE {
      var chunks := EmptyTailIsFramed(k, p, 0);
      FramedIsAccepted(k, chunks, 0);
    }
  }

  /** The same for whole streams, under each salt. */
  lemma EncodingsOfStream(derive: Bytes -> Keys, salt: Bytes, x: Bytes, p: Bytes)
    requires (forall other :: |derive(other).nonceBase| == 12 && Lawful(derive(other))) && |salt| == SALT_SIZE
    ensures DecodeStream(derive, x) == Outcome(p, true) && salt <= x <==>
            exists s: Bytes :: Headed(x, salt, s) && IsEncoding(derive(salt), s, p)
  {
    HeaderIsOk(x);
    hide Decode, Header, Headed, BigEndian, IsEncoding;
    if HeaderOk(x) {
      assert salt <= x <==> x[..SALT_SIZE] == salt;
      EncodingsOf(derive(x[..SALT_SIZE]), x[HEADER_SIZE..], p);
    }
  }

  lemma {:induction false} EncodingsDiffer(k: Keys, p: Bytes, i: nat)
    requires Lawful(k) && |p| > 0 && |p| % MAX_PLAINTEXT == 0
    ensures |BodyWithEmptyTail(k, p, i)| == |Body(k, p, i)| + 17
    decreases |p|
  {
    if |p| > MAX_PLAINTEXT {
      EncodingsDiffer(k, p[MAX_PLAINTEXT..], i + 1);
    } else {
      assert p[..MAX_PLAINTEXT] == p && p[MAX_PLAINTEXT..] == [];
    }
  }

  // ----- tampering

  /** The j-th record position of a stream. */
  function Slice(s: Bytes, j: nat): Bytes
    requires RECORD_SIZE * j < |s|
  {
    FirstRecord(s[RECORD_SIZE * j..])
  }

  /**
   Every record of `s` that opens in its place is the one the sender sealed there. This is what
   authenticated encryption leaves to somebody without the key: drop, repeat, reorder, extend.
   */
  ghost predicate Unforged(k: Keys, s: Bytes, sealed: seq<Bytes>, i: nat)
    requires |k.nonceBase| == 12
  {
    forall j: nat :: RECORD_SIZE * j < |s| && k.open(RecordNonce(k.nonceBase, i + j), Slice(s, j)).Some? ==>
      j < |sealed| && Slice(s, j) == sealed[j]
  }

  /** The records of a plaintext, apart. */
  function SealedRecords(k: Keys, p: Bytes, i: nat): (r: seq<Bytes>)
    requires |k.nonceBase| == 12
    ensures r != []
    decreases |p|
  {
    if |p| <= MAX_PLAINTEXT then [Record(k, i, p, true)]
    else [Record(k, i, p[..MAX_PLAINTEXT], false)] + SealedRecords(k, p[MAX_PLAINTEXT..], i + 1)
  }

  lemma {:induction false} UnforgedRest(k: Keys, s: Bytes, sealed: seq<Bytes>, i: nat)
    requires |k.nonceBase| == 12 && Unforged(k, s, sealed, i) && |s| > RECORD_SIZE && sealed != []
    ensures Unforged(k, s[RECORD_SIZE..], sealed[1..], i + 1)
  {
    hide RecordNonce;
    var rest := s[RECORD_SIZE..];
    forall j: nat | RECORD_SIZE * j < |rest| && k.open(RecordNonce(k.nonceBase, i + 1 + j), Slice(rest, j)).Some?
      ensures j < |sealed[1..]| && Slice(rest, j) == sealed[1..][j]
    {
      assert rest[RECORD_SIZE * j..] == s[RECORD_SIZE * (j + 1)..];
      assert Slice(rest, j) == Slice(s, j + 1) && i + 1 + j == i + (j + 1);
    }
  }

  /** An unforged stream is the sender's own, or is rejected after a prefix of the sender's plaintext. */
  lemma {:induction false} TamperingIsRejected(k: Keys, s: Bytes, p: Bytes, i: nat)
    requires Lawful(k) && Unforged(k, s, SealedRecords(k, p, i), i)
    ensures var o := Decode(k, s, i);
            && o.delivered <= p
            && (o.ok ==> s == Body(k, p, i) && o.delivered == p)
    decreases |p|
  {
    hide Record, OpenRecord, RecordNonce, Unforged;
    if i < MAX_SEQUENCE && s != [] {
      var record := FirstRecord(s);
      var first := OpenRecord(k, i, record);
      if first != Bad {
        FirstIsSealed(k, s, SealedRecords(k, p, i), i);
        var final := |p| <= MAX_PLAINTEXT;
        var chunk := if final then p else p[..MAX_PLAINTEXT];
        OpenSealed(k, i, chunk, final);
        if !final {
          assert s == record + s[|record|..];
          if s[|record|..] != [] {
            UnforgedRest(k, s, SealedRecords(k, p, i), i);
            TamperingIsRejected(k, s[RECORD_SIZE..], p[MAX_PLAINTEXT..], i + 1);
            assert p == p[..MAX_PLAINTEXT] + p[MAX_PLAINTEXT..];
          }
        }
      }
    }
  }

  lemma FirstIsSealed(k: Keys, s: Bytes, sealed: seq<Bytes>, i: nat)
    requires |k.nonceBase| == 12 && Unforged(k, s, sealed, i) && s != [] && OpenRecord(k, i, FirstRecord(s)) != Bad
    ensures sealed != [] && FirstRecord(s) == sealed[0]
  {
    hide RecordNonce;
    assert s[RECORD_SIZE * 0..] == s;
    assert Slice(s, 0) == FirstRecord(s) && i + 0 == i;
    assert k.open(RecordNonce(k.nonceBase, i + 0), Slice(s, 0)).Some?;
  }

  /**
   The same with the header: under the sender's salt only the sender's records open in their places, and
   under any other salt none do. Then a stream is the sender's, or is rejected after a prefix.
   */
  lemma {:induction false} TamperedStreamIsRejected(derive: Bytes -> Keys, salt: Bytes, p: Bytes, x: Bytes)
    requires forall salt' :: Lawful(derive(salt')) && |derive(salt').nonceBase| == 12
    requires HeaderOk(x) ==>
      Unforged(derive(x[..SALT_SIZE]), x[HEADER_SIZE..],
               if x[..SALT_SIZE] == salt then SealedRecords(derive(salt), p, 0) else [], 0)
    ensures var o := DecodeStream(derive, x);
            && o.delivered <= p
            && (o.ok ==> x == Header(salt) + Body(derive(salt), p, 0) && o.delivered == p)
  {
    hide Decode, Unforged, BigEndian;
    if HeaderOk(x) {
      var k, s := derive(x[..SALT_SIZE]), x[HEADER_SIZE..];
      assert x == x[..SALT_SIZE] + x[SALT_SIZE..HEADER_SIZE] + s;
      if x[..SALT_SIZE] == salt {
        TamperingIsRejected(k, s, p, 0);
      } else {
        NothingOpens(k, s);
      }
    }
  }

  lemma NothingOpens(k: Keys, s: Bytes)
    requires |k.nonceBase| == 12 && Unforged(k, s, [], 0)
    ensures Decode(k, s, 0) == REJECTED
  {
    hide RecordNonce, Unforged;
    if s != [] && OpenRecord(k, 0, FirstRecord(s)) != Bad {
      FirstIsSealed(k, s, [], 0);
    }
  }

  // ----- the TypeScript reader

  /** The records of a stream from the i-th on, as the TypeScript transform takes them. */
  function DecodeWeb(k: Keys, s: Bytes, i: nat, sawFinal: bool): Outcome
    requires |k.nonceBase| == 12
    decreases |s|
  {
    if s == [] then Outcome([], sawFinal)
    else if i >= MAX_SEQUENCE || sawFinal then REJECTED
    else
      var record := FirstRecord(s);
      match OpenRecord(k, i, record)
      case Bad => REJECTED
      case Last(chunk) => After(chunk, DecodeWeb(k, s[|record|..], i + 1, true))
      case More(chunk) => After(chunk, DecodeWeb(k, s[|record|..], i + 1, false))
  }

  function DecodeWebStream(derive: Bytes -> Keys, x: Bytes): Outcome
    requires forall salt :: |derive(salt).nonceBase| == 12
  {
    if HeaderOk(x) then DecodeWeb(derive(x[..SALT_SIZE]), x[HEADER_SIZE..], 0, false) else REJECTED
  }

  /** How far beyond the Go reader the TypeScript one gets: the final record, when something follows it. */
  lemma {:induction false} ReadersAgreeOnRecords(k: Keys, s: Bytes, i: nat)
    requires |k.nonceBase| == 12
    ensures var go, web := Decode(k, s, i), DecodeWeb(k, s, i, false);
            && go.ok == web.ok && (go.ok ==> go.delivered == web.delivered)
            && go.delivered <= web.delivered
    decreases |s|
  {
    hide OpenRecord;
    if i < MAX_SEQUENCE && s != [] {
      var record := FirstRecord(s);
      var first := OpenRecord(k, i, record);
      if first.More? {
        ReadersAgreeOnRecords(k, s[|record|..], i + 1);
      }
    }
  }

  /** Both readers accept the same streams, with the same plaintext. */
  lemma {:induction false} ReadersAgree(derive: Bytes -> Keys, x: Bytes)
    requires forall salt :: |derive(salt).nonceBase| == 12
    ensures var go, web := DecodeStream(derive, x), DecodeWebStream(derive, x);
            && go.ok == web.ok && (go.ok ==> go.delivered == web.delivered)
            && go.delivered <= web.delivered
  {
    if HeaderOk(x) {
      ReadersAgreeOnRecords(derive(x[..SALT_SIZE]), x[HEADER_SIZE..], 0);
    }
  }

  // ----- the assumptions on the cipher can be met

  const ZERO_TAG: Bytes := seq(TAG_SIZE, _ => 0)

  /** A cipher that hides nothing and still satisfies every law assumed above. */
  function TransparentKeys(): Keys {
    Keys(seq(12, _ => 0),
         (_: Bytes, p: Bytes) => p + ZERO_TAG,
         (_: Bytes, c: Bytes) =>
           if |c| >= TAG_SIZE && c[|c| - TAG_SIZE..] == ZERO_TAG then Some(c[..|c| - TAG_SIZE]) else None)
  }

  lemma TransparentKeysAreLawful()
    ensures Lawful(TransparentKeys())
  {}
}
