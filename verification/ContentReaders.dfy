/**
 The streaming readers. Both are proved to deliver exactly what the whole-stream functions say,
 for every sequence of read sizes (Go) and every cut of the input into chunks (TypeScript).
 */
module ContentReaders {
  import opened Bytes
  import opened ContentFraming
  import opened ContentDecoding
  import opened ContentStreams

  datatype ReadError = EndOfFile | BadContent

  class Decryptor {
    const derive: Bytes -> Keys
    var src: Bytes
    var keys: Keys
    var seq_: nat
    var plain: Bytes
    var off: nat
    var headerRead: bool
    var sawFinal: bool
    var err: Option<ReadError>

    ghost predicate Valid()
      reads this
    {
      && (forall salt :: |derive(salt).nonceBase| == 12)
      && off <= |plain|
      && (headerRead ==> |keys.nonceBase| == 12)
      && (!headerRead ==> plain == [] && !sawFinal && seq_ == 0 && off == 0)
    }

    /** What is still to come: bytes, and then an end or an error. */
    ghost function Pending(): Outcome
      requires Valid()
      reads this
    {
      match err
      case Some(EndOfFile) => Outcome([], true)
      case Some(BadContent) => REJECTED
      case None =>
        if !headerRead then DecodeStream(derive, src)
        else After(plain[off..], if sawFinal then Outcome([], true) else Decode(keys, src, seq_))
    }

    constructor (derive: Bytes -> Keys, src: Bytes)
      requires forall salt :: |derive(salt).nonceBase| == 12
      ensures Valid() && Pending() == DecodeStream(derive, src)
    {
      this.derive, this.src := derive, src;
      keys, seq_, plain, off := derive([]), 0, [], 0;
      headerRead, sawFinal, err := false, false, None;
    }

    method ReadHeader() returns (ok: bool)
      requires Valid() && err.None? && !headerRead
      modifies this
      ensures Valid() && err.None? && plain == [] && off == 0 && !sawFinal && seq_ == 0
      ensures ok == headerRead && (ok ==> Pending() == old(Pending()))
      ensures !ok ==> old(Pending()) == REJECTED
    {
      hide BigEndian, Decode;
      if |src| < HEADER_SIZE {
        return false;
      }
      var header := src[..HEADER_SIZE];
      src := src[HEADER_SIZE..];
      assert header[SALT_SIZE..HEADER_SIZE] == old(src)[SALT_SIZE..HEADER_SIZE];
      if header[SALT_SIZE..HEADER_SIZE] != BigEndian(RECORD_SIZE, 4) + [0] {
        return false;
      }
      assert header[..SALT_SIZE] == old(src)[..SALT_SIZE];
      keys := derive(header[..SALT_SIZE]);
      headerRead := true;
      ok := true;
    }

    /** Takes one record off the source; a record after the final one is an error. */
    method NextRecord() returns (ok: bool)
      requires Valid() && err.None? && headerRead && !sawFinal && off == |plain|
      modifies this
      ensures Valid() && err.None? && headerRead && keys == old(keys)
      ensures ok ==> off == 0 && |src| < |old(src)| && Pending() == old(Pending())
      ensures !ok ==> old(Pending()) == REJECTED
    {
      hide RecordNonce;
      if seq_ >= MAX_SEQUENCE {
        return false;
      }
      var n := if |src| < RECORD_SIZE then |src| else RECORD_SIZE;
      if n == 0 {
        return false;
      }
      var record := src[..n];
      assert record == FirstRecord(src);
      src := src[n..];
      var plaintext := keys.open(RecordNonce(keys.nonceBase, seq_), record);
      if plaintext.None? || |plaintext.value| == 0 {
        return false;
      }
      var last := |plaintext.value| - 1;
      var delimiter := plaintext.value[last];
      if delimiter == FINAL {
        sawFinal := true;
      } else if delimiter == NON_FINAL {
        if n != RECORD_SIZE {
          return false;
        }
      } else {
        return false;
      }
      plain := plaintext.value[..last];
      off := 0;
      seq_ := seq_ + 1;
      if sawFinal && |src| > 0 {
        return false;
      }
      ok := true;
    }

    /** Hands out at most `size` bytes of what is pending, in order. */
    method Read(size: nat) returns (out: Bytes, e: Option<ReadError>)
      requires Valid()
      modifies this
      ensures Valid()
      ensures |out| <= size && After(out, Pending()) == old(Pending())
      ensures e.None? && size > 0 ==> out != []
      ensures e.Some? ==> out == [] && e == err && Pending() == Outcome([], e.value.EndOfFile?)
    {
      hide Decode, DecodeStream;
      if err.Some? {
        return [], err;
      }
      if !headerRead {
        var ok := ReadHeader();
        if !ok {
          err := Some(BadContent);
          return [], err;
        }
      }
      while off == |plain|
        invariant Valid() && err.None? && headerRead && Pending() == old(Pending())
        decreases |src|
      {
        if sawFinal {
          err := Some(EndOfFile);
          return [], err;
        }
        var ok := NextRecord();
        if !ok {
          err := Some(BadContent);
          return [], err;
        }
      }
      out := HandOut(size);
      e := None;
    }

    /** Copies from the record at hand. */
    method HandOut(size: nat) returns (out: Bytes)
      requires Valid() && err.None? && headerRead && off < |plain|
      modifies this`off
      ensures Valid() && |out| <= size && (size > 0 ==> out != []) && After(out, Pending()) == old(Pending())
    {
      hide Decode, DecodeStream;
      var n := if |plain| - off < size then |plain| - off else size;
      out := plain[off..off + n];
      assert plain[off..] == out + plain[off + n..];
      off := off + n;
    }
  }

  /** Reads of any sizes deliver a prefix of the decoding, and an end or an error only where it has one. */
  method ReadAll(derive: Bytes -> Keys, stream: Bytes, sizes: seq<nat>) returns (out: Bytes, e: Option<ReadError>)
    requires forall salt :: |derive(salt).nonceBase| == 12
    ensures out <= DecodeStream(derive, stream).delivered
    ensures e.Some? ==> Outcome(out, e.value.EndOfFile?) == DecodeStream(derive, stream)
    ensures e.None? ==> |out| >= Positive(sizes)
  {
    hide DecodeStream, Decode, Positive, After;
    AfterNothing(DecodeStream(derive, stream));
    var d := new Decryptor(derive, stream);
    assert Positive(sizes[..0]) == 0 by { NoPositive(sizes); }
    out, e := [], None;
    for i := 0 to |sizes|
      invariant d.Valid() && fresh(d)
      invariant After(out, d.Pending()) == DecodeStream(derive, stream)
      invariant |out| >= Positive(sizes[..i]) && out <= DecodeStream(derive, stream).delivered
    {
      var part, stop := d.Read(sizes[i]);
      PositiveNext(sizes, i);
      AfterBoth(out, part, d.Pending());
      out := out + part;
      if stop.Some? {
        return out, stop;
      }
    }
    assert sizes[..|sizes|] == sizes;
  }

  lemma AfterBoth(a: Bytes, b: Bytes, o: Outcome)
    ensures After(a, After(b, o)) == After(a + b, o)
    ensures a + b <= After(a + b, o).delivered && After(a + b, Outcome([], o.ok)) == Outcome(a + b, o.ok)
  {}

  lemma AfterNothing(o: Outcome)
    ensures After([], o) == o
  {}

  /** How many of the reads ask for something. */
  function Positive(sizes: seq<nat>): nat {
    if sizes == [] then 0 else Positive(sizes[..|sizes| - 1]) + (if sizes[|sizes| - 1] > 0 then 1 else 0)
  }

  lemma NoPositive(sizes: seq<nat>)
    ensures Positive(sizes[..0]) == 0
  {}

  lemma PositiveNext(sizes: seq<nat>, i: nat)
    requires i < |sizes|
    ensures Positive(sizes[..i + 1]) == Positive(sizes[..i]) + (if sizes[i] > 0 then 1 else 0)
  {
    assert sizes[..i + 1][..i] == sizes[..i];
  }

  /** Any writes, then any reads: the plaintext comes back, with an end after it and never an error. */
  method RoundTrip(derive: Bytes -> Keys, salt: Bytes, writes: seq<Bytes>, sizes: seq<nat>)
      returns (out: Bytes, e: Option<ReadError>)
    requires |salt| == SALT_SIZE && (forall s :: |derive(s).nonceBase| == 12) && Lawful(derive(salt))
    requires NonFinalRecords(|Join(writes)|) < MAX_SEQUENCE
    ensures out <= Join(writes) && e != Some(BadContent)
    ensures e == Some(EndOfFile) ==> out == Join(writes)
    ensures Positive(sizes) > |Join(writes)| ==> e == Some(EndOfFile)
  {
    var stream := EncryptAll(salt, derive(salt), writes);
    EncodingDecodes(derive, salt, Join(writes));
    hide DecodeStream, Body, Header, NonFinalRecords, Lawful;
    out, e := ReadAll(derive, stream.value, sizes);
  }

  lemma {:induction false} EncodingDecodes(derive: Bytes -> Keys, salt: Bytes, p: Bytes)
    requires |salt| == SALT_SIZE && (forall s :: |derive(s).nonceBase| == 12) && Lawful(derive(salt))
    requires NonFinalRecords(|p|) < MAX_SEQUENCE
    ensures DecodeStream(derive, Header(salt) + Body(derive(salt), p, 0)) == Outcome(p, true)
  {
    hide Decode, Body, BigEndian, NonFinalRecords;
    var body := Body(derive(salt), p, 0);
    var x := Header(salt) + body;
    EncodingsOf(derive(salt), body, p);
    assert x[..SALT_SIZE] == salt && x[HEADER_SIZE..] == body;
    assert x[SALT_SIZE..HEADER_SIZE] == BigEndian(RECORD_SIZE, 4) + [0];
  }

  // ----- TypeScript

  /** The decrypting transform: whole records are taken as they complete, the rest when the stream ends. */
  class WebDecryptor {
    const derive: Bytes -> Keys
    var keys: Option<Keys>
    var seq_: nat
    var sawFinal: bool
    var pending: Bytes
    var enqueued: Bytes
    var failed: bool

    ghost predicate Valid()
      reads this
    {
      && (forall salt :: |derive(salt).nonceBase| == 12)
      && (keys.Some? ==> |keys.value.nonceBase| == 12)
      && (keys.None? && !failed ==> enqueued == [] && seq_ == 0 && !sawFinal)
    }

    /** What will have come out when `rest` has been fed and the stream closed. */
    ghost function Expected(rest: Bytes): Outcome
      requires Valid()
      reads this
    {
      if failed then Outcome(enqueued, false)
      else if keys.None? then DecodeWebStream(derive, pending + rest)
      else After(enqueued, DecodeWeb(keys.value, pending + rest, seq_, sawFinal))
    }

    constructor (derive: Bytes -> Keys)
      requires forall salt :: |derive(salt).nonceBase| == 12
      ensures Valid() && !failed && enqueued == [] && keys.None? && pending == []
      ensures forall x :: Expected(x) == DecodeWebStream(derive, x)
    {
      this.derive := derive;
      keys, seq_, sawFinal, pending, enqueued, failed := None, 0, false, [], [], false;
      new;
      assert forall x: Bytes :: [] + x == x;
    }

    /** One record: a chunk is passed on, or the transform fails. */
    method DecryptRecord(record: Bytes)
      requires Valid() && !failed && keys.Some?
      modifies this`seq_, this`sawFinal, this`enqueued, this`failed
      ensures Valid()
      ensures failed <==>
        old(seq_) >= MAX_SEQUENCE || old(sawFinal) || OpenRecord(keys.value, old(seq_), record) == Bad
      ensures failed ==> enqueued == old(enqueued)
      ensures !failed ==>
        var o := OpenRecord(keys.value, old(seq_), record);
        enqueued == old(enqueued) + o.chunk && seq_ == old(seq_) + 1 && sawFinal == o.Last?
    {
      hide RecordNonce;
      if seq_ >= MAX_SEQUENCE || sawFinal {
        failed := true;
        return;
      }
      var plaintext := keys.value.open(RecordNonce(keys.value.nonceBase, seq_), record);
      if plaintext.None? || |plaintext.value| == 0 {
        failed := true;
        return;
      }
      var last := |plaintext.value| - 1;
      var delimiter := plaintext.value[last];
      if delimiter == FINAL {
        sawFinal := true;
      } else if delimiter == NON_FINAL {
        if |record| != RECORD_SIZE {
          failed := true;
          return;
        }
      } else {
        failed := true;
        return;
      }
      seq_ := seq_ + 1;
      if |plaintext.value| > 1 {
        enqueued := enqueued + plaintext.value[..last];
      }
    }

    /** The first record of what is pending, with more to follow or at the end of the stream. */
    method TakeRecord(size: nat, ghost rest: Bytes)
      requires Valid() && !failed && keys.Some? && 0 < size <= |pending|
      requires FirstRecord(pending + rest) == pending[..size]
      modifies this`seq_, this`sawFinal, this`enqueued, this`failed, this`pending
      ensures Valid() && Expected(rest) == old(Expected(rest))
      ensures !failed ==> pending == old(pending)[size..]
    {
      hide OpenRecord, FirstRecord;
      ghost var s := pending + rest;
      assert s[size..] == pending[size..] + rest;
      WebStep(keys.value, s, seq_, sawFinal, enqueued);
      DecryptRecord(pending[..size]);
      if !failed {
        pending := pending[size..];
      }
    }

    method ReadHeader(ghost rest: Bytes)
      requires Valid() && !failed && keys.None? && |pending| >= HEADER_SIZE
      modifies this`keys, this`pending, this`failed
      ensures Valid() && Expected(rest) == old(Expected(rest)) && (!failed ==> keys.Some?)
    {
      hide BigEndian, DecodeWeb;
      ghost var x := pending + rest;
      assert x[SALT_SIZE..HEADER_SIZE] == pending[SALT_SIZE..HEADER_SIZE];
      assert x[..SALT_SIZE] == pending[..SALT_SIZE] && x[HEADER_SIZE..] == pending[HEADER_SIZE..] + rest;
      if pending[SALT_SIZE..HEADER_SIZE] != BigEndian(RECORD_SIZE, 4) + [0] {
        failed := true;
        return;
      }
      keys := Some(derive(pending[..SALT_SIZE]));
      pending := pending[HEADER_SIZE..];
    }

    method Transform(chunk: Bytes, ghost rest: Bytes)
      requires Valid() && !failed && (keys.Some? ==> |pending| < RECORD_SIZE)
      modifies this
      ensures Valid() && Expected(rest) == old(Expected(chunk + rest))
      ensures !failed && keys.Some? ==> |pending| < RECORD_SIZE
      ensures !failed && keys.None? ==> |pending| < HEADER_SIZE
    {
      hide DecodeWeb, DecodeWebStream;
      assert (pending + chunk) + rest == pending + (chunk + rest);
      pending := pending + chunk;
      if keys.None? {
        if |pending| < HEADER_SIZE {
          return;
        }
        ReadHeader(rest);
        if failed {
          return;
        }
      }
      while |pending| >= RECORD_SIZE
        invariant Valid() && !failed && keys.Some? && Expected(rest) == old(Expected(chunk + rest))
        decreases |pending|
      {
        assert FirstRecord(pending + rest) == pending[..RECORD_SIZE];
        TakeRecord(RECORD_SIZE, rest);
        if failed {
          return;
        }
      }
    }

    method Flush() returns (ok: bool)
      requires Valid() && !failed && (if keys.Some? then |pending| < RECORD_SIZE else |pending| < HEADER_SIZE)
      modifies this
      ensures Outcome(enqueued, ok) == old(Expected([]))
    {
      assert pending + [] == pending;
      if keys.None? {
        return false;
      }
      hide DecodeWebStream;
      if |pending| > 0 {
        assert FirstRecord(pending + []) == pending[..|pending|];
        TakeRecord(|pending|, []);
        if failed {
          return false;
        }
        assert pending + [] == [];
      }
      ok := sawFinal;
    }
  }

  lemma WebStep(k: Keys, s: Bytes, i: nat, sawFinal: bool, before: Bytes)
    requires |k.nonceBase| == 12 && s != []
    ensures var record := FirstRecord(s);
            var o := OpenRecord(k, i, record);
            After(before, DecodeWeb(k, s, i, sawFinal)) ==
              if i >= MAX_SEQUENCE || sawFinal || o == Bad then Outcome(before, false)
              else After(before + o.chunk, DecodeWeb(k, s[|record|..], i + 1, o.Last?))
  {}

  /** However the stream is cut into chunks, the transform gives what the whole stream decodes to. */
  method DecryptWeb(derive: Bytes -> Keys, chunks: seq<Bytes>) returns (out: Bytes, ok: bool)
    requires forall salt :: |derive(salt).nonceBase| == 12
    ensures Outcome(out, ok) == DecodeWebStream(derive, Join(chunks))
    ensures ok == DecodeStream(derive, Join(chunks)).ok
    ensures ok ==> out == DecodeStream(derive, Join(chunks)).delivered
  {
    ReadersAgree(derive, Join(chunks));
    hide DecodeWebStream, DecodeWeb, DecodeStream;
    var t := new WebDecryptor(derive);
    for i := 0 to |chunks|
      invariant t.Valid() && fresh(t) && !t.failed
      invariant if t.keys.Some? then |t.pending| < RECORD_SIZE else |t.pending| < HEADER_SIZE
      invariant t.Expected(Join(chunks[i..])) == DecodeWebStream(derive, Join(chunks))
    {
      assert chunks[i..][1..] == chunks[i + 1..];
      t.Transform(chunks[i], Join(chunks[i + 1..]));
      if t.failed {
        return t.enqueued, false;
      }
    }
    ok := t.Flush();
    out := t.enqueued;
  }
}
