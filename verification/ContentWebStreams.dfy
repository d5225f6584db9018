/**
 The browser's encrypting transform. It derives its keys with the first record and enqueues pieces
 where the Go encryptor writes; the pieces join to the same encoding, however the file is cut up.
 */
module ContentWebStreams {
  import opened Bytes
  import opened ContentFraming
  import opened ContentStreams

  class WebEncryptor {
    const derive: Bytes -> Keys
    const salt: Bytes
    const buf: array<byte>
    var keys: Option<Keys>
    var seq_: nat
    var n: nat
    var headerWritten: bool
    var enqueued: seq<Bytes>

    /** Plaintext already sealed, and all plaintext taken. */
    ghost var flushed: Bytes
    ghost var written: Bytes

    ghost predicate Valid()
      reads this
    {
      && Lawful(derive(salt)) && |salt| == SALT_SIZE && |derive(salt).nonceBase| == 12
      && buf.Length == MAX_PLAINTEXT && n <= MAX_PLAINTEXT && seq_ <= MAX_SEQUENCE
      && (keys.Some? ==> keys.value == derive(salt))
      && |flushed| == seq_ * MAX_PLAINTEXT && |flushed| % MAX_PLAINTEXT == 0
      && (headerWritten <==> seq_ > 0)
      && Join(enqueued) == (if headerWritten then Header(salt) else []) + FullRecords(derive(salt), flushed, 0)
    }

    /** What the buffer holds is what has been taken and not sealed. */
    ghost predicate Holds()
      requires n <= buf.Length
      reads this, buf
    {
      written == flushed + buf[..n]
    }

    constructor (derive: Bytes -> Keys, salt: Bytes)
      requires |salt| == SALT_SIZE && Lawful(derive(salt)) && |derive(salt).nonceBase| == 12
      ensures Valid() && Holds() && fresh(buf) && this.derive == derive && this.salt == salt
      ensures written == [] && seq_ == 0 && n == 0
    {
      this.derive, this.salt, keys := derive, salt, None;
      buf := new byte[MAX_PLAINTEXT](_ => 0);
      seq_, n, headerWritten, enqueued := 0, 0, false, [];
      flushed, written := [], [];
    }

    /** The keys and the header come with the first record. */
    method Begin()
      requires Valid()
      modifies this`keys, this`headerWritten, this`enqueued
      ensures keys == Some(derive(salt)) && headerWritten
      ensures Join(enqueued) == Header(salt) + FullRecords(derive(salt), flushed, 0)
    {
      hide Header, Lawful, FullRecords, Join;
      if keys.None? {
        keys := Some(derive(salt));
      }
      if !headerWritten {
        NoRecords(derive(salt), flushed);
        JoinLast(enqueued, Header(salt));
        enqueued := enqueued + [Header(salt)];
        headerWritten := true;
      }
    }

    /** Seals what is buffered as one record. */
    method FlushRecord(final: bool) returns (ok: bool)
      requires Valid() && Holds() && (final ==> seq_ > 0 ==> n > 0) && (final || n == MAX_PLAINTEXT)
      modifies this`keys, this`headerWritten, this`enqueued, this`seq_, this`n, this`flushed
      ensures ok == (old(seq_) < MAX_SEQUENCE)
      ensures ok && !final ==> Valid() && Holds() && n == 0 && seq_ == old(seq_) + 1
      ensures ok && final ==> Join(enqueued) == Header(salt) + Body(derive(salt), written, 0)
    {
      hide Header, Record, RecordNonce, Lawful, FullRecords, Body, Join;
      ghost var k := derive(salt);
      Begin();
      if seq_ >= MAX_SEQUENCE {
        return false;
      }
      var chunk := buf[..n];
      var plaintext := chunk + [if final then FINAL else NON_FINAL];
      var record := keys.value.seal(RecordNonce(keys.value.nonceBase, seq_), plaintext);
      RecordIs(k, seq_, chunk, final);
      JoinLast(enqueued, record);
      if final {
        FullRecordsThenFinal(k, flushed, chunk, 0, seq_);
      } else {
        FullRecordsNext(k, flushed, chunk, 0, seq_);
      }
      enqueued := enqueued + [record];
      seq_ := seq_ + 1;
      flushed := flushed + chunk;
      n := 0;
      assert buf[..0] == [] && flushed + [] == flushed;
      ok := true;
    }

    /** Copies as much of a chunk as fits behind what is held. */
    method Fill(chunk: Bytes, offset: nat) returns (take: nat)
      requires buf.Length == MAX_PLAINTEXT && n < MAX_PLAINTEXT && Holds() && offset < |chunk|
      modifies this`n, this`written, buf
      ensures 0 < take && offset + take <= |chunk| && n == old(n) + take <= MAX_PLAINTEXT && Holds()
      ensures written == old(written) + chunk[offset..offset + take]
    {
      take := Min(MAX_PLAINTEXT - n, |chunk| - offset);
      ghost var held := buf[..n];
      forall i | 0 <= i < take {
        buf[n + i] := chunk[offset + i];
      }
      assert buf[..n + take] == held + chunk[offset..offset + take];
      written := written + chunk[offset..offset + take];
      n := n + take;
    }

    /** One turn of the loop: a full buffer is sealed, since more data remains, and then filled again. */
    method TakeSome(chunk: Bytes, offset: nat) returns (next: nat, ok: bool)
      requires Valid() && Holds() && (seq_ > 0 ==> n > 0) && offset < |chunk|
      modifies this, buf
      ensures ok ==> Valid() && Holds() && n > 0 && offset < next <= |chunk|
      ensures ok ==> written == old(written) + chunk[offset..next]
      ensures !ok ==> Overfull(|old(written)|)
    {
      hide Header, Lawful, FullRecords, Join;
      if n == MAX_PLAINTEXT {
        ok := FlushRecord(false);
        if !ok {
          return offset, false;
        }
      }
      var take := Fill(chunk, offset);
      return offset + take, true;
    }

    /** Every byte of a chunk is taken, unless more than 2^48 records would be needed. */
    method Transform(chunk: Bytes) returns (ok: bool)
      requires Valid() && Holds() && (seq_ > 0 ==> n > 0)
      modifies this, buf
      ensures ok ==> Valid() && Holds() && (seq_ > 0 ==> n > 0) && written == old(written) + chunk
      ensures !ok ==> NonFinalRecords(|old(written)| + |chunk|) > MAX_SEQUENCE
    {
      hide NonFinalRecords, Overfull, Lawful, FullRecords, Header, Join;
      var offset := 0;
      while offset < |chunk|
        invariant offset <= |chunk| && Valid() && Holds() && (seq_ > 0 ==> n > 0)
        invariant written == old(written) + chunk[..offset]
        decreases |chunk| - offset
      {
        ghost var before := |written|;
        var next, taken := TakeSome(chunk, offset);
        if !taken {
          OverfullRecords(before, |chunk| - offset);
          return false;
        }
        Extended(old(written), chunk, offset, next);
        offset := next;
      }
      assert chunk[..offset] == chunk;
      ok := true;
    }

    /** The end of the file: the last record, whatever is buffered. */
    method Flush() returns (ok: bool)
      requires Valid() && Holds() && (seq_ > 0 ==> n > 0)
      modifies this
      ensures ok ==> Join(enqueued) == Header(salt) + Body(derive(salt), old(written), 0)
      ensures ok <==> NonFinalRecords(|old(written)|) < MAX_SEQUENCE
    {
      hide Header, Lawful, FullRecords, NonFinalRecords, Join, Body;
      RecordsHeld(seq_, n);
      ok := FlushRecord(true);
    }
  }

  /** All records that may be sealed are, and the buffer is full again. */
  predicate Overfull(taken: nat) { taken >= MAX_SEQUENCE * MAX_PLAINTEXT + MAX_PLAINTEXT }

  lemma OverfullRecords(taken: nat, more: nat)
    requires Overfull(taken) && more > 0
    ensures NonFinalRecords(taken + more) > MAX_SEQUENCE
  {
    ManyRecords(MAX_SEQUENCE, taken + more);
  }

  lemma Extended(before: Bytes, chunk: Bytes, offset: nat, next: nat)
    requires offset <= next <= |chunk|
    ensures (before + chunk[..offset]) + chunk[offset..next] == before + chunk[..next]
  {
    assert chunk[..offset] + chunk[offset..next] == chunk[..next];
  }

  /** However the file is cut up, the pieces join to its encoding; only 2^48 records are too many. */
  method EncryptWeb(derive: Bytes -> Keys, salt: Bytes, chunks: seq<Bytes>) returns (pieces: Option<seq<Bytes>>)
    requires |salt| == SALT_SIZE && Lawful(derive(salt)) && |derive(salt).nonceBase| == 12
    ensures pieces.Some? <==> NonFinalRecords(|Join(chunks)|) < MAX_SEQUENCE
    ensures pieces.Some? ==> Join(pieces.value) == Header(salt) + Body(derive(salt), Join(chunks), 0)
  {
    var e := new WebEncryptor(derive, salt);
    JoinNothing(chunks);
    hide Header, Lawful, FullRecords, NonFinalRecords, Join, Body;
    for i := 0 to |chunks|
      invariant fresh(e) && fresh(e.buf) && e.derive == derive && e.salt == salt
      invariant e.Valid() && e.Holds() && (e.seq_ > 0 ==> e.n > 0) && e.written == Join(chunks[..i])
    {
      JoinNext(chunks, i);
      JoinPart(chunks, i + 1);
      MoreRecords(|Join(chunks[..i + 1])|, |Join(chunks)|);
      var ok := e.Transform(chunks[i]);
      if !ok {
        return None;
      }
    }
    assert chunks[..|chunks|] == chunks;
    var ok := e.Flush();
    pieces := if ok then Some(e.enqueued) else None;
  }
}
