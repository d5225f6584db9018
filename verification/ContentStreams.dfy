/**
 The Go encryptor: a record sealer that owns the counter, and a writer that buffers up to one record.
 It is proved against the encoding of the whole plaintext, for every way of cutting the input up.
 */
module ContentStreams {
  import opened Bytes
  import opened ContentFraming

  /** Owns the record counter; every nonce it has issued is different from all others. */
  class RecordSealer {
    const keys: Keys
    var seq_: nat
    ghost var issued: set<Bytes>

    ghost predicate Valid()
      reads this
    {
      && Lawful(keys) && |keys.nonceBase| == 12 && seq_ <= MAX_SEQUENCE
      && (forall n :: n in issued <==> exists i: nat :: i < seq_ && n == RecordNonce(keys.nonceBase, i))
    }

    constructor (keys: Keys)
      requires Lawful(keys)
      ensures Valid() && this.keys == keys && seq_ == 0 && issued == {}
    {
      this.keys, seq_, issued := keys, 0, {};
    }

    method Seal(plaintext: Bytes) returns (r: Option<Bytes>)
      requires Valid()
      modifies this
      ensures Valid()
      ensures r.None? <==> old(seq_) == MAX_SEQUENCE
      ensures r.None? ==> seq_ == old(seq_) && issued == old(issued)
      ensures r.Some? ==>
        var nonce := RecordNonce(keys.nonceBase, old(seq_));
        && seq_ == old(seq_) + 1
        && nonce !in old(issued) && issued == old(issued) + {nonce}
        && r.value == keys.seal(nonce, plaintext)
    {
      if seq_ >= MAX_SEQUENCE {
        return None;
      }
      var current := seq_;
      seq_ := seq_ + 1;
      var nonce := RecordNonce(keys.nonceBase, current);
      forall i: nat | i < current && RecordNonce(keys.nonceBase, i) == nonce
        ensures false
      {
        NonceInjective(keys.nonceBase, i, current);
      }
      hide RecordNonce;
      issued := issued + {nonce};
      r := Some(keys.seal(nonce, plaintext));
    }
  }

  // ----- encryption

  /** The non-final records of a whole number of full chunks. */
  function FullRecords(k: Keys, p: Bytes, i: nat): Bytes
    requires |k.nonceBase| == 12 && |p| % MAX_PLAINTEXT == 0
    decreases |p|
  {
    if p == [] then [] else Record(k, i, p[..MAX_PLAINTEXT], false) + FullRecords(k, p[MAX_PLAINTEXT..], i + 1)
  }

  lemma {:induction false} FullRecordsNext(k: Keys, p: Bytes, chunk: Bytes, i: nat, n: nat)
    requires |k.nonceBase| == 12 && |p| == n * MAX_PLAINTEXT && |chunk| == MAX_PLAINTEXT
    ensures |p| % MAX_PLAINTEXT == 0 && |p + chunk| % MAX_PLAINTEXT == 0
    ensures FullRecords(k, p + chunk, i) == FullRecords(k, p, i) + Record(k, i + n, chunk, false)
    decreases n
  {
    hide Record;
    if n == 0 {
      assert p + chunk == chunk && chunk[..MAX_PLAINTEXT] == chunk && chunk[MAX_PLAINTEXT..] == [];
    } else {
      FullRecordsNext(k, p[MAX_PLAINTEXT..], chunk, i + 1, n - 1);
      assert (p + chunk)[..MAX_PLAINTEXT] == p[..MAX_PLAINTEXT];
      assert (p + chunk)[MAX_PLAINTEXT..] == p[MAX_PLAINTEXT..] + chunk;
    }
  }

  lemma {:induction false} FullRecordsThenFinal(k: Keys, p: Bytes, last: Bytes, i: nat, n: nat)
    requires |k.nonceBase| == 12 && |p| == n * MAX_PLAINTEXT && |last| <= MAX_PLAINTEXT && (n > 0 ==> last != [])
    ensures |p| % MAX_PLAINTEXT == 0
    ensures Body(k, p + last, i) == FullRecords(k, p, i) + Record(k, i + n, last, true)
    decreases n
  {
    hide Record;
    if n == 0 {
      assert p + last == last;
    } else {
      FullRecordsThenFinal(k, p[MAX_PLAINTEXT..], last, i + 1, n - 1);
      assert (p + last)[..MAX_PLAINTEXT] == p[..MAX_PLAINTEXT];
      assert (p + last)[MAX_PLAINTEXT..] == p[MAX_PLAINTEXT..] + last;
    }
  }

  class Encryptor {
    const salt: Bytes
    const sealer: RecordSealer
    const buf: array<byte>
    var n: nat
    var headerWritten: bool
    var closed: bool
    var failed: bool
    var out: Bytes

    /** Plaintext already sealed, and all plaintext accepted. */
    ghost var flushed: Bytes
    ghost var written: Bytes

    ghost predicate Valid()
      reads this, sealer
    {
      && sealer.Valid() && buf.Length == MAX_PLAINTEXT && n <= MAX_PLAINTEXT && |salt| == SALT_SIZE
      && (!closed && !failed ==> Open())
    }

    ghost predicate Open()
      requires sealer.Valid() && buf.Length == MAX_PLAINTEXT && n <= MAX_PLAINTEXT
      reads this, sealer
    {
      var k := sealer.keys;
      && |flushed| == sealer.seq_ * MAX_PLAINTEXT && |flushed| % MAX_PLAINTEXT == 0
      && (headerWritten <==> sealer.seq_ > 0) && (sealer.seq_ > 0 ==> n > 0)
      && out == (if headerWritten then Header(salt) else []) + FullRecords(k, flushed, 0)
    }

    /** What the buffer holds is what has been accepted and not sealed. */
    ghost predicate Holds()
      requires n <= buf.Length
      reads this, buf
    {
      written == flushed + buf[..n]
    }

    constructor (salt: Bytes, keys: Keys)
      requires |salt| == SALT_SIZE && Lawful(keys)
      ensures Valid() && Holds() && fresh(sealer) && fresh(buf) && sealer.keys == keys && this.salt == salt
      ensures !closed && !failed && written == [] && out == [] && sealer.seq_ == 0
    {
      this.salt := salt;
      sealer := new RecordSealer(keys);
      buf := new byte[MAX_PLAINTEXT](_ => 0);
      n, headerWritten, closed, failed, out := 0, false, false, false, [];
      flushed, written := [], [];
    }

    /** The header goes out with the first record. */
    method WriteHeader()
      requires Valid() && !failed && !closed
      modifies this`headerWritten, this`out
      ensures headerWritten && out == Header(salt) + FullRecords(sealer.keys, flushed, 0)
    {
      hide Header, Lawful, FullRecords;
      if !headerWritten {
        assert FullRecords(sealer.keys, flushed, 0) == [] by { NoRecords(sealer.keys, flushed); }
        out := out + Header(salt);
        headerWritten := true;
      }
    }

    /** Seals what is buffered as one record. */
    method Flush(final: bool) returns (ok: bool)
      requires Valid() && Holds() && !failed && !closed && (final || n == MAX_PLAINTEXT)
      modifies this`n, this`headerWritten, this`out, this`flushed, sealer
      ensures sealer.Valid() && ok == (old(sealer.seq_) < MAX_SEQUENCE)
      ensures ok ==> n == 0 && flushed == written && headerWritten && sealer.seq_ == old(sealer.seq_) + 1
      ensures !ok ==> n == old(n) && flushed == old(flushed) && sealer.seq_ == old(sealer.seq_)
      ensures ok && !final ==>
        && |flushed| == sealer.seq_ * MAX_PLAINTEXT && |flushed| % MAX_PLAINTEXT == 0
        && out == Header(salt) + FullRecords(sealer.keys, flushed, 0)
      ensures ok && final ==> out == Header(salt) + Body(sealer.keys, written, 0)
    {
      hide Header, Record, RecordNonce, Lawful, FullRecords, Body;
      ghost var k, p := sealer.keys, sealer.seq_;
      WriteHeader();
      var chunk := buf[..n];
      var record := sealer.Seal(chunk + [if final then FINAL else NON_FINAL]);
      if record.None? {
        return false;
      }
      RecordIs(k, p, chunk, final);
      if final {
        FullRecordsThenFinal(k, flushed, chunk, 0, p);
      } else {
        FullRecordsNext(k, flushed, chunk, 0, p);
      }
      out := out + record.value;
      flushed := flushed + chunk;
      n := 0;
      ok := true;
    }

    /** Copies as much of `rest` as fits behind what is held. */
    method Fill(rest: Bytes) returns (k: nat)
      requires buf.Length == MAX_PLAINTEXT && n < MAX_PLAINTEXT && Holds() && |rest| > 0
      modifies this`n, this`written, buf
      ensures 0 < k <= |rest| && n == old(n) + k <= MAX_PLAINTEXT
      ensures Holds() && written == old(written) + rest[..k]
    {
      k := if MAX_PLAINTEXT - n < |rest| then MAX_PLAINTEXT - n else |rest|;
      ghost var held := buf[..n];
      forall i | 0 <= i < k { buf[n + i] := rest[i]; }
      assert buf[..n + k] == held + rest[..k];
      written := written + rest[..k];
      n := n + k;
    }

    /** Every byte of `p` is accepted, unless more than 2^48 records would be needed. */
    method Write(p: Bytes) returns (count: nat, ok: bool)
      requires Valid() && (!failed && !closed ==> Holds())
      modifies this`n, this`headerWritten, this`out, this`flushed, this`written, this`failed, buf, sealer
      ensures Valid() && (!failed && !closed ==> Holds())
      ensures ok ==> !failed && !closed && count == |p| && written == old(written) + p
      ensures !ok && !old(failed) && !closed ==> failed && NonFinalRecords(|old(written)| + |p|) > MAX_SEQUENCE
    {
      hide Header, Lawful, FullRecords, NonFinalRecords;
      if failed || closed {
        return 0, false;
      }
      var rest := p;
      count := 0;
      while |rest| > 0
        invariant Valid() && Holds() && !failed && !closed
        invariant count + |rest| == |p| && rest == p[count..] && written == old(written) + p[..count]
        decreases |rest|
      {
        if n == MAX_PLAINTEXT {
          ManyRecords(sealer.seq_, |old(written)| + |p|);
          var flushedOk := Flush(false);
          if !flushedOk {
            failed := true;
            return count, false;
          }
        }
        var k := Fill(rest);
        assert p[..count] + rest[..k] == p[..count + k];
        rest := rest[k..];
        count := count + k;
      }
      assert p[..count] == p;
      ok := true;
    }

    /** The output is then the encoding of everything written. */
    method Close() returns (ok: bool)
      requires Valid() && (!failed && !closed ==> Holds())
      modifies this`n, this`headerWritten, this`out, this`flushed, this`closed, this`failed, sealer
      ensures Valid() && closed == (old(closed) || !old(failed))
      ensures ok && !old(closed) ==> out == Header(salt) + Body(sealer.keys, written, 0)
      ensures !ok <==> failed
      ensures !old(failed) && !old(closed) ==> (failed <==> NonFinalRecords(|written|) >= MAX_SEQUENCE)
    {
      hide Header, Lawful, FullRecords, Body, NonFinalRecords;
      if failed {
        return false;
      }
      if closed {
        return true;
      }
      RecordsHeld(sealer.seq_, n);
      ok := Flush(true);
      closed := true;
      if !ok {
        failed := true;
      }
    }
  }

  lemma NoRecords(k: Keys, p: Bytes)
    requires |k.nonceBase| == 12 && p == []
    ensures FullRecords(k, p, 0) == []
  {}

  /** With f records sealed and a non-empty rest, f is the number of non-final records. */
  lemma RecordsHeld(f: nat, n: nat)
    requires n <= MAX_PLAINTEXT && (f > 0 ==> n > 0)
    ensures NonFinalRecords(f * MAX_PLAINTEXT + n) == f
  {}

  lemma ManyRecords(f: nat, total: nat)
    ensures total > f * MAX_PLAINTEXT + MAX_PLAINTEXT ==> NonFinalRecords(total) > f
  {}

  lemma RecordIs(k: Keys, i: nat, chunk: Bytes, final: bool)
    requires |k.nonceBase| == 12
    ensures Record(k, i, chunk, final)
         == k.seal(RecordNonce(k.nonceBase, i), chunk + [if final then FINAL else NON_FINAL])
  {}

  /** However the plaintext is cut into writes, the output is its encoding; only 2^48 records are too many. */
  method EncryptAll(salt: Bytes, keys: Keys, writes: seq<Bytes>) returns (out: Option<Bytes>)
    requires |salt| == SALT_SIZE && Lawful(keys) && |keys.nonceBase| == 12
    ensures out.Some? ==> out.value == Header(salt) + Body(keys, Join(writes), 0)
    ensures out.Some? <==> NonFinalRecords(|Join(writes)|) < MAX_SEQUENCE
  {
    hide Lawful, Header, Body, NonFinalRecords, Join;
    var e := new Encryptor(salt, keys);
    assert Join(writes[..0]) == [] by { JoinNothing(writes); }
    for i := 0 to |writes|
      invariant e.Valid() && e.Holds() && !e.closed && !e.failed && e.written == Join(writes[..i])
      invariant e.sealer.keys == keys && e.salt == salt
      invariant fresh(e) && fresh(e.sealer) && fresh(e.buf)
    {
      JoinNext(writes, i);
      JoinPart(writes, i + 1);
      MoreRecords(|Join(writes[..i + 1])|, |Join(writes)|);
      var count, ok := e.Write(writes[i]);
      if !ok {
        return None;
      }
    }
    assert writes[..|writes|] == writes;
    var ok := e.Close();
    out := if ok then Some(e.out) else None;
  }

  lemma MoreRecords(a: nat, b: nat)
    requires a <= b
    ensures NonFinalRecords(a) <= NonFinalRecords(b)
  {}
}
