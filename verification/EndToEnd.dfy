/**
 The whole path of a file: cut into pieces by the browser, encrypted, sent in chunks, encrypted again at
 rest in either store, finished, read back in pieces of any sizes, and decrypted by a recipient.
 */
module EndToEnd {
  import opened Bytes
  import opened ContentFraming
  import opened Multipart
  import opened Shred
  import ContentDecoding
  import ContentReaders
  import opened ChunkedUpload

  /** Reads a blob to its end, each read being asked for and granted at least a byte. */
  method Download(k: AtRest, blob: Bytes, sizes: nat -> nat) returns (outs: seq<Bytes>)
    requires Shred.Lawful(k) && |blob| < 0x8000_0000_0000_0000 && forall i :: sizes(i) > 0
    ensures Join(outs) == Combined(k, blob, 0)
  {
    var d := new DecryptingReader(k, blob);
    ghost var plain := Combined(k, blob, 0);
    assert plain[..0] == [];
    hide Shred.Lawful, Combined, Join;
    outs := [];
    JoinNone();
    while d.pos < |blob|
      invariant d.Valid() && fresh(d) && fresh(d.ctr) && d.k == k && d.blob == blob && d.pos <= |blob|
      invariant Join(outs) == plain[..d.pos]
      decreases |blob| - d.pos
    {
      ghost var at := d.pos;
      var out := d.Read(sizes(|outs|), sizes(|outs|));
      JoinLast(outs, out);
      assert out == plain[at..d.pos];
      assert plain[..at] + plain[at..d.pos] == plain[..d.pos];
      outs := outs + [out];
    }
    assert plain[..|blob|] == plain;
  }

  lemma JoinNone()
    ensures Join<byte>([]) == []
  {}

  /** What the server keeps of each request. */
  function KeptChunks(net: Network, sends: seq<Bytes>): (chunks: seq<Bytes>)
    ensures |chunks| == |sends|
  {
    if sends == [] then []
    else
      var n := |sends| - 1;
      KeptChunks(net, sends[..n]) + [Prefix(sends[n], net.takes(n))]
  }

  lemma {:induction false} KeptChunksJoin(net: Network, sends: seq<Bytes>)
    ensures Join(KeptChunks(net, sends)) == KeptOf(net, sends)
  {
    if sends != [] {
      var n := |sends| - 1;
      KeptChunksJoin(net, sends[..n]);
      JoinLast(KeptChunks(net, sends[..n]), Prefix(sends[n], net.takes(n)));
    }
  }

  /**
   If the browser reports an upload done, what a recipient downloads and decrypts is the file: however it was
   cut up, timed, stored in part, kept at rest and read back.
   */
  method Deliver(k: AtRest, st: Store, derive: Bytes -> Keys, salt: Bytes, pieces: seq<Bytes>, named: Option<int>,
                 net: Network, quotient: real, ends: nat -> Multipart.End, sizes: nat -> nat)
    returns (done: bool, file: Option<Bytes>)
    requires Shred.Lawful(k) && Honest(net) && Rounded(|Join(pieces)|, quotient) && forall i :: sizes(i) > 0
    requires ContentFraming.Lawful(derive(salt)) && |salt| == SALT_SIZE && forall s :: |derive(s).nonceBase| == 12
    requires Ready(st) && Held(st) == [] && !Begun(st)
    modifies Cells(st)
    ensures done ==> file == Some(Join(pieces))
    ensures Accepts(|Join(pieces)|, named) && Answers(net, |Header(salt) + Body(derive(salt), Join(pieces), 0)|) ==>
              (forall i: nat :: net.takes(i) >= SizingFor(named).cap) ==> done
  {
    hide Shred.Lawful, ContentFraming.Lawful, Rounded, Header, Body, Join, Honest, Answers, Held, Ready, Begun, KeptOf;
    var server := new Server();
    var sends;
    done, sends := UploadFile(server, derive, salt, pieces, named, net, quotient);
    file := None;
    if done {
      ghost var encoding := Header(salt) + Body(derive(salt), Join(pieces), 0);
      KeptChunksJoin(net, sends);
      NotNothing(salt, derive(salt), Join(pieces), net, sends);
      var blob := WriteAll(k, st, KeptChunks(net, sends), ends);
      CombinedTwice(k, encoding, 0);
      var outs := Download(k, blob.value, sizes);
      DoneIsReadable(derive, salt, Join(pieces));
      var plain, ok := ContentReaders.DecryptWeb(derive, outs);
      file := if ok then Some(plain) else None;
    }
  }

  /** An encoding is never empty, so something was sent. */
  lemma NotNothing(salt: Bytes, k: Keys, p: Bytes, net: Network, sends: seq<Bytes>)
    requires |salt| == SALT_SIZE && |k.nonceBase| == 12 && KeptOf(net, sends) == Header(salt) + Body(k, p, 0)
    ensures sends != []
  {
    assert |Header(salt)| == HEADER_SIZE;
  }

  lemma DoneIsReadable(derive: Bytes -> Keys, salt: Bytes, p: Bytes)
    requires |salt| == SALT_SIZE && (forall s :: |derive(s).nonceBase| == 12) && ContentFraming.Lawful(derive(salt))
    requires |p| < TWO_53
    ensures ContentDecoding.DecodeStream(derive, Header(salt) + Body(derive(salt), p, 0))
         == ContentDecoding.Outcome(p, true)
  {
    LengthDoesNotOverflow(|p|);
    ContentReaders.EncodingDecodes(derive, salt, p);
  }
}
