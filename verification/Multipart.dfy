/**
 A partial upload kept in an object store as full parts and a tail object, read back on every
 request. It refines the plain appended file of the filesystem store.
 */
module Multipart {
  import opened Bytes

  const PART_SIZE: nat := 5 * 1024 * 1024
  const PAGE: nat := 1000

  /** How a request body ends: orderly, cut short (an unexpected end of file), or with another error. */
  datatype End = Orderly | CutShort | Broken

  /** What a request body delivers before it ends. */
  datatype Source = Source(bytes: Bytes, end: End)

  datatype Error = BadOffset | NegativeOffset | SourceFailed | MissingPart | NotFound

  datatype Reply = Reply(n: nat, error: Option<Error>)

  // ----- the simple form

  /** Appending to a file: a chunk must start where the stored bytes end, and what arrives is kept. */
  function AppendReply(contents: Bytes, offset: int, src: Source): Reply {
    if offset != |contents| then Reply(0, Some(BadOffset))
    else Reply(|src.bytes|, if src.end.Orderly? then None else Some(SourceFailed))
  }

  /** The object store takes a body cut short for one that ended, which the file does not. */
  function PartReply(contents: Bytes, offset: int, src: Source): Reply {
    if offset == |contents| && src.end.CutShort? then Reply(|src.bytes|, None) else AppendReply(contents, offset, src)
  }

  function Appended(contents: Bytes, offset: int, src: Source): Bytes {
    if offset != |contents| then contents else contents + src.bytes
  }

  /** The filesystem spool: opening a chunk creates the file, even when the chunk is then refused. */
  class Spool {
    var file: Option<Bytes>
    var blob: Option<Bytes>

    ghost function Contents(): Bytes
      reads this
    {
      if file.Some? then file.value else []
    }

    constructor ()
      ensures file.None? && blob.None?
    {
      file, blob := None, None;
    }

    method WriteChunk(offset: int, src: Source) returns (r: Reply)
      modifies this
      ensures Contents() == Appended(old(Contents()), offset, src) && r == AppendReply(old(Contents()), offset, src)
      ensures file.Some? && blob == old(blob)
    {
      if file.None? {
        file := Some([]);
      }
      if |file.value| != offset {
        return Reply(0, Some(BadOffset));
      }
      var n := |src.bytes|;
      file := Some(file.value + src.bytes);
      r := Reply(n, if src.end.Orderly? then None else Some(SourceFailed));
    }

    method Finish() returns (e: Option<Error>)
      modifies this
      ensures e == (if old(file).None? then Some(NotFound) else None)
      ensures e.None? ==> blob == Some(old(Contents())) && file.None?
      ensures e.Some? ==> blob == old(blob) && file.None?
    {
      if file.None? {
        return Some(NotFound);
      }
      blob := file;
      file := None;
      e := None;
    }
  }

  // ----- the object store

  datatype Part = Part(number: nat, data: Bytes)

  predicate Numbered(parts: seq<Part>) {
    forall i :: 0 <= i < |parts| ==> parts[i].number == i + 1
  }

  predicate Ascending(parts: seq<Part>) {
    forall i, j :: 0 <= i < j < |parts| ==> parts[i].number < parts[j].number
  }

  predicate Full(parts: seq<Part>) {
    forall i :: 0 <= i < |parts| ==> |parts[i].data| == PART_SIZE
  }

  function PartBytes(parts: seq<Part>): Bytes {
    if parts == [] then [] else PartBytes(parts[..|parts| - 1]) + parts[|parts| - 1].data
  }

  /** The parts after a part has been put: a part of the same number is replaced. */
  function WithPart(parts: seq<Part>, p: Part): seq<Part> {
    if parts == [] then [p]
    else
      var last := parts[|parts| - 1];
      if last.number < p.number then parts + [p]
      else if last.number == p.number then parts[..|parts| - 1] + [p]
      else WithPart(parts[..|parts| - 1], p) + [last]
  }

  /** The objects the service holds for one key: an upload in progress, the tail, and the finished object. */
  class Bucket {
    var upload: Option<seq<Part>>
    var tail: Option<Bytes>
    var object_: Option<Bytes>

    constructor ()
      ensures upload.None? && tail.None? && object_.None?
    {
      upload, tail, object_ := None, None, None;
    }

    /** One page of a listing: the parts above a number, at most PAGE of them. */
    method ListParts(marker: nat) returns (page: seq<Part>, truncated: bool, next: nat)
      requires upload.Some?
      ensures var parts := upload.value;
              var from := UpTo(parts, marker);
              && from + |page| <= |parts| && page == parts[from..from + |page|] && |page| <= PAGE
              && truncated == (from + |page| < |parts|)
              && (truncated ==> |page| == PAGE && next == page[PAGE - 1].number)
    {
      var parts := upload.value;
      var from := 0;
      while from < |parts| && parts[from].number <= marker
        invariant from <= |parts| && UpTo(parts, marker) == from + UpTo(parts[from..], marker)
      {
        assert parts[from..][1..] == parts[from + 1..];
        from := from + 1;
      }
      var size := if |parts| - from < PAGE then |parts| - from else PAGE;
      page := parts[from..from + size];
      truncated := from + size < |parts|;
      next := if size > 0 then page[size - 1].number else marker;
    }
  }

  /** How many parts at the front of a listing are numbered up to a marker. */
  function UpTo(parts: seq<Part>, marker: nat): (n: nat)
    ensures n <= |parts|
  {
    if parts == [] || parts[0].number > marker then 0 else 1 + UpTo(parts[1..], marker)
  }

  lemma {:induction false} UpToAll(parts: seq<Part>, n: nat)
    requires Ascending(parts) && 0 < n <= |parts|
    ensures UpTo(parts, parts[n - 1].number) == n
  {
    if n == 1 {
      assert parts[1..] == [] || parts[1..][0] == parts[1];
    } else {
      UpToAll(parts[1..], n - 1);
    }
  }

  // ----- the partial upload

  class S3 {
    const bucket: Bucket

    /** Parts 1..N of full size, a shorter tail that is absent when empty, and no tail without an upload. */
    ghost predicate Valid()
      reads this, bucket
    {
      && (bucket.upload.Some? ==> Numbered(bucket.upload.value) && Full(bucket.upload.value))
      && (bucket.tail.Some? ==> bucket.upload.Some? && 0 < |bucket.tail.value| < PART_SIZE)
    }

    ghost function Contents(): Bytes
      reads this, bucket
    {
      (if bucket.upload.Some? then PartBytes(bucket.upload.value) else [])
      + (if bucket.tail.Some? then bucket.tail.value else [])
    }

    constructor ()
      ensures Valid() && fresh(bucket) && Contents() == [] && bucket.upload.None? && bucket.object_.None?
    {
      bucket := new Bucket();
    }

    /** Reads the listing page by page. */
    method ListAll() returns (parts: seq<Part>)
      requires bucket.upload.Some? && Ascending(bucket.upload.value)
      requires bucket.upload.value != [] ==> bucket.upload.value[0].number > 0
      ensures parts == bucket.upload.value
    {
      hide UpTo;
      ghost var all := bucket.upload.value;
      parts := [];
      var marker, more := 0, true;
      assert UpTo(all, 0) == 0 by { StartOfListing(all); }
      while more
        invariant |parts| <= |all| && parts == all[..|parts|]
        invariant if more then UpTo(all, marker) == |parts| && (|parts| < |all| || all == []) else parts == all
        decreases more, |all| - |parts|
      {
        var page, truncated, next := bucket.ListParts(marker);
        parts := parts + page;
        marker := next;
        more := truncated;
        if more { UpToAll(all, |parts|); }
      }
    }

    /** What is stored; a gap in the numbering is an error. */
    method State() returns (parts: seq<Part>, stored: nat, tail: nat, e: Option<Error>)
      requires bucket.upload.Some? && Ascending(bucket.upload.value)
      requires bucket.upload.value != [] ==> bucket.upload.value[0].number > 0
      ensures e == if Numbered(bucket.upload.value) then None else Some(MissingPart)
      ensures e.None? ==> parts == bucket.upload.value && stored == |PartBytes(parts)|
      ensures e.None? ==> tail == if bucket.tail.Some? then |bucket.tail.value| else 0
    {
      parts := ListAll();
      stored, tail, e := 0, 0, None;
      for i := 0 to |parts|
        invariant stored == |PartBytes(parts[..i])| && forall j :: 0 <= j < i ==> parts[j].number == j + 1
      {
        if parts[i].number != i + 1 {
          return parts, stored, tail, Some(MissingPart);
        }
        assert parts[..i + 1][..i] == parts[..i];
        stored := stored + |parts[i].data|;
      }
      assert parts[..|parts|] == parts;
      if bucket.tail.Some? {
        tail := |bucket.tail.value|;
      }
    }

    /** Replaces the tail object, removing it when empty. */
    method PutTail(b: Bytes)
      modifies bucket`tail
      ensures bucket.tail == if b == [] then None else Some(b)
    {
      bucket.tail := if |b| == 0 then None else Some(b);
    }

    /** What is stored, nothing being there before the first chunk. */
    method Current() returns (parts: seq<Part>, stored: nat, tail: nat)
      requires Valid()
      ensures parts == (if bucket.upload.Some? then bucket.upload.value else []) && Numbered(parts) && Full(parts)
      ensures stored == |PartBytes(parts)| && tail == if bucket.tail.Some? then |bucket.tail.value| else 0
      ensures Contents() == PartBytes(parts) + if bucket.tail.Some? then bucket.tail.value else []
    {
      parts, stored, tail := [], 0, 0;
      if bucket.upload.Some? {
        NumberedAscends(bucket.upload.value);
        hide PartBytes, Full, Numbered, Ascending;
        var e;
        parts, stored, tail, e := State();
      }
    }

    /** Behaves as an appended file. */
    method WriteChunk(offset: int, src: Source) returns (r: Reply)
      requires Valid()
      modifies bucket`upload, bucket`tail
      ensures Valid()
      ensures Contents() == Appended(old(Contents()), offset, src) && r == PartReply(old(Contents()), offset, src)
      ensures offset == |old(Contents())| ==> bucket.upload.Some?
      ensures offset != |old(Contents())| ==> bucket.upload == old(bucket.upload) && bucket.tail == old(bucket.tail)
    {
      var parts, stored, tail := Current();
      hide PartBytes, Full, Numbered;
      if offset != stored + tail {
        return Reply(0, Some(BadOffset));
      }
      if bucket.upload.None? {
        bucket.upload := Some([]);
      }
      var head := if tail > 0 then bucket.tail.value else [];
      r := Fill(parts, head, src);
    }

    /** Fills parts from the tail and the source; what is left becomes the new tail. */
    method Fill(parts: seq<Part>, head: Bytes, src: Source) returns (r: Reply)
      requires bucket.upload == Some(parts) && Numbered(parts) && Full(parts)
      modifies bucket`upload, bucket`tail
      ensures Valid() && bucket.upload.Some? && Contents() == PartBytes(parts) + head + src.bytes
      ensures r == Reply(|src.bytes|, if src.end.Broken? then Some(SourceFailed) else None)
    {
      hide WithPart;
      var next, read := |parts| + 1, 0;
      var source := head + src.bytes;
      ghost var whole := source;
      while |source| >= PART_SIZE
        invariant bucket.upload.Some? && Numbered(bucket.upload.value) && Full(bucket.upload.value)
        invariant |bucket.upload.value| == next - 1 && read + |source| == |whole|
        invariant PartBytes(bucket.upload.value) + source == PartBytes(parts) + whole
        decreases |source|
      {
        var buf := source[..PART_SIZE];
        ghost var before := bucket.upload.value;
        AppendPart(before, Part(next, buf));
        bucket.upload := Some(WithPart(bucket.upload.value, Part(next, buf)));
        assert source == buf + source[PART_SIZE..];
        source := source[PART_SIZE..];
        read := read + PART_SIZE;
        next := next + 1;
      }
      read := read + |source|;
      PutTail(source);
      assert PartBytes(parts) + whole == PartBytes(parts) + head + src.bytes;
      r := Reply(read - |head|, if src.end.Broken? then Some(SourceFailed) else None);
    }

    /** The tail becomes the last part, and the object is the parts in order. */
    method Finish() returns (e: Option<Error>)
      requires Valid()
      modifies bucket
      ensures Valid() && bucket.upload.None? && Contents() == []
      ensures e == if old(bucket.upload).None? then Some(NotFound) else None
      ensures bucket.object_ == if e.None? then Some(old(Contents())) else old(bucket.object_)
    {
      if bucket.upload.None? {
        return Some(NotFound);
      }
      var parts, stored, tail, gap := State();
      assert bucket.tail.Some? <==> tail > 0;
      if stored == 0 && tail == 0 {
        bucket.upload := None;
        bucket.object_ := Some([]);
        return None;
      }
      if tail > 0 {
        AppendPart(parts, Part(|parts| + 1, bucket.tail.value));
        bucket.upload := Some(WithPart(parts, Part(|parts| + 1, bucket.tail.value)));
      }
      assert PartBytes(bucket.upload.value) == old(Contents());
      bucket.object_ := Some(PartBytes(bucket.upload.value));
      bucket.upload := None;
      PutTail([]);
      e := None;
    }

    /** Nothing of an upload remains. */
    method Delete()
      modifies bucket
      ensures Valid() && bucket.upload.None? && bucket.tail.None? && bucket.object_.None?
    {
      bucket.object_ := None;
      bucket.upload := None;
      bucket.tail := None;
    }
  }

  lemma NumberedAscends(parts: seq<Part>)
    requires Numbered(parts)
    ensures Ascending(parts) && (parts != [] ==> parts[0].number > 0)
  {}

  lemma StartOfListing(parts: seq<Part>)
    requires parts != [] ==> parts[0].number > 0
    ensures UpTo(parts, 0) == 0
  {}

  lemma AppendPart(parts: seq<Part>, p: Part)
    requires Numbered(parts) && p.number == |parts| + 1
    ensures WithPart(parts, p) == parts + [p] && Numbered(parts + [p])
    ensures PartBytes(parts + [p]) == PartBytes(parts) + p.data
  {}

  // ----- either store

  /** What the service is configured with. */
  datatype Store = Files(spool: Spool) | Objects(s3: S3)

  function Cells(st: Store): set<object> {
    match st
    case Files(spool) => {spool}
    case Objects(s3) => {s3, s3.bucket}
  }

  ghost predicate Ready(st: Store)
    reads Cells(st)
  {
    st.Objects? ==> st.s3.Valid()
  }

  /** The bytes of the partial upload, and whether there is one. */
  ghost function Held(st: Store): Bytes
    reads Cells(st)
  {
    if st.Files? then st.spool.Contents() else st.s3.Contents()
  }

  predicate Begun(st: Store)
    reads Cells(st)
  {
    if st.Files? then st.spool.file.Some? else st.s3.bucket.upload.Some?
  }

  function StoreReply(st: Store, contents: Bytes, offset: int, src: Source): Reply {
    if st.Files? then AppendReply(contents, offset, src) else PartReply(contents, offset, src)
  }

  method StoreChunk(st: Store, offset: int, src: Source) returns (r: Reply)
    requires Ready(st)
    modifies Cells(st)
    ensures Ready(st) && Held(st) == Appended(old(Held(st)), offset, src)
    ensures r == StoreReply(st, old(Held(st)), offset, src) && (offset == |old(Held(st))| ==> Begun(st))
  {
    match st
    case Files(spool) => r := spool.WriteChunk(offset, src);
    case Objects(s3) => r := s3.WriteChunk(offset, src);
  }

  method StoreFinish(st: Store) returns (blob: Option<Bytes>)
    requires Ready(st)
    modifies Cells(st)
    ensures Ready(st) && blob == if old(Begun(st)) then Some(old(Held(st))) else None
  {
    match st
    case Files(spool) =>
      var e := spool.Finish();
      blob := if e.None? then spool.blob else None;
    case Objects(s3) =>
      var e := s3.Finish();
      blob := if e.None? then s3.bucket.object_ else None;
  }

  // ----- runs

  datatype Call = Call(offset: int, src: Source)

  /** The bytes the simple form holds after a run. */
  function Final(calls: seq<Call>): Bytes {
    if calls == [] then []
    else
      var n := |calls| - 1;
      Appended(Final(calls[..n]), calls[n].offset, calls[n].src)
  }

  /** Whether call i of a run starts where the bytes stored by the calls before it end. */
  predicate Continues(calls: seq<Call>, i: nat)
    requires i < |calls|
  {
    calls[i].offset == |Final(calls[..i])|
  }

  /** Whether one of the first n calls of a run continues. */
  ghost predicate Started(calls: seq<Call>, n: nat)
    requires n <= |calls|
  {
    exists i :: 0 <= i < n && Continues(calls, i)
  }

  lemma StartedStep(calls: seq<Call>, n: nat)
    requires n < |calls|
    ensures Started(calls, n + 1) <==> Started(calls, n) || Continues(calls, n)
  {}

  /** The bytes of the calls that continue, in order. */
  function Accepted(calls: seq<Call>): Bytes {
    if calls == [] then []
    else
      var n := |calls| - 1;
      Accepted(calls[..n]) + if Continues(calls, n) then calls[n].src.bytes else []
  }

  lemma {:induction false} FinalIsAccepted(calls: seq<Call>)
    ensures Final(calls) == Accepted(calls)
  {
    if calls != [] {
      FinalIsAccepted(calls[..|calls| - 1]);
    }
  }

  lemma FinalStep(calls: seq<Call>, i: nat)
    requires i < |calls|
    ensures Final(calls[..i + 1]) == Appended(Final(calls[..i]), calls[i].offset, calls[i].src)
  {
    assert calls[..i + 1][..i] == calls[..i];
  }

  /** What the object store must reply to call i, and what the file must. */
  function PartReplyTo(calls: seq<Call>, i: nat): Reply
    requires i < |calls|
  {
    PartReply(Final(calls[..i]), calls[i].offset, calls[i].src)
  }

  function FileReplyTo(calls: seq<Call>, i: nat): Reply
    requires i < |calls|
  {
    AppendReply(Final(calls[..i]), calls[i].offset, calls[i].src)
  }

  /** The two stores reply alike except to a body that is cut short, which only the file calls an error. */
  lemma RepliesAgreeExactly(calls: seq<Call>, i: nat)
    requires i < |calls|
    ensures PartReplyTo(calls, i) == FileReplyTo(calls, i) <==> !(Continues(calls, i) && calls[i].src.end.CutShort?)
    ensures PartReplyTo(calls, i).n == FileReplyTo(calls, i).n
  {}

  /** What finishing a run leaves in the object store, and what in the filesystem. */
  ghost function PartBlob(calls: seq<Call>): Option<Bytes> {
    if Started(calls, |calls|) then Some(Accepted(calls)) else None
  }

  function FileBlob(calls: seq<Call>): Option<Bytes> {
    if calls == [] then None else Some(Accepted(calls))
  }

  /** The blobs differ only when every chunk was refused: the file was created empty, the upload never started. */
  lemma {:induction false} BlobsAgreeExactly(calls: seq<Call>)
    ensures PartBlob(calls) == FileBlob(calls) <==> calls == [] || Started(calls, |calls|)
    ensures calls != [] && !Started(calls, |calls|) ==> PartBlob(calls) == None && FileBlob(calls) == Some([])
  {
    if calls != [] && !Started(calls, |calls|) {
      NothingAccepted(calls, |calls|);
      assert calls[..|calls|] == calls;
    }
  }

  lemma {:induction false} NothingAccepted(calls: seq<Call>, n: nat)
    requires n <= |calls| && !Started(calls, n)
    ensures Accepted(calls[..n]) == []
  {
    if n > 0 {
      NothingAccepted(calls, n - 1);
      assert calls[..n][..n - 1] == calls[..n - 1];
      assert !Continues(calls, n - 1);
    }
  }

  /** The bucket of a run that has come to call i. */
  ghost predicate At(s: S3, calls: seq<Call>, i: nat)
    requires i <= |calls|
    reads s, s.bucket
  {
    s.Valid() && s.Contents() == Final(calls[..i]) && (s.bucket.upload.Some? <==> Started(calls, i))
  }

  method NextWrite(s: S3, calls: seq<Call>, i: nat) returns (r: Reply)
    requires i < |calls| && At(s, calls, i)
    modifies s.bucket`upload, s.bucket`tail
    ensures At(s, calls, i + 1) && r == PartReplyTo(calls, i)
  {
    hide Final, Appended, Started, PartReply, Numbered, Full, PartBytes;
    FinalStep(calls, i);
    StartedStep(calls, i);
    r := s.WriteChunk(calls[i].offset, calls[i].src);
  }

  /** Every run of the object store replies as the appended file would, and finishing gives its bytes. */
  method RunS3(calls: seq<Call>) returns (replies: seq<Reply>, blob: Option<Bytes>)
    ensures |replies| == |calls|
    ensures forall i :: 0 <= i < |calls| ==> replies[i] == PartReplyTo(calls, i)
    ensures blob == PartBlob(calls)
  {
    var s := new S3();
    replies := [];
    assert At(s, calls, 0);
    hide At, PartReplyTo, Final, Started, Accepted;
    for i := 0 to |calls|
      invariant fresh(s) && fresh(s.bucket) && s.bucket.object_.None? && At(s, calls, i) && |replies| == i
      invariant forall j :: 0 <= j < i ==> replies[j] == PartReplyTo(calls, j)
    {
      var r := NextWrite(s, calls, i);
      replies := replies + [r];
    }
    blob := FinishRun(s, calls);
  }

  method FinishRun(s: S3, calls: seq<Call>) returns (blob: Option<Bytes>)
    requires At(s, calls, |calls|)
    modifies s.bucket
    ensures blob == PartBlob(calls)
  {
    hide Started, Numbered, Full, PartBytes;
    assert calls[..|calls|] == calls;
    FinalIsAccepted(calls);
    var e := s.Finish();
    blob := if e.None? then s.bucket.object_ else None;
  }

  method RunSpool(calls: seq<Call>) returns (replies: seq<Reply>, blob: Option<Bytes>)
    ensures |replies| == |calls|
    ensures forall i :: 0 <= i < |calls| ==> replies[i] == FileReplyTo(calls, i)
    ensures blob == FileBlob(calls)
  {
    var s := new Spool();
    replies := [];
    for i := 0 to |calls|
      invariant fresh(s) && |replies| == i && s.blob.None? && (s.file.None? <==> i == 0)
      invariant forall j :: 0 <= j < i ==> replies[j] == FileReplyTo(calls, j)
      invariant s.Contents() == Final(calls[..i])
    {
      FinalStep(calls, i);
      var r := s.WriteChunk(calls[i].offset, calls[i].src);
      replies := replies + [r];
    }
    assert calls[..|calls|] == calls;
    FinalIsAccepted(calls);
    var e := s.Finish();
    blob := if e.None? then s.blob else None;
  }
}
