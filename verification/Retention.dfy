/**
 When an upload may be downloaded, and when the reaper takes it: predicates over an upload as read
 from its row, the query over the row's columns, the accounting of served bytes, and the sweep.
 */
module Retention {
  import opened Bytes

  /** Instants in nanoseconds after the zero instant of the clock, which also stands for "never". */
  type Time = int

  const SECOND: int := 1_000_000_000

  /** Seconds from the zero instant to the epoch that columns count from. */
  const EPOCH: int := 62_135_596_800

  function Unix(t: Time): int { t / SECOND - EPOCH }

  function FromUnix(u: int): Time { (u + EPOCH) * SECOND }

  datatype Upload = Upload(size: nat, created: Time, expires: Time, maxDownloads: nat, downloads: nat, served: nat,
      completed: Time)

  predicate Expired(u: Upload, now: Time) { u.expires != 0 && now >= u.expires }

  predicate Exhausted(u: Upload) { u.maxDownloads > 0 && u.downloads >= u.maxDownloads }

  predicate IsComplete(u: Upload) { u.completed != 0 }

  predicate Live(u: Upload, now: Time) { IsComplete(u) && !Expired(u, now) && !Exhausted(u) }

  /** The columns of a stored upload. */
  datatype Row = Row(size: nat, createdAt: int, expiresAt: Option<int>, maxDownloads: nat, downloadCount: nat,
      bytesServed: nat, completedAt: Option<int>)

  function NullableUnix(t: Time): Option<int> { if t == 0 then None else Some(Unix(t)) }

  function FromNullable(c: Option<int>): Time { if c.None? then 0 else FromUnix(c.value) }

  function Insert(u: Upload): Row {
    Row(u.size, Unix(u.created), NullableUnix(u.expires), u.maxDownloads, u.downloads, u.served,
        NullableUnix(u.completed))
  }

  function Scan(r: Row): Upload {
    Upload(r.size, FromUnix(r.createdAt), FromNullable(r.expiresAt), r.maxDownloads, r.downloadCount, r.bytesServed,
        FromNullable(r.completedAt))
  }

  /** Storing drops fractions of a second, so a stored upload dies no later than asked and less than a second early. */
  lemma StoredLifetime(u: Upload, now: Time)
    requires Unix(u.expires) != -EPOCH || u.expires == 0
    ensures Expired(u, now) ==> Expired(Scan(Insert(u)), now)
    ensures Expired(Scan(Insert(u)), now) ==> Expired(u, now + SECOND - 1)
  {}

  /** A column holding the second of the zero instant reads back as "never". */
  predicate Ambiguous(c: Option<int>) { c == Some(-EPOCH) }

  /** An instant as its column gives it back: at the start of its second. */
  ghost predicate SecondOf(t: Time, u: Time) {
    u <= t < u + SECOND && u % SECOND == 0
  }

  /** What is stored of an upload is all of it, with instants at the start of their seconds and "never" as it was. */
  lemma StoredUpload(u: Upload)
    ensures var back := Scan(Insert(u));
            && back.size == u.size && back.maxDownloads == u.maxDownloads && back.downloads == u.downloads
            && back.served == u.served
            && SecondOf(u.created, back.created) && SecondOf(u.expires, back.expires)
            && SecondOf(u.completed, back.completed)
  {}

  /** A row read and written back is unchanged, unless a column holds the second that reads as "never". */
  lemma RowRoundTrip(r: Row)
    ensures Insert(Scan(r)) == r <==> !Ambiguous(r.expiresAt) && !Ambiguous(r.completedAt)
  {}

  // ----- the reaper's query

  predicate SelectedDead(r: Row, now: int, abandoned: int) {
    || (r.completedAt.Some? && r.expiresAt.Some? && r.expiresAt.value <= now)
    || (r.completedAt.Some? && r.maxDownloads > 0 && r.downloadCount >= r.maxDownloads)
    || (r.completedAt.None? && r.createdAt <= abandoned)
  }

  /** Whether the reaper lists a row at an instant: both instants are cut to seconds. */
  predicate Listed(r: Row, now: Time, abandoned: Time) {
    SelectedDead(r, Unix(now), Unix(abandoned))
  }

  /** A complete row is listed exactly when it is not live; an incomplete one is never live. */
  lemma ReaperAgreesWithExpiry(r: Row, now: Time, abandoned: Time)
    requires !Ambiguous(r.expiresAt) && !Ambiguous(r.completedAt)
    ensures r.completedAt.Some? ==> (Listed(r, now, abandoned) <==> !Live(Scan(r), now))
    ensures Listed(r, now, abandoned) ==> !Live(Scan(r), now)
  {}

  /** With such a column, exactly these complete rows are judged differently. */
  lemma ReaperDisagreesExactly(r: Row, now: Time, abandoned: Time)
    requires r.completedAt.Some?
    ensures var limit := r.maxDownloads > 0 && r.downloadCount >= r.maxDownloads;
            var past := r.expiresAt.Some? && r.expiresAt.value <= Unix(now);
            (Listed(r, now, abandoned) <==> !Live(Scan(r), now))
            <==> (limit || if Ambiguous(r.completedAt) then past else !(past && Ambiguous(r.expiresAt)))
  {}

  /** An incomplete row is listed exactly from the abandonment deadline on, whatever its limits. */
  lemma AbandonedExactly(r: Row, now: Time, abandoned: Time)
    requires r.completedAt.None?
    ensures Listed(r, now, abandoned) <==> FromUnix(r.createdAt) <= abandoned
  {}

  // ----- what happens to a row

  datatype Event = Served(n: nat) | Completed(at: Time)

  function Apply(r: Row, e: Event): Row {
    match e
    case Served(n) =>
      r.(bytesServed := r.bytesServed + n,
         downloadCount := if r.size > 0 then (r.bytesServed + n) / r.size else r.downloadCount)
    case Completed(at) => if r.completedAt.None? then r.(completedAt := Some(Unix(at))) else r
  }

  function ApplyAll(r: Row, events: seq<Event>): Row
    decreases |events|
  {
    if events == [] then r else ApplyAll(Apply(r, events[0]), events[1..])
  }

  function TotalServed(events: seq<Event>): nat {
    if events == [] then 0 else (if events[0].Served? then events[0].n else 0) + TotalServed(events[1..])
  }

  /** The count is the number of whole files served. */
  predicate Counted(r: Row) { r.size > 0 ==> r.downloadCount == r.bytesServed / r.size }

  /** However the bytes are split and interleaved, only their total matters. */
  lemma {:induction false} CountIsWholeFiles(r: Row, events: seq<Event>)
    requires Counted(r)
    ensures var s := ApplyAll(r, events);
            && Counted(s) && s.size == r.size && s.bytesServed == r.bytesServed + TotalServed(events)
            && s.maxDownloads == r.maxDownloads && s.expiresAt == r.expiresAt && s.createdAt == r.createdAt
            && (r.size == 0 ==> s.downloadCount == r.downloadCount)
            && (r.completedAt.Some? ==> s.completedAt == r.completedAt)
            && (s.completedAt != r.completedAt ==> exists i :: 0 <= i < |events| && events[i].Completed?)
    decreases |events|
  {
    if events != [] {
      CountIsWholeFiles(Apply(r, events[0]), events[1..]);
    }
  }

  /** An upload is completed once: the first completion gives the instant, and later ones change nothing. */
  lemma {:induction false} FirstCompletionCounts(r: Row, events: seq<Event>, i: nat)
    requires i < |events| && events[i].Completed? && forall j :: 0 <= j < i ==> events[j].Served?
    ensures ApplyAll(r, events).completedAt
         == if r.completedAt.Some? then r.completedAt else Some(Unix(events[i].at))
    decreases |events|
  {
    var next := Apply(r, events[0]);
    if i == 0 {
      CompletionStays(next, events[1..]);
    } else {
      FirstCompletionCounts(next, events[1..], i - 1);
    }
  }

  lemma {:induction false} CompletionStays(r: Row, events: seq<Event>)
    requires r.completedAt.Some?
    ensures ApplyAll(r, events).completedAt == r.completedAt
    decreases |events|
  {
    if events != [] {
      CompletionStays(Apply(r, events[0]), events[1..]);
    }
  }

  lemma QuotientGrows(a: nat, b: nat, size: nat)
    requires size > 0 && a <= b
    ensures a / size <= b / size
  {
    var p, q := a / size, b / size;
    assert q < p ==> (q + 1) * size <= p * size;
  }

  /** A complete row that is dead stays dead. */
  lemma DeadStaysDead(r: Row, events: seq<Event>, now: Time, later: Time)
    requires Counted(r) && r.completedAt.Some? && !Live(Scan(r), now) && now <= later
    ensures !Live(Scan(ApplyAll(r, events)), later)
  {
    CountIsWholeFiles(r, events);
    if IsComplete(Scan(r)) {
      BoundStaysPast(r, events, now, later);
    }
  }

  /** Whatever happens to a row from an instant on, it is never live. */
  ghost predicate NeverLive(r: Row, now: Time) {
    forall events: seq<Event>, later: Time :: now <= later ==> !Live(Scan(ApplyAll(r, events)), later)
  }

  /**
   When the reaper, which removes a listed row some time later, cannot remove a live upload: exactly
   when the row was complete, or already past its deadline or its limit, as it was listed. The
   others are abandoned uploads that complete before their turn comes.
   */
  lemma ListedStaysDeadExactly(r: Row, now: Time, abandoned: Time)
    requires Counted(r) && !Ambiguous(r.expiresAt) && !Ambiguous(r.completedAt) && Listed(r, now, abandoned)
    ensures NeverLive(r, now) <==> r.completedAt.Some? || Expired(Scan(r), now) || Exhausted(Scan(r))
  {
    hide Counted;
    if r.completedAt.Some? || Expired(Scan(r), now) || Exhausted(Scan(r)) {
      forall events: seq<Event>, later: Time | now <= later ensures !Live(Scan(ApplyAll(r, events)), later) {
        ReaperAgreesWithExpiry(r, now, abandoned);
        BoundStaysPast(r, events, now, later);
      }
    } else {
      var events := [Completed(FromUnix(0))];
      assert ApplyAll(r, events) == Apply(r, events[0]);
      assert Live(Scan(ApplyAll(r, events)), now);
    }
  }

  /** A deadline or a limit once passed stays passed, complete or not. */
  lemma BoundStaysPast(r: Row, events: seq<Event>, now: Time, later: Time)
    requires Counted(r) && now <= later && (Expired(Scan(r), now) || Exhausted(Scan(r)))
    ensures Expired(Scan(ApplyAll(r, events)), later) || Exhausted(Scan(ApplyAll(r, events)))
  {
    CountIsWholeFiles(r, events);
    if r.size > 0 {
      QuotientGrows(r.bytesServed, ApplyAll(r, events).bytesServed, r.size);
    }
  }

  /** What brings it to life in between is its completion. */
  lemma ListedThenLive(r: Row, events: seq<Event>, now: Time, later: Time, abandoned: Time)
    requires Counted(r) && !Ambiguous(r.expiresAt) && !Ambiguous(r.completedAt) && now <= later
    requires Listed(r, now, abandoned) && Live(Scan(ApplyAll(r, events)), later)
    ensures r.completedAt.None? && exists i :: 0 <= i < |events| && events[i].Completed?
  {
    ListedStaysDeadExactly(r, now, abandoned);
    CountIsWholeFiles(r, events);
  }

  /** A row that this happens to. */
  lemma AbandonedCanComplete()
    ensures var r := Row(1, 0, None, 0, 0, 0, None);
            var now := FromUnix(86400);
            && Counted(r) && Listed(r, now, FromUnix(0)) && !NeverLive(r, now)
  {
    ListedStaysDeadExactly(Row(1, 0, None, 0, 0, 0, None), FromUnix(86400), FromUnix(0));
  }

  // ----- the download limit under overlapping transfers

  /** A row being served: for each transfer in flight, how much of the blob it may still record. */
  datatype Serving = Serving(row: Row, left: seq<nat>)

  datatype Move = Start(now: Time) | Record(i: nat, n: nat) | End(i: nat)

  /** A transfer starts only on a live row, never writes more than the blob, and at most k overlap. */
  predicate Allowed(s: Serving, m: Move, k: nat) {
    match m
    case Start(now) => Live(Scan(s.row), now) && |s.left| < k
    case Record(i, n) => i < |s.left| && n <= s.left[i]
    case End(i) => i < |s.left|
  }

  function Moved(s: Serving, m: Move, k: nat): Serving
    requires Allowed(s, m, k)
  {
    match m
    case Start(_) => s.(left := s.left + [s.row.size])
    case Record(i, n) => Serving(Apply(s.row, Served(n)), s.left[i := s.left[i] - n])
    case End(i) => s.(left := s.left[..i] + s.left[i + 1..])
  }

  predicate AllAllowed(s: Serving, moves: seq<Move>, k: nat)
    decreases |moves|
  {
    moves != [] ==> Allowed(s, moves[0], k) && AllAllowed(Moved(s, moves[0], k), moves[1..], k)
  }

  function AllMoved(s: Serving, moves: seq<Move>, k: nat): Serving
    requires AllAllowed(s, moves, k)
    decreases |moves|
  {
    if moves == [] then s else AllMoved(Moved(s, moves[0], k), moves[1..], k)
  }

  lemma {:induction false} SumAt(xs: seq<nat>, i: nat, x: nat)
    requires i < |xs|
    ensures Sum(xs[i := x]) == Sum(xs) - xs[i] + x && Sum(xs[..i] + xs[i + 1..]) == Sum(xs) - xs[i]
  {
    if i == 0 {
      assert xs[0 := x][1..] == xs[1..] && xs[..0] + xs[1..] == xs[1..];
    } else {
      assert xs[i := x][1..] == xs[1..][i - 1 := x];
      assert (xs[..i] + xs[i + 1..])[1..] == xs[1..][..i - 1] + xs[1..][i..];
      SumAt(xs[1..], i - 1, x);
    }
  }

  lemma {:induction false} SumEnd(xs: seq<nat>, x: nat)
    ensures Sum(xs + [x]) == Sum(xs) + x
  {
    if xs != [] {
      assert (xs + [x])[1..] == xs[1..] + [x];
      SumEnd(xs[1..], x);
    }
  }

  lemma {:induction false} SumBound(xs: seq<nat>, size: nat)
    requires forall i :: 0 <= i < |xs| ==> xs[i] <= size
    ensures Sum(xs) <= |xs| * size
  {
    if xs != [] {
      SumBound(xs[1..], size);
      assert |xs| * size == (|xs| - 1) * size + size;
    }
  }

  /** What is recorded and what may yet be stay together below the limit. */
  ghost predicate Bounded(s: Serving, k: nat) {
    && Counted(s.row) && s.row.size > 0 && s.row.maxDownloads > 0 && |s.left| <= k
    && (forall i :: 0 <= i < |s.left| ==> s.left[i] <= s.row.size)
    && s.row.bytesServed + Sum(s.left) < (s.row.maxDownloads + k) * s.row.size
  }

  lemma QuotientBelow(a: nat, size: nat, max: nat)
    requires size > 0 && a / size < max
    ensures a < max * size
  {
    assert (a / size + 1) * size <= max * size;
  }

  lemma StartKeepsBounded(s: Serving, m: Move, k: nat)
    requires Bounded(s, k) && Allowed(s, m, k) && m.Start?
    ensures Bounded(Moved(s, m, k), k)
  {
    var size, max := s.row.size, s.row.maxDownloads;
    QuotientBelow(s.row.bytesServed, size, max);
    hide Sum;
    SumBound(s.left, size);
    SumEnd(s.left, size);
    StartFits(s.row.bytesServed, Sum(s.left), |s.left|, size, max, k);
  }

  lemma StartFits(total: nat, sum: nat, flying: nat, size: nat, max: nat, k: nat)
    requires total < max * size && sum <= flying * size && flying < k
    ensures total + (sum + size) < (max + k) * size
  {
    assert (flying + 1) * size <= k * size;
    assert (max + k) * size == max * size + k * size;
  }

  lemma MoveKeepsBounded(s: Serving, m: Move, k: nat)
    requires Bounded(s, k) && Allowed(s, m, k)
    ensures Bounded(Moved(s, m, k), k)
  {
    hide Sum;
    match m
    case Start(now) => StartKeepsBounded(s, m, k);
    case Record(i, n) => SumAt(s.left, i, s.left[i] - n);
    case End(i) => SumAt(s.left, i, 0);
  }

  /** Every run of at most k overlapping transfers records fewer than (max + k) * size bytes. */
  lemma {:induction false} ServedStaysBounded(s: Serving, moves: seq<Move>, k: nat)
    requires AllAllowed(s, moves, k) && Bounded(s, k)
    ensures Bounded(AllMoved(s, moves, k), k)
    decreases |moves|
  {
    hide Bounded, Allowed, Moved;
    if moves != [] {
      MoveKeepsBounded(s, moves[0], k);
      ServedStaysBounded(Moved(s, moves[0], k), moves[1..], k);
    }
  }

  lemma {:induction false} MovedRow(s: Serving, moves: seq<Move>, k: nat)
    requires AllAllowed(s, moves, k)
    ensures AllMoved(s, moves, k).row.size == s.row.size && AllMoved(s, moves, k).row.maxDownloads == s.row.maxDownloads
    decreases |moves|
  {
    if moves != [] {
      MovedRow(Moved(s, moves[0], k), moves[1..], k);
    }
  }

  lemma BoundedCount(s: Serving, k: nat)
    requires Bounded(s, k)
    ensures s.row.bytesServed < (s.row.maxDownloads + k) * s.row.size && s.row.downloadCount < s.row.maxDownloads + k
  {}

  lemma UnservedIsBounded(r: Row, k: nat)
    requires r.size > 0 && r.maxDownloads > 0 && r.bytesServed == 0 && r.downloadCount == 0
    ensures Bounded(Serving(r, []), k)
  {}

  lemma DownloadLimitHolds(r: Row, moves: seq<Move>, k: nat)
    requires r.size > 0 && r.maxDownloads > 0 && r.bytesServed == 0 && r.downloadCount == 0
    requires AllAllowed(Serving(r, []), moves, k)
    ensures var end := AllMoved(Serving(r, []), moves, k).row;
            end.bytesServed < (r.maxDownloads + k) * r.size && end.downloadCount < r.maxDownloads + k
  {
    hide Bounded, AllAllowed, AllMoved;
    UnservedIsBounded(r, k);
    ServedStaysBounded(Serving(r, []), moves, k);
    MovedRow(Serving(r, []), moves, k);
    BoundedCount(AllMoved(Serving(r, []), moves, k), k);
  }

  // ----- the sweep

  type Id = nat

  ghost function Dead(rows: map<Id, Row>, now: Time, abandoned: Time): set<Id> {
    set id <- rows | Listed(rows[id], now, abandoned)
  }

  predicate Distinct(ids: seq<Id>) {
    forall i, j :: 0 <= i < j < |ids| ==> ids[i] != ids[j]
  }

  /** What becomes of one removal: done; the row could not be deleted; or the row is gone and its blob is not. */
  datatype Fault = Fine | RowStays | BlobStays

  datatype Instant = Instant(now: Time, abandoned: Time)

  ghost predicate ListedWithin(r: Row, clock: nat -> Instant, passes: nat) {
    exists p: nat :: p < passes && Listed(r, clock(p).now, clock(p).abandoned)
  }

  /** Nothing to remove at an instant: an upload still under way, or one that can be downloaded. */
  ghost predicate InUse(r: Row, at: Instant) {
    if r.completedAt.None? then FromUnix(r.createdAt) > at.abandoned
    else !Ambiguous(r.expiresAt) && !Ambiguous(r.completedAt) && Live(Scan(r), at.now)
  }

  lemma InUseIsNotListed(r: Row, clock: nat -> Instant, passes: nat)
    requires forall p: nat :: p < passes ==> InUse(r, clock(p))
    ensures !ListedWithin(r, clock, passes)
  {
    forall p: nat | p < passes ensures !Listed(r, clock(p).now, clock(p).abandoned) {
      assert InUse(r, clock(p));
      if r.completedAt.Some? {
        ReaperAgreesWithExpiry(r, clock(p).now, clock(p).abandoned);
      } else {
        AbandonedExactly(r, clock(p).now, clock(p).abandoned);
      }
    }
  }

  class Table {
    var rows: map<Id, Row>

    constructor (rows: map<Id, Row>)
      ensures this.rows == rows
    {
      this.rows := rows;
    }

    /** Some of the dead rows, in no particular order, and all of them when they are within the limit. */
    method ListDead(now: Time, abandoned: Time, limit: int) returns (ids: seq<Id>)
      ensures Distinct(ids) && forall i :: 0 <= i < |ids| ==> ids[i] in Dead(rows, now, abandoned)
      ensures |ids| == if limit <= 0 then 0 else Min(limit, |Dead(rows, now, abandoned)|)
      ensures forall i :: 0 <= i < |ids| ==> ids[i] in rows && !InUse(rows[ids[i]], Instant(now, abandoned))
    {
      ids := [];
      if limit <= 0 {
        return;
      }
      var dead := set id <- rows | Listed(rows[id], now, abandoned);
      while dead != {} && |ids| < limit
        invariant dead <= Dead(rows, now, abandoned) && |dead| + |ids| == |Dead(rows, now, abandoned)| && |ids| <= limit
        invariant Distinct(ids) && forall i :: 0 <= i < |ids| ==>
                    ids[i] in Dead(rows, now, abandoned) && ids[i] !in dead
        decreases |dead|
      {
        var id :| id in dead;
        dead := dead - {id};
        ids := ids + [id];
      }
    }

    method Delete(id: Id)
      modifies this
      ensures rows == old(rows) - {id}
    {
      rows := rows - {id};
    }

    /** Removes listed rows and nothing else; a removal that fails does not stop the others and is not counted. */
    method Reap(now: Time, abandoned: Time, limit: int, faults: Id -> Fault) returns (removed: nat)
      modifies this
      ensures Kept(old(rows), rows) && forall id :: id in old(rows) && id !in rows ==>
                  Listed(old(rows)[id], now, abandoned)
      ensures removed <= |old(rows)| - |rows| && removed <= (if limit <= 0 then 0 else limit)
      ensures (forall id :: faults(id) == Fine) ==>
                && removed == |old(rows)| - |rows|
                && removed == if limit <= 0 then 0 else Min(limit, |Dead(old(rows), now, abandoned)|)
      ensures (forall id :: faults(id) == Fine) && removed < limit ==> Dead(rows, now, abandoned) == {}
    {
      var ids := ListDead(now, abandoned, limit);
      hide Listed;
      removed := 0;
      for i := 0 to |ids|
        invariant removed <= i && removed <= |old(rows)| - |rows| && Kept(old(rows), rows)
        invariant forall id :: id in old(rows) && id !in rows ==> Listed(old(rows)[id], now, abandoned)
        invariant forall j :: i <= j < |ids| ==> ids[j] in Dead(rows, now, abandoned)
        invariant (forall id :: faults(id) == Fine) ==>
                    && removed == i == |old(rows)| - |rows|
                    && |Dead(rows, now, abandoned)| == |Dead(old(rows), now, abandoned)| - i
      {
        var fault := faults(ids[i]);
        DeadWithout(rows, ids[i], now, abandoned);
        if fault != RowStays {
          Delete(ids[i]);
        }
        if fault == Fine {
          removed := removed + 1;
        }
      }
    }

    /**
     Batch after batch while they come back full. Whatever the clock shows at each pass and whichever
     removals fail, it ends, having removed only rows listed at one of its passes, so none that was in use
     at all of them; and if no removal fails, nothing that is dead at the last pass is left.
     */
    method Sweep(clock: nat -> Instant, batch: int, faults: nat -> (Id -> Fault)) returns (passes: nat)
      requires batch > 0
      modifies this
      ensures passes > 0 && Kept(old(rows), rows)
      ensures forall id :: id in old(rows) && id !in rows ==> ListedWithin(old(rows)[id], clock, passes)
      ensures forall id :: id in old(rows) && (forall p: nat :: p < passes ==> InUse(old(rows)[id], clock(p))) ==>
                id in rows && rows[id] == old(rows)[id]
      ensures (forall p, id :: faults(p)(id) == Fine) ==>
                Dead(rows, clock(passes - 1).now, clock(passes - 1).abandoned) == {}
    {
      var more := true;
      passes := 0;
      while more
        invariant Kept(old(rows), rows) && (more || passes > 0)
        invariant forall id :: id in old(rows) && id !in rows ==> ListedWithin(old(rows)[id], clock, passes)
        invariant !more && (forall p, id :: faults(p)(id) == Fine) ==>
                    Dead(rows, clock(passes - 1).now, clock(passes - 1).abandoned) == {}
        decreases more, |rows|
      {
        ghost var before := rows;
        var n := Reap(clock(passes).now, clock(passes).abandoned, batch, faults(passes));
        passes := passes + 1;
        assert forall id :: id in old(rows) && id !in before ==> ListedWithin(old(rows)[id], clock, passes);
        more := n >= batch;
      }
      forall id | id in old(rows) && (forall p: nat :: p < passes ==> InUse(old(rows)[id], clock(p)))
        ensures id in rows && rows[id] == old(rows)[id]
      {
        InUseIsNotListed(old(rows)[id], clock, passes);
      }
    }
  }

  lemma DeadWithout(rows: map<Id, Row>, id: Id, now: Time, abandoned: Time)
    requires id in Dead(rows, now, abandoned)
    ensures |rows - {id}| == |rows| - 1
    ensures Dead(rows - {id}, now, abandoned) == Dead(rows, now, abandoned) - {id}
    ensures |Dead(rows - {id}, now, abandoned)| == |Dead(rows, now, abandoned)| - 1
  {
    var rest := rows - {id};
    assert rows.Keys == rest.Keys + {id} && |rows| == |rows.Keys| && |rest| == |rest.Keys|;
    assert Dead(rest, now, abandoned) == Dead(rows, now, abandoned) - {id};
  }

  /** The rows left are as they were. */
  predicate Kept(before: map<Id, Row>, after: map<Id, Row>) {
    forall id <- after :: id in before && after[id] == before[id]
  }

  /** With the clock standing still and no failure, exactly the dead rows go. */
  method SweepOnce(t: Table, at: Instant, batch: int)
    requires batch > 0
    modifies t
    ensures t.rows == map id | id in old(t.rows) && !Listed(old(t.rows)[id], at.now, at.abandoned) :: old(t.rows)[id]
    ensures forall id :: id in old(t.rows) && old(t.rows)[id].completedAt.None? ==>
              (id in t.rows <==> FromUnix(old(t.rows)[id].createdAt) > at.abandoned)
    ensures forall id :: id in old(t.rows) && InUse(old(t.rows)[id], at) ==> id in t.rows
  {
    var passes := t.Sweep(_ => at, batch, _ => (_ => Fine));
    assert forall id :: id in t.rows ==> id !in Dead(t.rows, at.now, at.abandoned);
  }
}
