/**
 At-rest keys stored raw or wrapped under a master key, and the rotation that rewrites all of them
 in one transaction. The cipher under each master key and the fresh nonces are parameters.
 */
module Rekey {
  import opened Bytes

  const KEY_SIZE: nat := 32
  const NONCE_SIZE: nat := 12
  const TAG_SIZE: nat := 16
  const WRAPPED_SIZE: nat := 1 + NONCE_SIZE + KEY_SIZE + TAG_SIZE
  const WRAPPED_V1: byte := 1

  /** Authenticated encryption under one master key. */
  datatype Master = Master(seal: (Bytes, Bytes) -> Bytes, open: (Bytes, Bytes) -> Option<Bytes>)

  ghost predicate Lawful(m: Master) {
    && (forall n, p :: |m.seal(n, p)| == |p| + TAG_SIZE && m.open(n, m.seal(n, p)) == Some(p))
    && (forall n, c :: m.open(n, c).Some? ==> m.seal(n, m.open(n, c).value) == c)
  }

  ghost predicate LawfulIfAny(m: Option<Master>) { m.Some? ==> Lawful(m.value) }

  function Wrap(m: Master, nonce: Bytes, key: Bytes): Bytes {
    [WRAPPED_V1] + nonce + m.seal(nonce, key)
  }

  /** Length decides: a raw key is passed through, whatever its first octet. */
  function Unwrap(m: Master, stored: Bytes): Option<Bytes> {
    if |stored| == KEY_SIZE then Some(stored)
    else if |stored| != WRAPPED_SIZE || stored[0] != WRAPPED_V1 then None
    else m.open(stored[1..1 + NONCE_SIZE], stored[1 + NONCE_SIZE..])
  }

  lemma WrapUnwrap(m: Master, nonce: Bytes, key: Bytes)
    requires Lawful(m) && |nonce| == NONCE_SIZE && |key| == KEY_SIZE
    ensures |Wrap(m, nonce, key)| == 61 && Unwrap(m, Wrap(m, nonce, key)) == Some(key)
    ensures var stored := Wrap(m, nonce, key);
            stored[0] == 1 && stored[1..13] == nonce && m.open(stored[1..13], stored[13..]) == Some(key)
  {}

  /** The key a service configured with or without a master key reads from a row. */
  function Opened(m: Option<Master>, stored: Bytes): Option<Bytes> {
    if m.Some? then Unwrap(m.value, stored) else if |stored| == KEY_SIZE then Some(stored) else None
  }

  /** What a rotation writes in place of one stored key. */
  function Rewrapped(from: Option<Master>, to: Option<Master>, nonce: Bytes, stored: Bytes): Option<Bytes> {
    var key := if from.Some? then Unwrap(from.value, stored) else if |stored| != KEY_SIZE then None else Some(stored);
    if key.None? || to.None? then key else Some(Wrap(to.value, nonce, key.value))
  }

  function FormSize(to: Option<Master>): nat { if to.Some? then WRAPPED_SIZE else KEY_SIZE }

  lemma RewrapKeepsKey(from: Option<Master>, to: Option<Master>, nonce: Bytes, stored: Bytes)
    requires LawfulIfAny(from) && LawfulIfAny(to) && |nonce| == NONCE_SIZE
    ensures Rewrapped(from, to, nonce, stored).Some? <==> Opened(from, stored).Some?
    ensures Opened(from, stored).Some? ==>
              && Opened(to, Rewrapped(from, to, nonce, stored).value) == Opened(from, stored)
              && |Rewrapped(from, to, nonce, stored).value| == FormSize(to)
  {}

  /**
   One row under the same rotation run again: nothing changes if and only if wrapping is being turned
   off, or the nonce recurs and the old key still opens what the new one wrapped.
   */
  lemma RotatingAgain(from: Option<Master>, to: Option<Master>, nonce: Bytes, again: Bytes, stored: Bytes)
    requires LawfulIfAny(from) && LawfulIfAny(to) && |nonce| == |again| == NONCE_SIZE && Opened(from, stored).Some?
    ensures var once := Rewrapped(from, to, nonce, stored).value;
            Rewrapped(from, to, again, once) == Some(once)
            <==> to.None? || (again == nonce && Opened(from, once) == Opened(from, stored))
  {
    RewrapKeepsKey(from, to, nonce, stored);
    var once := Rewrapped(from, to, nonce, stored).value;
    RewrapKeepsKey(from, to, again, once);
    if to.Some? && Opened(from, once).Some? {
      var twice := Rewrapped(from, to, again, once).value;
      assert once[1..1 + NONCE_SIZE] == nonce && twice[1..1 + NONCE_SIZE] == again;
      assert Opened(to, twice) == Opened(from, once);
    }
  }

  type Id = nat

  /** A rotation: the old key if any, the new key if any, and the fresh nonce of each row. */
  datatype Rotation = Rotation(from: Option<Master>, to: Option<Master>, nonces: Id -> Bytes)

  ghost predicate Sane(z: Rotation) {
    LawfulIfAny(z.from) && LawfulIfAny(z.to) && forall id :: |z.nonces(id)| == NONCE_SIZE
  }

  datatype Report = Done(changed: nat) | Failed(row: nat) | Refused

  /** The rows of two tables that differ. */
  function Differing(a: map<Id, Bytes>, b: map<Id, Bytes>): set<Id>
    requires a.Keys == b.Keys
  {
    set id <- a | a[id] != b[id]
  }

  ghost predicate AllOpen(m: Option<Master>, rows: map<Id, Bytes>) {
    forall id <- rows :: Opened(m, rows[id]).Some?
  }

  function RowAfter(z: Rotation, id: Id, stored: Bytes): Option<Bytes> {
    Rewrapped(z.from, z.to, z.nonces(id), stored)
  }

  predicate IsRotated(z: Rotation, before: map<Id, Bytes>, after: map<Id, Bytes>) {
    before.Keys == after.Keys && forall id <- before :: RowAfter(z, id, before[id]) == Some(after[id])
  }

  /** A rotated table holds the same keys, all in the new form, and the new configuration opens every row. */
  lemma RotationKeepsKeys(z: Rotation, before: map<Id, Bytes>, after: map<Id, Bytes>)
    requires Sane(z) && IsRotated(z, before, after)
    ensures AllOpen(z.from, before)
    ensures forall id <- before ::
                Opened(z.to, after[id]) == Opened(z.from, before[id]) && |after[id]| == FormSize(z.to)
  {
    forall id <- before
      ensures Opened(z.from, before[id]).Some?
      ensures Opened(z.to, after[id]) == Opened(z.from, before[id]) && |after[id]| == FormSize(z.to)
    {
      assert RowAfter(z, id, before[id]) == Some(after[id]);
      RewrapKeepsKey(z.from, z.to, z.nonces(id), before[id]);
    }
  }

  /** When a second run with the nonces `again` finds nothing to write. */
  predicate Quiet(z: Rotation, again: Id -> Bytes, before: map<Id, Bytes>, once: map<Id, Bytes>)
    requires before.Keys == once.Keys
  {
    z.to.None? || forall id <- before ::
        again(id) == z.nonces(id) && Opened(z.from, once[id]) == Opened(z.from, before[id])
  }

  lemma SecondRotation(z: Rotation, again: Id -> Bytes, before: map<Id, Bytes>, once: map<Id, Bytes>)
    requires Sane(z) && Sane(z.(nonces := again)) && IsRotated(z, before, once)
    ensures IsRotated(z.(nonces := again), once, once) <==> Quiet(z, again, before, once)
  {
    RotationKeepsKeys(z, before, once);
    hide Rewrapped, Opened, LawfulIfAny;
    forall id <- before
      ensures RowAfter(z.(nonces := again), id, once[id]) == Some(once[id])
           <==> z.to.None? || (again(id) == z.nonces(id) && Opened(z.from, once[id]) == Opened(z.from, before[id]))
    {
      assert RowAfter(z, id, before[id]) == Some(once[id]);
      RotatingAgain(z.from, z.to, z.nonces(id), again(id), before[id]);
    }
  }

  class Keys {
    var rows: map<Id, Bytes>

    constructor (rows: map<Id, Bytes>)
      ensures this.rows == rows
    {
      this.rows := rows;
    }

    /** Reads all rows before writing any. */
    method ReadAll() returns (pending: seq<(Id, Bytes)>)
      ensures IsListing(rows, pending) && Covers(rows, pending)
    {
      pending := [];
      var left := rows.Keys;
      while left != {}
        invariant left <= rows.Keys
        invariant forall i :: 0 <= i < |pending| ==>
                    pending[i].0 in rows && pending[i].0 !in left && pending[i].1 == rows[pending[i].0]
        invariant forall i, j :: 0 <= i < j < |pending| ==> pending[i].0 != pending[j].0
        invariant forall id :: id in rows && id !in left ==> exists i :: 0 <= i < |pending| && pending[i].0 == id
        decreases left
      {
        var id :| id in left;
        ghost var before := pending;
        left := left - {id};
        pending := pending + [(id, rows[id])];
        assert pending[|before|].0 == id;
        assert forall i :: 0 <= i < |before| ==> pending[i] == before[i];
      }
    }

    /** Every row keeps its key and takes one form, or one row cannot be opened and nothing changes. */
    method Rekey(z: Rotation) returns (r: Report)
      requires Sane(z)
      modifies this
      ensures r.Refused? <==> z.from.None? && z.to.None?
      ensures r.Done? <==> !r.Refused? && AllOpen(z.from, old(rows))
      ensures !r.Done? ==> rows == old(rows)
      ensures r.Done? ==> IsRotated(z, old(rows), rows) && r.changed == |Differing(old(rows), rows)|
      ensures r.Done? ==>
                forall id :: id in rows ==>
                  Opened(z.to, rows[id]) == Opened(z.from, old(rows)[id]) && |rows[id]| == FormSize(z.to)
    {
      if z.from.None? && z.to.None? {
        return Refused;
      }
      hide Rewrapped, Opened, LawfulIfAny, Progress, Differing, Covers, IsRotated, Sane;
      var pending := ReadAll();
      var tx := rows;
      var changed := 0;
      ProgressStarts(z, rows, pending);
      for i := 0 to |pending|
        invariant rows == old(rows) && tx.Keys == rows.Keys && changed == |Differing(rows, tx)|
        invariant Progress(z, rows, tx, pending, i)
      {
        var (id, key) := pending[i];
        RowOpens(z, id, key);
        var next := Rewrapped(z.from, z.to, z.nonces(id), key);
        if next.None? {
          return Failed(i + 1);
        }
        ProgressStep(z, rows, tx, pending, i, next.value);
        if next.value != key {
          tx := tx[id := next.value];
          changed := changed + 1;
        }
      }
      ProgressEnds(z, rows, tx, pending);
      RotationKeepsKeys(z, rows, tx);
      rows := tx;
      r := Done(changed);
    }
  }

  /** The same rotation twice: the second run changes nothing exactly when it is quiet. */
  method RotateTwice(keys: Keys, z: Rotation, again: Id -> Bytes) returns (first: Report, second: Report)
    requires Sane(z) && Sane(z.(nonces := again))
    modifies keys
    ensures first.Done? ==>
              exists once ::
                && IsRotated(z, old(keys.rows), once) && (second.Done? <==> AllOpen(z.from, once))
                && (second == Done(0) <==> Quiet(z, again, old(keys.rows), once))
  {
    hide Rewrapped, Opened, LawfulIfAny, Quiet, Sane;
    ghost var before := keys.rows;
    first := keys.Rekey(z);
    second := Refused;
    if first.Done? {
      ghost var once := keys.rows;
      SecondRotation(z, again, before, once);
      second := keys.Rekey(z.(nonces := again));
      RotatedAgainSame(z.(nonces := again), once, keys.rows);
      assert IsRotated(z, before, once);
    }
  }

  /** A cipher that only appends its own tag: enough to be lawful, and two of them are told apart. */
  function Tagged(tag: byte): Master {
    Master((n, p) => p + seq(TAG_SIZE, i => tag),
           (n, c: Bytes) => if |c| >= TAG_SIZE && c[|c| - TAG_SIZE..] == seq(TAG_SIZE, i => tag)
                            then Some(c[..|c| - TAG_SIZE]) else None)
  }

  lemma TaggedIsLawful(tag: byte)
    ensures Lawful(Tagged(tag))
  {
    var m := Tagged(tag);
    var end := seq(TAG_SIZE, i => tag);
    forall n: Bytes, p: Bytes ensures |m.seal(n, p)| == |p| + TAG_SIZE && m.open(n, m.seal(n, p)) == Some(p) {
      assert m.seal(n, p) == p + end;
      assert (p + end)[|p|..] == end && (p + end)[..|p|] == p;
    }
    forall n: Bytes, c: Bytes | m.open(n, c).Some? ensures m.seal(n, m.open(n, c).value) == c {
      assert c == c[..|c| - TAG_SIZE] + c[|c| - TAG_SIZE..];
    }
  }

  /** One raw key rotated from one master key to another: the second run cannot open it, though the nonce recurs. */
  lemma RotatingAgainIsRefused(row: Bytes, nonce: Bytes)
    requires |row| == KEY_SIZE && |nonce| == NONCE_SIZE
    ensures var from, to := Some(Tagged(1)), Some(Tagged(2));
            && LawfulIfAny(from) && LawfulIfAny(to) && Rewrapped(from, to, nonce, row).Some?
            && Rewrapped(from, to, nonce, Rewrapped(from, to, nonce, row).value) == None
  {
    TaggedIsLawful(1);
    TaggedIsLawful(2);
    var w := Wrap(Tagged(2), nonce, row);
    assert |w| == WRAPPED_SIZE && w[1 + NONCE_SIZE..] == row + seq(TAG_SIZE, i => 2);
    var end := w[1 + NONCE_SIZE..][KEY_SIZE..];
    assert end[0] == 2 && seq(TAG_SIZE, i => 1)[0] == 1;
  }

  /** The same key for both and another nonce: the second run succeeds and changes the row. */
  lemma RotatingAgainRewrites(row: Bytes, nonce: Bytes, again: Bytes)
    requires |row| == KEY_SIZE && |nonce| == |again| == NONCE_SIZE && nonce != again
    ensures var key := Some(Tagged(1));
            var once := Rewrapped(key, key, nonce, row);
            && LawfulIfAny(key) && once.Some? && Rewrapped(key, key, again, once.value).Some?
            && Rewrapped(key, key, again, once.value) != once
  {
    TaggedIsLawful(1);
    var key := Some(Tagged(1));
    hide Tagged;
    RewrapKeepsKey(key, key, nonce, row);
    RewrapKeepsKey(key, key, again, Rewrapped(key, key, nonce, row).value);
    RotatingAgain(key, key, nonce, again, row);
  }

  lemma RotatedAgainSame(z: Rotation, once: map<Id, Bytes>, after: map<Id, Bytes>)
    requires Sane(z)
    ensures IsRotated(z, once, after) ==> (IsRotated(z, once, once) <==> Differing(once, after) == {})
    ensures IsRotated(z, once, once) ==> AllOpen(z.from, once)
  {
    if IsRotated(z, once, once) {
      RotationKeepsKeys(z, once, once);
    }
    hide Rewrapped, Opened, AllOpen;
    if IsRotated(z, once, after) && Differing(once, after) == {} {
      forall id <- once ensures once[id] == after[id] {
        assert id !in Differing(once, after);
      }
    }
  }

  lemma RowOpens(z: Rotation, id: Id, stored: Bytes)
    requires Sane(z)
    ensures RowAfter(z, id, stored).Some? <==> Opened(z.from, stored).Some?
  {
    RewrapKeepsKey(z.from, z.to, z.nonces(id), stored);
  }

  predicate IsListing(rows: map<Id, Bytes>, pending: seq<(Id, Bytes)>) {
    && (forall i :: 0 <= i < |pending| ==> pending[i].0 in rows && pending[i].1 == rows[pending[i].0])
    && (forall i, j :: 0 <= i < j < |pending| ==> pending[i].0 != pending[j].0)
  }

  predicate Covers(rows: map<Id, Bytes>, pending: seq<(Id, Bytes)>) {
    forall id <- rows :: exists i :: 0 <= i < |pending| && pending[i].0 == id
  }

  /** A transaction that has rewritten the first i rows of a listing. */
  predicate Progress(z: Rotation, rows: map<Id, Bytes>, tx: map<Id, Bytes>, pending: seq<(Id, Bytes)>, i: nat) {
    && IsListing(rows, pending) && i <= |pending| && tx.Keys == rows.Keys
    && (forall j :: 0 <= j < i ==> RowAfter(z, pending[j].0, pending[j].1) == Some(tx[pending[j].0]))
    && (forall j :: i <= j < |pending| ==> tx[pending[j].0] == pending[j].1)
  }

  lemma ProgressStarts(z: Rotation, rows: map<Id, Bytes>, pending: seq<(Id, Bytes)>)
    requires IsListing(rows, pending)
    ensures Progress(z, rows, rows, pending, 0) && Differing(rows, rows) == {}
  {}

  lemma ProgressStep(z: Rotation, rows: map<Id, Bytes>, tx: map<Id, Bytes>, pending: seq<(Id, Bytes)>, i: nat,
                     next: Bytes)
    requires Progress(z, rows, tx, pending, i) && i < |pending| && RowAfter(z, pending[i].0, pending[i].1) == Some(next)
    ensures next == pending[i].1 ==> Progress(z, rows, tx, pending, i + 1)
    ensures next != pending[i].1 ==> Progress(z, rows, tx[pending[i].0 := next], pending, i + 1)
    ensures next != pending[i].1 ==> |Differing(rows, tx[pending[i].0 := next])| == |Differing(rows, tx)| + 1
  {
    hide RowAfter;
    var id := pending[i].0;
    if next != pending[i].1 {
      assert Differing(rows, tx[id := next]) == Differing(rows, tx) + {id};
    }
  }

  lemma ProgressEnds(z: Rotation, rows: map<Id, Bytes>, tx: map<Id, Bytes>, pending: seq<(Id, Bytes)>)
    requires Progress(z, rows, tx, pending, |pending|) && Covers(rows, pending)
    ensures IsRotated(z, rows, tx)
  {
    hide RowAfter;
    forall id <- rows ensures RowAfter(z, id, rows[id]) == Some(tx[id]) {
      var i :| 0 <= i < |pending| && pending[i].0 == id;
    }
  }
}
