/**
 What became of the bytes: a ledger of the chunks that the store accepted for an upload, whole or broken
 off, kept beside a run of the lifecycle and checked against what the partial and the blob hold.
 */
module LifecycleLedger {
  import opened Bytes
  import opened Lifecycle

  datatype Chunk = Chunk(n: nat, key: Key)

  /** The chunks that make up the partial, and those that make up the blob. */
  datatype Ledger = Ledger(partial: seq<Chunk>, blob: seq<Chunk>)

  function Total(log: seq<Chunk>): nat {
    if log == [] then 0 else Total(log[..|log| - 1]) + log[|log| - 1].n
  }

  ghost function KeysOf(log: seq<Chunk>): set<Key> {
    set c <- log | c.n > 0 :: c.key
  }

  predicate Concerns(s: State, a: Step, id: Id) {
    !a.Crash? && a.pid in s.tasks && s.tasks[a.pid].id == id
  }

  /** A chunk counts when it starts where the partial ends, however its request goes on. */
  predicate Accepted(s: State, a: Step, id: Id)
    requires Enabled(s, a)
  {
    a.Write? && Concerns(s, a, id) && s.tasks[a.pid].offset == Length(s, id)
  }

  /** Entries move only with the chunks, with a promotion, and with the two steps of a removal. */
  function Booked(s: State, a: Step, id: Id, l: Ledger): Ledger
    requires Enabled(s, a)
  {
    if Accepted(s, a, id) then l.(partial := l.partial + [Chunk(a.n, s.tasks[a.pid].held.value)])
    else if a.Promote? && Concerns(s, a, id) && id in s.partial then Ledger([], l.partial)
    else if a.RemovePartial? && Concerns(s, a, id) then l.(partial := [])
    else if a.RemoveBlob? && Concerns(s, a, id) then l.(blob := [])
    else l
  }

  function BookedAll(s: State, steps: seq<Step>, id: Id, l: Ledger): Ledger
    requires Run(s, steps)
    decreases |steps|
  {
    if steps == [] then l else BookedAll(Next(s, steps[0]), steps[1..], id, Booked(s, steps[0], id, l))
  }

  function ContentOf(m: map<Id, Content>, id: Id): Content {
    if id in m then m[id] else Content(0, {})
  }

  ghost predicate Holds(c: Content, log: seq<Chunk>) {
    c.length == Total(log) && c.keys == KeysOf(log)
  }

  ghost predicate Balanced(s: State, id: Id, l: Ledger) {
    Holds(ContentOf(s.partial, id), l.partial) && Holds(ContentOf(s.blobs, id), l.blob)
  }

  lemma HoldsMore(c: Content, log: seq<Chunk>, e: Chunk)
    requires Holds(c, log)
    ensures Holds(Content(c.length + e.n, c.keys + if e.n > 0 then {e.key} else {}), log + [e])
  {
    var more := log + [e];
    assert more[..|log|] == log;
    assert forall x :: x in more <==> x in log || x == e;
  }

  lemma EmptyLogHolds()
    ensures Holds(Content(0, {}), [])
  {}

  lemma WriteBalances(s: State, a: Step, id: Id, l: Ledger)
    requires Enabled(s, a) && Balanced(s, id, l) && a.Write?
    ensures Balanced(Next(s, a), id, Booked(s, a, id, l))
  {
    hide Holds;
    EmptyLogHolds();
    var t, end := s.tasks[a.pid], Next(s, a);
    assert end.blobs == s.blobs;
    if Accepted(s, a, id) {
      var held := ContentOf(s.partial, id);
      HoldsMore(held, l.partial, Chunk(a.n, t.held.value));
      assert end.partial[id] == Content(held.length + a.n, held.keys + if a.n > 0 then {t.held.value} else {});
    } else {
      assert ContentOf(end.partial, id) == ContentOf(s.partial, id);
    }
  }

  lemma MoveBalances(s: State, a: Step, id: Id, l: Ledger)
    requires Enabled(s, a) && Balanced(s, id, l) && (a.Promote? || a.RemovePartial? || a.RemoveBlob?)
    ensures Balanced(Next(s, a), id, Booked(s, a, id, l))
  {
    hide Holds, Written;
    EmptyLogHolds();
  }

  lemma StepBalances(s: State, a: Step, id: Id, l: Ledger)
    requires Enabled(s, a) && Balanced(s, id, l)
    ensures Balanced(Next(s, a), id, Booked(s, a, id, l))
  {
    if a.Write? {
      WriteBalances(s, a, id, l);
    } else if a.Promote? || a.RemovePartial? || a.RemoveBlob? {
      MoveBalances(s, a, id, l);
    } else {
      assert Next(s, a).partial == s.partial && Next(s, a).blobs == s.blobs && Booked(s, a, id, l) == l;
      hide Next, Booked, Holds;
    }
  }

  /** Every run balances: across drops, crashes and chunks that break off, no accepted byte is lost or invented. */
  lemma {:induction false} RunBalances(s: State, steps: seq<Step>, id: Id, l: Ledger)
    requires Run(s, steps) && Balanced(s, id, l)
    ensures Balanced(After(s, steps), id, BookedAll(s, steps, id, l))
    decreases |steps|
  {
    hide Next, Enabled, Balanced, Booked;
    if steps != [] {
      StepBalances(s, steps[0], id, l);
      RunBalances(Next(s, steps[0]), steps[1..], id, Booked(s, steps[0], id, l));
    }
  }

  const NewLedger := Ledger([], [])

  /** In any run of the service, the partial is as long as the chunks accepted since it was begun. */
  lemma {:induction false} PartialIsWhatWasAccepted(steps: seq<Step>, id: Id)
    requires Run(Empty, steps)
    ensures var log := BookedAll(Empty, steps, id, NewLedger).partial;
            && Length(After(Empty, steps), id) == Total(log)
            && ContentOf(After(Empty, steps).partial, id).keys == KeysOf(log)
  {
    RunBalances(Empty, steps, id, NewLedger);
  }

  /** An upload marked complete was accepted byte by byte: as many as declared, all under the row's key. */
  lemma {:induction false} CompleteWasAccepted(steps: seq<Step>, id: Id)
    requires ReachingRun(Empty, steps) && Run(Empty, steps)
    requires var s := After(Empty, steps); id in s.rows && s.rows[id].complete
    ensures var log, row := BookedAll(Empty, steps, id, NewLedger).blob, After(Empty, steps).rows[id];
            Total(log) == row.size && KeysOf(log) <= {row.key}
  {
    ServiceIsSafe(steps);
    RunBalances(Empty, steps, id, NewLedger);
  }

  /** After a crash, or the loss of one request, a client that asks anew is sent on from the last accepted byte. */
  lemma {:induction false} ResumesWhereItEnded(steps: seq<Step>, id: Id, p: Pid, loss: Step)
    requires Run(Empty, steps) && Pending(After(Empty, steps), id)
    requires loss == Crash || (loss == Drop(p) && p in After(Empty, steps).tasks)
    ensures var s, again := After(Empty, steps), [loss, Lookup(p, id), Measure(p)];
            && Run(s, again)
            && var t := After(s, again);
            && t.rows == s.rows && t.partial == s.partial && t.blobs == s.blobs
            && t.tasks == (if loss == Crash then map[] else s.tasks)[
                 p := Open(id, s.rows[id].size, Some(s.rows[id].key),
                           Total(BookedAll(Empty, steps, id, NewLedger).partial))]
  {
    var s := After(Empty, steps);
    var s1 := Next(s, loss);
    var s2 := Next(s1, Lookup(p, id));
    PartialIsWhatWasAccepted(steps, id);
    hide BookedAll, Total;
    RunsTo(s2, Measure(p), []);
    RunsTo(s1, Lookup(p, id), [Measure(p)]);
    RunsTo(s, loss, [Lookup(p, id), Measure(p)]);
  }

  // ----- an upload that is left alone

  /** The chunks of one request, the last of which finishes. */
  function Writes(p: Pid, sizes: seq<nat>): seq<Step> {
    if sizes == [] then []
    else [Write(p, sizes[0], true, false, |sizes| == 1)] + Writes(p, sizes[1..])
  }

  function KeysFor(length: nat, key: Key): set<Key> { if length > 0 then {key} else {} }

  /** A handle that stands where the partial ends, all of which is under the handle's key. */
  ghost predicate InStep(s: State, p: Pid) {
    && p in s.tasks && s.tasks[p].Open? && s.tasks[p].held.Some?
    && var t := s.tasks[p]; ContentOf(s.partial, t.id) == Content(t.offset, KeysFor(t.offset, t.held.value))
  }

  /** The state once a handle's partial has grown to a length, its request being at some task. */
  function Grown(s: State, p: Pid, length: nat, task: Task): State
    requires p in s.tasks && s.tasks[p].Open? && s.tasks[p].held.Some?
  {
    var t := s.tasks[p];
    s.(partial := s.partial[t.id := Content(length, KeysFor(length, t.held.value))], tasks := s.tasks[p := task])
  }

  lemma OneWrite(s: State, p: Pid, n: nat, finish: bool)
    requires InStep(s, p) && var t := s.tasks[p]; t.offset + n <= t.size && (finish ==> t.offset + n == t.size)
    ensures var t, w := s.tasks[p], Write(p, n, true, false, finish);
            && Enabled(s, w)
            && Next(s, w) == Grown(s, p, t.offset + n, if finish then Finishing(t.id) else t.(offset := t.offset + n))
  {
    var t := s.tasks[p];
    var key := t.held.value;
    assert ContentOf(s.partial, t.id).keys + (if n > 0 then {key} else {}) == KeysFor(t.offset + n, key);
  }

  lemma GrownOn(s: State, p: Pid, n: nat, length: nat, task: Task)
    requires InStep(s, p)
    ensures var t := s.tasks[p];
            var s1 := Grown(s, p, t.offset + n, t.(offset := t.offset + n));
            InStep(s1, p) && Grown(s1, p, length, task) == Grown(s, p, length, task)
  {}

  /** The chunks bring the partial to the declared size. */
  lemma {:induction false} WritesFill(s: State, p: Pid, sizes: seq<nat>)
    requires InStep(s, p) && sizes != [] && s.tasks[p].offset + Sum(sizes) == s.tasks[p].size
    ensures Run(s, Writes(p, sizes))
    ensures After(s, Writes(p, sizes)) == Grown(s, p, s.tasks[p].size, Finishing(s.tasks[p].id))
    decreases |sizes|
  {
    var last, t := |sizes| == 1, s.tasks[p];
    var w, rest := Write(p, sizes[0], true, false, last), Writes(p, sizes[1..]);
    assert Sum(sizes) == sizes[0] + Sum(sizes[1..]) && (last ==> Sum(sizes[1..]) == 0);
    OneWrite(s, p, sizes[0], last);
    if !last {
      GrownOn(s, p, sizes[0], t.size, Finishing(t.id));
      assert Next(s, w).tasks[p] == t.(offset := t.offset + sizes[0]);
      hide Next, Enabled, Grown, Sum, InStep;
      WritesFill(Next(s, w), p, sizes[1..]);
    }
    hide Next, Enabled, Grown, Sum, InStep;
    RunsTo(s, w, rest);
  }

  lemma Begins(s: State, p: Pid, id: Id, size: nat, key: Key, rest: seq<Step>)
    requires p !in s.tasks && id !in s.rows
    requires Run(Begun(s, p, id, size, key), rest)
    ensures var steps := [Create(p, id, size, key)] + ([LoadKey(p)] + rest);
            Run(s, steps) && After(s, steps) == After(Begun(s, p, id, size, key), rest)
  {
    var s1 := Next(s, Create(p, id, size, key));
    assert Next(s1, LoadKey(p)) == Begun(s, p, id, size, key);
    hide Next, Enabled;
    RunsTo(s1, LoadKey(p), rest);
    RunsTo(s, Create(p, id, size, key), [LoadKey(p)] + rest);
  }

  function Begun(s: State, p: Pid, id: Id, size: nat, key: Key): State {
    s.(rows := s.rows[id := Row(size, key, false)], tasks := s.tasks[p := Open(id, size, Some(key), 0)])
  }

  lemma Ends(s: State, p: Pid, id: Id)
    requires FinishedBy(s, p, id) && id in s.partial && id in s.rows
    ensures var steps := [Promote(p)] + [Complete(p)];
            && Run(s, steps)
            && After(s, steps) == State(s.rows[id := s.rows[id].(complete := true)], s.partial - {id},
                                        s.blobs[id := s.partial[id]], s.tasks - {p})
  {
    var s1 := Next(s, Promote(p));
    RunsTo(s1, Complete(p), []);
    RunsTo(s, Promote(p), [Complete(p)]);
  }

  function UploadSteps(p: Pid, id: Id, size: nat, key: Key, sizes: seq<nat>): seq<Step> {
    [Create(p, id, size, key)] + ([LoadKey(p)] + (Writes(p, sizes) + ([Promote(p)] + [Complete(p)])))
  }

  /** Whatever else is going on, an upload sent in any chunks and then left alone ends complete, and whole. */
  lemma {:induction false} UploadCompletes(s: State, p: Pid, id: Id, size: nat, key: Key, sizes: seq<nat>)
    requires p !in s.tasks && id !in s.rows && id !in s.partial && sizes != [] && Sum(sizes) == size
    ensures var steps := UploadSteps(p, id, size, key, sizes);
            && Run(s, steps)
            && After(s, steps) == State(s.rows[id := Row(size, key, true)], s.partial,
                                        s.blobs[id := Content(size, if size > 0 then {key} else {})], s.tasks)
  {
    var s2, rest := Begun(s, p, id, size, key), [Promote(p)] + [Complete(p)];
    assert InStep(s2, p);
    var s3 := Grown(s2, p, size, Finishing(id));
    assert s3.rows[id] == Row(size, key, false) && s3.partial[id] == Content(size, KeysFor(size, key));
    assert s3.partial - {id} == s.partial && s3.tasks - {p} == s.tasks && s3.blobs == s.blobs;
    assert s3.rows[id := Row(size, key, true)] == s.rows[id := Row(size, key, true)];
    assert FinishedBy(s3, p, id);
    WritesFill(s2, p, sizes);
    hide Next, Enabled, Run, After, Grown, Begun, InStep, Writes, Sum;
    Ends(s3, p, id);
    RunAppend(s2, Writes(p, sizes), rest);
    Begins(s, p, id, size, key, Writes(p, sizes) + rest);
  }
}
