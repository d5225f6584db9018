/**
 The life of an upload as a transition system over the row, the partial and the blob.

 Requests are not serialised: the upload endpoint is built without a locker. Every database
 statement and every blob operation is one step; a request may be lost between any two of its
 steps, and a crash loses them all.
 */
module Lifecycle {
  import opened Bytes

  type Id = nat
  type Key = nat
  type Pid = nat

  datatype Row = Row(size: nat, key: Key, complete: bool)

  /** Stored bytes: how many, and the at-rest keys they were encrypted under. */
  datatype Content = Content(length: nat, keys: set<Key>)

  /** What a request in flight has done so far. */
  datatype Task =
    | Opening(id: Id, size: nat, key: Key)
    | Open(id: Id, size: nat, held: Option<Key>, offset: nat)
    | Finishing(id: Id)
    | Promoted(id: Id)
    | Removing(id: Id)
    | Clearing(id: Id)

  datatype State = State(rows: map<Id, Row>, partial: map<Id, Content>, blobs: map<Id, Content>, tasks: map<Pid, Task>)

  const Empty := State(map[], map[], map[], map[])

  datatype Step =
    | Create(pid: Pid, id: Id, size: nat, key: Key)
    | Lookup(pid: Pid, id: Id)
    | Measure(pid: Pid)
    | LoadKey(pid: Pid)
      // n bytes arrive; ok unless the body breaks off; touch if a refused chunk leaves an empty partial
    | Write(pid: Pid, n: nat, ok: bool, touch: bool, finish: bool)
    | FinishEmpty(pid: Pid)
    | Promote(pid: Pid)
    | Complete(pid: Pid)
    | DeleteRow(pid: Pid, id: Id)
    | RemoveBlob(pid: Pid)
    | RemovePartial(pid: Pid)
    | Drop(pid: Pid)
    | Crash

  function Length(s: State, id: Id): nat {
    if id in s.partial then s.partial[id].length else 0
  }

  predicate Pending(s: State, id: Id) {
    id in s.rows && !s.rows[id].complete
  }

  /** Where a step can be taken. The protocol driver never writes past the declared size, and asks to finish
      only when the handle's offset is the declared size. */
  predicate Enabled(s: State, a: Step) {
    match a
    case Create(p, _, _, _) => p !in s.tasks
    case Lookup(p, _) => p !in s.tasks
    case Measure(p) => p in s.tasks && s.tasks[p].Opening?
    case LoadKey(p) => p in s.tasks && s.tasks[p].Open? && s.tasks[p].held.None?
    case Write(p, n, ok, _, finish) =>
      && p in s.tasks && s.tasks[p].Open? && s.tasks[p].held.Some? && s.tasks[p].offset + n <= s.tasks[p].size
      && (finish ==> ok && s.tasks[p].offset + n == s.tasks[p].size)
    case FinishEmpty(p) => p in s.tasks && s.tasks[p].Open? && s.tasks[p].size == 0
    case Promote(p) => p in s.tasks && s.tasks[p].Finishing?
    case Complete(p) => p in s.tasks && s.tasks[p].Promoted?
    case DeleteRow(p, _) => p !in s.tasks
    case RemoveBlob(p) => p in s.tasks && s.tasks[p].Removing?
    case RemovePartial(p) => p in s.tasks && s.tasks[p].Clearing?
    case Drop(p) => p in s.tasks
    case Crash => true
  }

  function Next(s: State, a: Step): State
    requires Enabled(s, a)
  {
    match a
    case Create(p, id, size, key) =>
      if id in s.rows then s
      else s.(rows := s.rows[id := Row(size, key, false)], tasks := s.tasks[p := Open(id, size, None, 0)])
    case Lookup(p, id) =>
      if Pending(s, id) then s.(tasks := s.tasks[p := Opening(id, s.rows[id].size, s.rows[id].key)]) else s
    case Measure(p) =>
      var t := s.tasks[p];
      s.(tasks := s.tasks[p := Open(t.id, t.size, Some(t.key), Length(s, t.id))])
    case LoadKey(p) =>
      var t := s.tasks[p];
      if Pending(s, t.id) then s.(tasks := s.tasks[p := t.(held := Some(s.rows[t.id].key))])
      else s.(tasks := s.tasks - {p})
    case Write(p, n, ok, touch, finish) => Written(s, p, n, ok, touch, finish)
    case FinishEmpty(p) => s.(tasks := s.tasks[p := Finishing(s.tasks[p].id)])
    case Promote(p) =>
      var id := s.tasks[p].id;
      if id in s.partial then
        s.(partial := s.partial - {id}, blobs := s.blobs[id := s.partial[id]], tasks := s.tasks[p := Promoted(id)])
      else s.(tasks := s.tasks - {p})
    case Complete(p) =>
      var id := s.tasks[p].id;
      var rest := s.(tasks := s.tasks - {p});
      if id in s.rows then rest.(rows := s.rows[id := s.rows[id].(complete := true)]) else rest
    case DeleteRow(p, id) => s.(rows := s.rows - {id}, tasks := s.tasks[p := Removing(id)])
    case RemoveBlob(p) =>
      var id := s.tasks[p].id;
      s.(blobs := s.blobs - {id}, tasks := s.tasks[p := Clearing(id)])
    case RemovePartial(p) => s.(partial := s.partial - {s.tasks[p].id}, tasks := s.tasks - {p})
    case Drop(p) => s.(tasks := s.tasks - {p})
    case Crash => s.(tasks := map[])
  }

  /** A chunk is appended if it starts where the partial ends, and refused otherwise. */
  function Written(s: State, p: Pid, n: nat, ok: bool, touch: bool, finish: bool): State
    requires Enabled(s, Write(p, n, ok, touch, finish))
  {
    var t := s.tasks[p];
    if t.offset != Length(s, t.id) then
      s.(partial := if touch && t.id !in s.partial then s.partial[t.id := Content(0, {})] else s.partial,
         tasks := s.tasks - {p})
    else
      var keys := (if t.id in s.partial then s.partial[t.id].keys else {}) + (if n > 0 then {t.held.value} else {});
      s.(partial := s.partial[t.id := Content(t.offset + n, keys)],
         tasks := if !ok then s.tasks - {p}
                  else if finish then s.tasks[p := Finishing(t.id)]
                  else s.tasks[p := t.(offset := t.offset + n)])
  }

  // ----- what is promised

  /** A row marked complete has a finished blob of its size, all of it under the row's own key. */
  predicate Safe(s: State) {
    forall id <- s.rows :: s.rows[id].complete ==>
        id in s.blobs && s.blobs[id].length == s.rows[id].size && s.blobs[id].keys <= {s.rows[id].key}
  }

  predicate Mentions(s: State, id: Id) {
    id in s.rows || id in s.partial || id in s.blobs || exists p <- s.tasks :: s.tasks[p].id == id
  }

  /** A creation uses an identifier nothing is left of. The table itself refuses only one that has a row. */
  predicate Fresh(s: State, a: Step) {
    a.Create? && a.id !in s.rows ==> !Mentions(s, a.id)
  }

  predicate FinishedBy(s: State, p: Pid, id: Id) {
    p in s.tasks && s.tasks[p] == Finishing(id)
  }

  /** A chunk that is accepted for a row that exists and lets its request finish the upload. */
  predicate Finishes(s: State, a: Step)
    requires Enabled(s, a)
  {
    a.Write? && a.finish && var t := s.tasks[a.pid]; t.size > 0 && t.id in s.rows && t.offset == Length(s, t.id)
  }

  /** No chunk finishes an upload that another request is already about to finish. */
  ghost predicate Lone(s: State, a: Step)
    requires Enabled(s, a)
  {
    Finishes(s, a) ==> !exists q :: q != a.pid && FinishedBy(s, q, s.tasks[a.pid].id)
  }

  ghost predicate Disciplined(s: State, a: Step) {
    Enabled(s, a) && Fresh(s, a) && Lone(s, a)
  }

  // ----- the invariant

  predicate TaskGood(s: State, t: Task) {
    match t
    case Opening(id, size, key) => id in s.rows ==> s.rows[id].size == size && s.rows[id].key == key
    case Open(id, size, held, _) =>
      id in s.rows ==> s.rows[id].size == size && (held.Some? ==> held.value == s.rows[id].key)
    case Finishing(id) =>
      id in s.rows && s.rows[id].size > 0 ==> id in s.partial && s.partial[id].length == s.rows[id].size
    case Promoted(id) => id in s.rows ==> id in s.blobs
    case Removing(id) => id !in s.rows
    case Clearing(id) => id !in s.rows
  }

  predicate RowGood(s: State, id: Id)
    requires id in s.rows
  {
    var r := s.rows[id];
    && (id in s.partial ==> s.partial[id].length <= r.size && s.partial[id].keys <= {r.key})
    && (id in s.blobs ==> s.blobs[id].length == r.size && s.blobs[id].keys <= {r.key})
    && (r.complete ==> id in s.blobs)
  }

  ghost predicate OneFinisher(s: State) {
    forall p, q, id :: FinishedBy(s, p, id) && FinishedBy(s, q, id) && id in s.rows && s.rows[id].size > 0 ==> p == q
  }

  ghost predicate Good(s: State) {
    && (forall p <- s.tasks :: TaskGood(s, s.tasks[p]))
    && (forall id <- s.rows :: RowGood(s, id))
    && OneFinisher(s)
  }

  lemma GoodIsSafe(s: State)
    requires Good(s)
    ensures Safe(s)
  {}

  /** Every disciplined step keeps the invariant. */
  lemma StepKeepsGood(s: State, a: Step)
    requires Good(s) && Disciplined(s, a)
    ensures Good(Next(s, a))
  {
    match a
    case Create(_, _, _, _) => CreateKeepsGood(s, a);
    case Write(_, _, _, _, _) => WriteKeepsGood(s, a);
    case Promote(_) => PromoteKeepsGood(s, a);
    case Complete(_) => CompleteKeepsGood(s, a);
    case DeleteRow(_, _) => RemovalKeepsGood(s, a);
    case RemoveBlob(_) => RemovalKeepsGood(s, a);
    case RemovePartial(_) => RemovalKeepsGood(s, a);
    case Drop(_) => LossKeepsGood(s, a);
    case Crash => LossKeepsGood(s, a);
    case FinishEmpty(_) => FinishEmptyKeepsGood(s, a);
    case _ => HandleKeepsGood(s, a);
  }

  lemma CreateKeepsGood(s: State, a: Step)
    requires Good(s) && Disciplined(s, a) && a.Create?
    ensures Good(Next(s, a))
  {
    var t := Next(s, a);
    forall p <- t.tasks ensures TaskGood(t, t.tasks[p]) {
      if p in s.tasks { assert TaskGood(s, s.tasks[p]); }
    }
    forall id <- t.rows ensures RowGood(t, id) {
      if id in s.rows { assert RowGood(s, id); }
    }
    assert forall p, id :: FinishedBy(t, p, id) ==> FinishedBy(s, p, id);
  }

  lemma WriteKeepsGood(s: State, a: Step)
    requires Good(s) && Disciplined(s, a) && a.Write?
    ensures Good(Next(s, a))
  {
    var t := Next(s, a);
    hide TaskGood, RowGood, Lone, Fresh;
    forall p <- t.tasks ensures TaskGood(t, t.tasks[p]) {
      WriteKeepsTask(s, a, p);
    }
    forall id <- t.rows ensures RowGood(t, id) {
      WriteKeepsRow(s, a, id);
    }
    WriteKeepsOneFinisher(s, a);
  }

  lemma WriteKeepsTask(s: State, a: Step, p: Pid)
    requires Good(s) && Disciplined(s, a) && a.Write? && p in Next(s, a).tasks
    ensures TaskGood(Next(s, a), Next(s, a).tasks[p])
  {
    hide OneFinisher, Lone;
    var task := s.tasks[a.pid];
    assert TaskGood(s, task) && TaskGood(s, s.tasks[p]);
    assert task.id in s.rows ==> RowGood(s, task.id);
  }

  lemma WriteKeepsRow(s: State, a: Step, id: Id)
    requires Good(s) && Disciplined(s, a) && a.Write? && id in s.rows
    ensures RowGood(Next(s, a), id)
  {}

  lemma WriteKeepsOneFinisher(s: State, a: Step)
    requires Good(s) && Disciplined(s, a) && a.Write?
    ensures OneFinisher(Next(s, a))
  {
    hide RowGood;
    assert TaskGood(s, s.tasks[a.pid]);
    assert forall p, id :: p != a.pid && FinishedBy(Next(s, a), p, id) ==> FinishedBy(s, p, id);
  }

  lemma PromoteKeepsGood(s: State, a: Step)
    requires Good(s) && Disciplined(s, a) && a.Promote?
    ensures Good(Next(s, a))
  {
    var t := Next(s, a);
    assert TaskGood(s, s.tasks[a.pid]);
    assert FinishedBy(s, a.pid, s.tasks[a.pid].id);
    forall p <- t.tasks ensures TaskGood(t, t.tasks[p]) {
      assert TaskGood(s, s.tasks[p]);
      assert p != a.pid && s.tasks[p].Finishing? ==> FinishedBy(s, p, s.tasks[p].id);
    }
    forall id <- t.rows ensures RowGood(t, id) {
      assert RowGood(s, id);
    }
    assert forall p, id :: FinishedBy(t, p, id) ==> FinishedBy(s, p, id);
  }

  /** The end of a request, and of all of them. */
  lemma LossKeepsGood(s: State, a: Step)
    requires Good(s) && Disciplined(s, a) && (a.Drop? || a.Crash?)
    ensures Good(Next(s, a))
  {
    var t := Next(s, a);
    forall p <- t.tasks ensures TaskGood(t, t.tasks[p]) {
      assert TaskGood(s, s.tasks[p]);
    }
    forall id <- t.rows ensures RowGood(t, id) {
      assert RowGood(s, id);
    }
    assert forall p, id :: FinishedBy(t, p, id) ==> FinishedBy(s, p, id);
  }

  /** The steps of a handle that store nothing. */
  lemma HandleKeepsGood(s: State, a: Step)
    requires Good(s) && Disciplined(s, a) && (a.Lookup? || a.Measure? || a.LoadKey?)
    ensures Good(Next(s, a))
  {
    hide Fresh, Lone;
    var t := Next(s, a);
    assert !a.Lookup? ==> TaskGood(s, s.tasks[a.pid]);
    forall p <- t.tasks ensures TaskGood(t, t.tasks[p]) {
      assert p in s.tasks ==> TaskGood(s, s.tasks[p]);
    }
    forall id <- t.rows ensures RowGood(t, id) {
      assert RowGood(s, id);
    }
    assert forall p, id :: FinishedBy(t, p, id) ==> FinishedBy(s, p, id);
  }

  /** An upload of nothing is finished at once. */
  lemma FinishEmptyKeepsGood(s: State, a: Step)
    requires Good(s) && Disciplined(s, a) && a.FinishEmpty?
    ensures Good(Next(s, a))
  {
    hide Fresh, Lone;
    var t := Next(s, a);
    assert TaskGood(s, s.tasks[a.pid]);
    forall p <- t.tasks ensures TaskGood(t, t.tasks[p]) {
      assert TaskGood(s, s.tasks[p]);
    }
    forall id <- t.rows ensures RowGood(t, id) {
      assert RowGood(s, id);
    }
    assert forall p, id :: FinishedBy(t, p, id) && id in t.rows && t.rows[id].size > 0 ==> FinishedBy(s, p, id);
  }

  lemma CompleteKeepsGood(s: State, a: Step)
    requires Good(s) && Disciplined(s, a) && a.Complete?
    ensures Good(Next(s, a))
  {
    var t := Next(s, a);
    assert TaskGood(s, s.tasks[a.pid]);
    forall p <- t.tasks ensures TaskGood(t, t.tasks[p]) {
      assert TaskGood(s, s.tasks[p]);
    }
    forall id <- t.rows ensures RowGood(t, id) {
      assert RowGood(s, id);
    }
    assert forall p, id :: FinishedBy(t, p, id) ==> FinishedBy(s, p, id);
  }

  lemma RemovalKeepsGood(s: State, a: Step)
    requires Good(s) && Disciplined(s, a) && (a.DeleteRow? || a.RemoveBlob? || a.RemovePartial?)
    ensures Good(Next(s, a))
  {
    var t := Next(s, a);
    assert !a.DeleteRow? ==> TaskGood(s, s.tasks[a.pid]);
    forall p <- t.tasks ensures TaskGood(t, t.tasks[p]) {
      assert p in s.tasks ==> TaskGood(s, s.tasks[p]);
    }
    forall id <- t.rows ensures RowGood(t, id) {
      assert RowGood(s, id);
    }
    assert forall p, id :: FinishedBy(t, p, id) ==> FinishedBy(s, p, id);
  }

  // ----- runs

  predicate Run(s: State, steps: seq<Step>)
    decreases |steps|
  {
    steps != [] ==> Enabled(s, steps[0]) && Run(Next(s, steps[0]), steps[1..])
  }

  ghost predicate DisciplinedRun(s: State, steps: seq<Step>)
    decreases |steps|
  {
    steps != [] ==> Disciplined(s, steps[0]) && DisciplinedRun(Next(s, steps[0]), steps[1..])
  }

  function After(s: State, steps: seq<Step>): State
    requires Run(s, steps)
    decreases |steps|
  {
    if steps == [] then s else After(Next(s, steps[0]), steps[1..])
  }

  /** Every run keeps the promise, whatever the interleaving and wherever it crashes. */
  lemma {:induction false} DisciplinedRunsAreSafe(s: State, steps: seq<Step>)
    requires Good(s) && DisciplinedRun(s, steps)
    ensures Run(s, steps) && Good(After(s, steps)) && Safe(After(s, steps))
    decreases |steps|
  {
    hide Good, Disciplined, Next, Safe;
    if steps == [] {
      GoodIsSafe(s);
    } else {
      assert Enabled(s, steps[0]) by { DisciplinedIsEnabled(s, steps[0]); }
      StepKeepsGood(s, steps[0]);
      DisciplinedRunsAreSafe(Next(s, steps[0]), steps[1..]);
    }
  }

  lemma DisciplinedIsEnabled(s: State, a: Step)
    requires Disciplined(s, a)
    ensures Enabled(s, a)
  {}

  // ----- when requests are disciplined

  /** The driver asks to finish after a chunk that moved the offset to the size, never after an empty one. */
  predicate Reaching(a: Step) {
    a.Write? && a.finish ==> a.n > 0
  }

  /** Such a driver needs no lock. */
  lemma ReachingIsLone(s: State, a: Step)
    requires Good(s) && Enabled(s, a) && Reaching(a)
    ensures Lone(s, a)
  {}

  predicate ReachingRun(s: State, steps: seq<Step>)
    decreases |steps|
  {
    steps != [] ==>
      && Enabled(s, steps[0]) && Fresh(s, steps[0]) && Reaching(steps[0]) && ReachingRun(Next(s, steps[0]), steps[1..])
  }

  lemma {:induction false} ReachingRunIsDisciplined(s: State, steps: seq<Step>)
    requires Good(s) && ReachingRun(s, steps)
    ensures DisciplinedRun(s, steps)
    decreases |steps|
  {
    hide Good, Next, Fresh, Reaching, Lone, Enabled;
    if steps != [] {
      ReachingIsLone(s, steps[0]);
      StepKeepsGood(s, steps[0]);
      ReachingRunIsDisciplined(Next(s, steps[0]), steps[1..]);
    }
  }

  /** From an empty store, unserialised requests of such a driver never break the promise. */
  lemma ServiceIsSafe(steps: seq<Step>)
    requires ReachingRun(Empty, steps)
    ensures Run(Empty, steps) && Safe(After(Empty, steps))
  {
    ReachingRunIsDisciplined(Empty, steps);
    DisciplinedRunsAreSafe(Empty, steps);
  }

  predicate Works(s: State, p: Pid, id: Id) {
    p in s.tasks && s.tasks[p].id == id && !s.tasks[p].Removing? && !s.tasks[p].Clearing?
  }

  /** At most one request works on each upload, as a locker would have it; then any driver will do. */
  ghost predicate Serial(s: State) {
    forall p, q, id :: Works(s, p, id) && Works(s, q, id) ==> p == q
  }

  lemma SerialIsLone(s: State, a: Step)
    requires Serial(s) && Enabled(s, a)
    ensures Lone(s, a)
  {
    if Finishes(s, a) {
      var id := s.tasks[a.pid].id;
      assert Works(s, a.pid, id);
      assert forall q :: FinishedBy(s, q, id) ==> Works(s, q, id);
    }
  }

  /** What a driver that also finishes after empty chunks can lead to, from the second finisher on. */
  function Trouble(s: State, a: Step, q: Pid, p: Pid): seq<Step>
    requires Enabled(s, a) && a.Write?
  {
    [Lookup(p, s.tasks[a.pid].id), Promote(q), Complete(q), Measure(p), Write(p, 0, true, false, false), Promote(a.pid)]
  }

  lemma {:induction false} SecondFinisherIsTrouble(s: State, a: Step, q: Pid, p: Pid)
    requires Good(s) && Enabled(s, a) && Finishes(s, a) && Pending(s, s.tasks[a.pid].id)
    requires q != a.pid && FinishedBy(s, q, s.tasks[a.pid].id) && p !in s.tasks
    ensures var t := Next(s, a);
            var steps := Trouble(s, a, q, p);
            Run(t, steps) && DisciplinedRun(t, steps) && !Safe(After(t, steps))
  {
    var id := s.tasks[a.pid].id;
    var t0 := Next(s, a);
    assert TaskGood(s, s.tasks[a.pid]);
    assert FinishedBy(t0, a.pid, id) && FinishedBy(t0, q, id) && p !in t0.tasks && Pending(t0, id) && id in t0.partial;
    TroubleRuns(t0, id, a.pid, q, p);
  }

  lemma {:induction false} TroubleRuns(t0: State, id: Id, p0: Pid, q: Pid, p: Pid)
    requires p0 != q && FinishedBy(t0, p0, id) && FinishedBy(t0, q, id) && p !in t0.tasks
    requires Pending(t0, id) && t0.rows[id].size > 0 && id in t0.partial
    ensures var w := Write(p, 0, true, false, false);
            var steps := [Lookup(p, id), Promote(q), Complete(q), Measure(p), w, Promote(p0)];
            Run(t0, steps) && DisciplinedRun(t0, steps) && !Safe(After(t0, steps))
  {
    var t1 := Next(t0, Lookup(p, id));
    var t2 := Next(t1, Promote(q));
    var t3 := Next(t2, Complete(q));
    var w := Write(p, 0, true, false, false);
    TroubleEnds(t3, id, p0, p);
    RunOne(t2, Complete(q), [Measure(p), w, Promote(p0)]);
    RunOne(t1, Promote(q), [Complete(q), Measure(p), w, Promote(p0)]);
    RunOne(t0, Lookup(p, id), [Promote(q), Complete(q), Measure(p), w, Promote(p0)]);
  }

  /** A handle opened in between starts again from nothing, and the late finisher promotes that. */
  lemma {:induction false} TroubleEnds(t0: State, id: Id, p0: Pid, p: Pid)
    requires id in t0.rows && t0.rows[id].complete && t0.rows[id].size > 0 && id !in t0.partial
    requires FinishedBy(t0, p0, id) && p in t0.tasks && t0.tasks[p].Opening? && t0.tasks[p].id == id
    ensures var steps := [Measure(p), Write(p, 0, true, false, false), Promote(p0)];
            Run(t0, steps) && DisciplinedRun(t0, steps) && !Safe(After(t0, steps))
  {
    var t1 := Next(t0, Measure(p));
    var w := Write(p, 0, true, false, false);
    var t2 := Next(t1, w);
    var t3 := Next(t2, Promote(p0));
    assert t3.rows[id].complete && t3.blobs[id].length == 0 && t3.rows[id].size > 0;
    RunOne(t2, Promote(p0), []);
    RunOne(t1, w, [Promote(p0)]);
    RunOne(t0, Measure(p), [w, Promote(p0)]);
  }

  lemma {:induction false} RunOne(s: State, a: Step, rest: seq<Step>)
    requires Disciplined(s, a) && Run(Next(s, a), rest) && DisciplinedRun(Next(s, a), rest)
    ensures Run(s, [a] + rest) && DisciplinedRun(s, [a] + rest) && After(s, [a] + rest) == After(Next(s, a), rest)
  {}

  /**
   Exactly when a finishing chunk for a pending row is harmless: whatever disciplined steps follow
   it, the promise holds, if and only if no other request is already finishing that upload.
   */
  lemma FinishIsSafeExactlyWhenLone(s: State, a: Step)
    requires Good(s) && Enabled(s, a) && Finishes(s, a) && Pending(s, s.tasks[a.pid].id)
    ensures Lone(s, a) <==> forall steps | DisciplinedRun(Next(s, a), steps) && Run(Next(s, a), steps) ::
                Safe(After(Next(s, a), steps))
  {
    hide Good, Run, DisciplinedRun, Safe, After, Trouble;
    var t := Next(s, a);
    if Lone(s, a) {
      StepKeepsGood(s, a);
      forall steps | DisciplinedRun(t, steps) && Run(t, steps) ensures Safe(After(t, steps)) {
        DisciplinedRunsAreSafe(t, steps);
      }
    } else {
      var q :| q != a.pid && FinishedBy(s, q, s.tasks[a.pid].id);
      var p := FreePid(s.tasks);
      SecondFinisherIsTrouble(s, a, q, p);
    }
  }

  /** Two requests for one upload of one byte, the second with an empty chunk. */
  const Prelude: seq<Step> :=
    [Create(0, 7, 1, 9), LoadKey(0), Write(0, 1, true, false, true), Lookup(1, 7), Measure(1)]

  const EmptyChunk := Write(1, 0, true, false, true)

  lemma EmptyIsGood()
    ensures Good(Empty)
  {}

  lemma PreludeRuns() returns (s: State)
    ensures Run(Empty, Prelude) && s == After(Empty, Prelude) && Good(s) && Enabled(s, EmptyChunk)
    ensures Finishes(s, EmptyChunk)
    ensures Pending(s, 7) && s.tasks[1].id == 7 && FinishedBy(s, 0, 7) && 2 !in s.tasks
  {
    hide Good;
    var s1 := Next(Empty, Create(0, 7, 1, 9));
    var s2 := Next(s1, LoadKey(0));
    var s3 := Next(s2, Write(0, 1, true, false, true));
    var s4 := Next(s3, Lookup(1, 7));
    s := Next(s4, Measure(1));
    RunOne(s4, Measure(1), []);
    RunOne(s3, Lookup(1, 7), [Measure(1)]);
    RunOne(s2, Write(0, 1, true, false, true), [Lookup(1, 7), Measure(1)]);
    RunOne(s1, LoadKey(0), [Write(0, 1, true, false, true), Lookup(1, 7), Measure(1)]);
    RunOne(Empty, Create(0, 7, 1, 9), [LoadKey(0), Write(0, 1, true, false, true), Lookup(1, 7), Measure(1)]);
    EmptyIsGood();
    DisciplinedRunsAreSafe(Empty, Prelude);
  }

  lemma {:induction false} RunAppend(s: State, first: seq<Step>, second: seq<Step>)
    requires Run(s, first) && Run(After(s, first), second)
    ensures Run(s, first + second) && After(s, first + second) == After(After(s, first), second)
    decreases |first|
  {
    if first == [] {
      assert first + second == second;
    } else {
      assert (first + second)[1..] == first[1..] + second;
      RunAppend(Next(s, first[0]), first[1..], second);
    }
  }

  /** Without a lock, finishing after empty chunks does break the promise: a recipient is left with no byte. */
  lemma EmptyChunksAreNotSafe()
    ensures exists steps :: Run(Empty, steps) && !Safe(After(Empty, steps))
  {
    var s := PreludeRuns();
    hide Good, Next, Enabled, Safe;
    SecondFinisherIsTrouble(s, EmptyChunk, 0, 2);
    var rest := Trouble(s, EmptyChunk, 0, 2);
    assert ([EmptyChunk] + rest)[1..] == rest;
    RunAppend(Empty, Prelude, [EmptyChunk] + rest);
  }

  ghost function FreePid(tasks: map<Pid, Task>): (p: Pid)
    ensures p !in tasks
  {
    FreeNat(tasks.Keys);
    var p: nat :| p !in tasks; p
  }

  lemma {:induction false} FreeNat(used: set<nat>)
    ensures exists p: nat :: p !in used && forall q <- used :: q < p
  {
    if used == {} {
      assert 0 !in used;
    } else {
      var q :| q in used;
      FreeNat(used - {q});
      var p: nat :| p !in used - {q} && forall r <- used - {q} :: r < p;
      var top := if p > q then p else q + 1;
      forall r | r in used ensures r < top {
        assert r == q || r in used - {q};
      }
      assert top !in used;
    }
  }

  // ----- the order of removal

  /** A blob, or a partial that is not being promoted, is taken away only when its row and key are gone. */
  lemma RowGoneFirst(s: State, a: Step, id: Id)
    requires Good(s) && Enabled(s, a)
    ensures id in s.blobs && id !in Next(s, a).blobs ==> id !in s.rows
    ensures id in s.partial && id !in Next(s, a).partial ==> id !in s.rows || id in Next(s, a).blobs
    ensures id in s.blobs && id in s.rows && s.rows[id].complete && id in Next(s, a).rows ==> id in Next(s, a).blobs
  {
    assert a.RemoveBlob? || a.RemovePartial? ==> TaskGood(s, s.tasks[a.pid]);
  }

  // ----- what a deletion leaves

  /** Whether a request that is on its way when the row is gone can still store something. */
  predicate Harmless(s: State, t: Task) {
    match t
    case Opening(_, _, _) => false
    case Open(id, size, held, offset) => (held.None? || offset > size) && (size == 0 ==> id !in s.partial)
    case Finishing(id) => id !in s.partial
    case _ => true
  }

  predicate Quiet(s: State, id: Id) {
    id !in s.rows && forall p <- s.tasks :: s.tasks[p].id == id ==> Harmless(s, s.tasks[p])
  }

  predicate Creates(a: Step, id: Id) { a.Create? && a.id == id }

  /** With the row gone and no such request, nothing new is stored. */
  lemma QuietStep(s: State, a: Step, id: Id)
    requires Quiet(s, id) && Enabled(s, a) && !Creates(a, id)
    ensures Quiet(Next(s, a), id)
    ensures id !in s.partial ==> id !in Next(s, a).partial
    ensures id !in s.blobs ==> id !in Next(s, a).blobs
  {
    var t := Next(s, a);
    forall p <- t.tasks | t.tasks[p].id == id ensures Harmless(t, t.tasks[p]) {
      assert p in s.tasks && s.tasks[p].id == id ==> Harmless(s, s.tasks[p]);
    }
  }

  predicate NoCreation(steps: seq<Step>, id: Id) { forall i :: 0 <= i < |steps| ==> !Creates(steps[i], id) }

  lemma {:induction false} QuietRun(s: State, steps: seq<Step>, id: Id)
    requires Quiet(s, id) && Run(s, steps) && NoCreation(steps, id)
    ensures Quiet(After(s, steps), id)
    ensures id !in s.partial ==> id !in After(s, steps).partial
    ensures id !in s.blobs ==> id !in After(s, steps).blobs
    decreases |steps|
  {
    hide Quiet, Next, Enabled, Creates;
    if steps != [] {
      QuietStep(s, steps[0], id);
      QuietRun(Next(s, steps[0]), steps[1..], id);
    }
  }

  /** Steps that leave one request alone: none of its own, and no crash. */
  predicate Spares(steps: seq<Step>, p: Pid) {
    forall i :: 0 <= i < |steps| ==> !steps[i].Crash? && steps[i].pid != p
  }

  lemma {:induction false} SparedTask(s: State, steps: seq<Step>, p: Pid)
    requires Run(s, steps) && Spares(steps, p) && p in s.tasks
    ensures p in After(s, steps).tasks && After(s, steps).tasks[p] == s.tasks[p]
    decreases |steps|
  {
    if steps != [] {
      SpareStep(s, steps[0], p);
      hide Next, Enabled;
      SparedTask(Next(s, steps[0]), steps[1..], p);
    }
  }

  lemma SpareStep(s: State, a: Step, p: Pid)
    requires Enabled(s, a) && !a.Crash? && a.pid != p && p in s.tasks
    ensures p in Next(s, a).tasks && Next(s, a).tasks[p] == s.tasks[p]
  {}

  lemma {:induction false} RunSplit(s: State, first: seq<Step>, second: seq<Step>)
    requires Run(s, first + second)
    ensures Run(s, first) && Run(After(s, first), second) && After(s, first + second) == After(After(s, first), second)
    decreases |first|
  {
    hide Next, Enabled;
    if first == [] {
      assert first + second == second;
    } else {
      assert (first + second)[1..] == first[1..] + second;
      RunSplit(Next(s, first[0]), first[1..], second);
    }
  }

  /** A deletion that comes to its end, with anything at all before, between and after its two steps. */
  function DeletionRun(p: Pid, first: seq<Step>, second: seq<Step>, third: seq<Step>): seq<Step> {
    first + ([RemoveBlob(p)] + (second + ([RemovePartial(p)] + third)))
  }

  predicate Deletion(s: State, p: Pid, id: Id, first: seq<Step>, second: seq<Step>, third: seq<Step>) {
    var steps := DeletionRun(p, first, second, third);
    Run(s, steps) && NoCreation(steps, id) && Spares(first, p) && Spares(second, p)
  }

  predicate Nothing(s: State, id: Id) { id !in s.rows && id !in s.partial && id !in s.blobs }

  ghost predicate LeavesNothing(s: State, p: Pid, id: Id) {
    forall first, second, third :: Deletion(s, p, id, first, second, third) ==>
      Nothing(After(s, DeletionRun(p, first, second, third)), id)
  }

  lemma {:induction false} QuietDeletion(s: State, p: Pid, id: Id, first: seq<Step>, second: seq<Step>,
                                         third: seq<Step>)
    requires Quiet(s, id) && p in s.tasks && s.tasks[p] == Removing(id) && Deletion(s, p, id, first, second, third)
    ensures Nothing(After(s, DeletionRun(p, first, second, third)), id)
  {
    var tail := [RemovePartial(p)] + third;
    var middle := second + tail;
    var rest := [RemoveBlob(p)] + middle;
    var all := DeletionRun(p, first, second, third);
    assert all == first + rest;
    assert NoCreation(first, id) && NoCreation(second, id) && NoCreation(third, id) by {
      Parts(first, second, third, p, id);
    }
    hide Quiet, Harmless, NoCreation, Spares;
    RunSplit(s, first, rest);
    SparedTask(s, first, p);
    QuietRun(s, first, id);
    var s1 := After(s, first);
    assert rest[1..] == middle && rest[0] == RemoveBlob(p);
    QuietStep(s1, RemoveBlob(p), id);
    var s2 := Next(s1, RemoveBlob(p));
    RunSplit(s2, second, tail);
    SparedTask(s2, second, p);
    QuietRun(s2, second, id);
    var s3 := After(s2, second);
    assert tail[1..] == third && tail[0] == RemovePartial(p);
    QuietStep(s3, RemovePartial(p), id);
    var s4 := Next(s3, RemovePartial(p));
    QuietRun(s4, third, id);
    QuietHasNoRow(After(s4, third), id);
  }

  lemma QuietHasNoRow(s: State, id: Id)
    requires Quiet(s, id)
    ensures id !in s.rows
  {}

  lemma Parts(first: seq<Step>, second: seq<Step>, third: seq<Step>, p: Pid, id: Id)
    requires NoCreation(DeletionRun(p, first, second, third), id)
    ensures NoCreation(first, id) && NoCreation(second, id) && NoCreation(third, id)
  {
    var all := DeletionRun(p, first, second, third);
    assert forall i :: 0 <= i < |first| ==> all[i] == first[i];
    assert forall i :: 0 <= i < |second| ==> all[|first| + 1 + i] == second[i];
    assert forall i :: 0 <= i < |third| ==> all[|first| + 1 + |second| + 1 + i] == third[i];
  }

  /** A request that is not harmless can store something after, or between, the steps of the deletion. */
  lemma {:induction false} LateRequest(s: State, p: Pid, id: Id, q: Pid)
    requires id !in s.rows && p in s.tasks && s.tasks[p] == Removing(id)
    requires q in s.tasks && s.tasks[q].id == id && !Harmless(s, s.tasks[q])
    ensures !LeavesNothing(s, p, id)
  {
    var t := s.tasks[q];
    if t.Opening? {
      LateOpening(s, p, id, q);
    } else if t.Open? && t.held.Some? && t.offset <= t.size {
      LateWrite(s, p, id, q);
    } else if t.Open? {
      LateFinish(s, p, id, q, [FinishEmpty(q), Promote(q)]);
    } else {
      LateFinish(s, p, id, q, [Promote(q)]);
    }
  }

  function Removed(s: State, p: Pid): State
    requires Enabled(s, RemoveBlob(p))
  {
    Next(Next(s, RemoveBlob(p)), RemovePartial(p))
  }

  /** Both steps of the deletion, and then the rest. */
  lemma {:induction false} DeletedFirst(s: State, p: Pid, id: Id, rest: seq<Step>)
    requires p in s.tasks && s.tasks[p] == Removing(id) && Run(Removed(s, p), rest) && NoCreation(rest, id)
    requires !Nothing(After(Removed(s, p), rest), id)
    ensures !LeavesNothing(s, p, id)
  {
    RunsTo(Next(s, RemoveBlob(p)), RemovePartial(p), rest);
    RunsTo(s, RemoveBlob(p), [RemovePartial(p)] + rest);
    hide Next, Enabled, Run, After, Nothing;
    assert [] + ([RemovePartial(p)] + rest) == [RemovePartial(p)] + rest;
    Refutes(s, p, id, [], rest);
  }

  lemma RemovedTasks(s: State, p: Pid, id: Id)
    requires p in s.tasks && s.tasks[p] == Removing(id)
    ensures Removed(s, p).tasks == s.tasks - {p} && id !in Removed(s, p).partial
  {}

  /** An empty chunk leaves an empty partial, whether it is accepted or refused. */
  lemma {:induction false} StoredByWrite(s: State, id: Id, q: Pid)
    requires id !in s.partial && q in s.tasks && s.tasks[q].Open? && s.tasks[q].id == id && s.tasks[q].held.Some?
    requires s.tasks[q].offset <= s.tasks[q].size
    ensures var rest := [Write(q, 0, true, true, false), Crash]; Run(s, rest) && !Nothing(After(s, rest), id)
  {
    var w := Write(q, 0, true, true, false);
    var t := Next(s, w);
    assert id in t.partial && id in Next(t, Crash).partial;
    hide Next, Enabled;
    RunsTo(t, Crash, []);
    RunsTo(s, w, [Crash]);
  }

  lemma {:induction false} LateWrite(s: State, p: Pid, id: Id, q: Pid)
    requires p in s.tasks && s.tasks[p] == Removing(id)
    requires q in s.tasks && s.tasks[q].Open? && s.tasks[q].id == id && s.tasks[q].held.Some?
    requires s.tasks[q].offset <= s.tasks[q].size
    ensures !LeavesNothing(s, p, id)
  {
    RemovedTasks(s, p, id);
    hide Removed;
    StoredByWrite(Removed(s, p), id, q);
    DeletedFirst(s, p, id, [Write(q, 0, true, true, false), Crash]);
  }

  lemma {:induction false} LateOpening(s: State, p: Pid, id: Id, q: Pid)
    requires p in s.tasks && s.tasks[p] == Removing(id)
    requires q in s.tasks && s.tasks[q].Opening? && s.tasks[q].id == id
    ensures !LeavesNothing(s, p, id)
  {
    RemovedTasks(s, p, id);
    var t := Removed(s, p);
    var rest := [Write(q, 0, true, true, false), Crash];
    hide Removed;
    StoredByWrite(Next(t, Measure(q)), id, q);
    RunsTo(t, Measure(q), rest);
    DeletedFirst(s, p, id, [Measure(q)] + rest);
  }

  lemma {:induction false} LateFinish(s: State, p: Pid, id: Id, q: Pid, between: seq<Step>)
    requires id in s.partial && p in s.tasks && s.tasks[p] == Removing(id) && q in s.tasks && s.tasks[q].id == id
    requires
      || (s.tasks[q].Finishing? && between == [Promote(q)])
      || (s.tasks[q].Open? && s.tasks[q].size == 0 && between == [FinishEmpty(q), Promote(q)])
    ensures !LeavesNothing(s, p, id)
  {
    var s1 := Next(s, RemoveBlob(p));
    var rest := [RemovePartial(p)] + [Crash];
    if s.tasks[q].Open? {
      var s2 := Next(s1, FinishEmpty(q));
      StoredByPromote(s2, p, id, q);
      RunsTo(s1, FinishEmpty(q), [Promote(q)] + rest);
      assert between + rest == [FinishEmpty(q)] + ([Promote(q)] + rest);
    } else {
      StoredByPromote(s1, p, id, q);
      assert between + rest == [Promote(q)] + rest;
    }
    RunsTo(s, RemoveBlob(p), between + rest);
    hide Next, Enabled, Run, After, Nothing;
    Refutes(s, p, id, between, [Crash]);
  }

  /** A partial promoted between the two steps of the deletion is out of its reach. */
  lemma {:induction false} StoredByPromote(s: State, p: Pid, id: Id, q: Pid)
    requires id in s.partial && p in s.tasks && s.tasks[p] == Clearing(id) && q in s.tasks
    requires s.tasks[q] == Finishing(id)
    ensures var rest := [Promote(q)] + ([RemovePartial(p)] + [Crash]); Run(s, rest) && !Nothing(After(s, rest), id)
  {
    var s1 := Next(s, Promote(q));
    var s2 := Next(s1, RemovePartial(p));
    assert id in s2.blobs && id in Next(s2, Crash).blobs;
    hide Next, Enabled;
    RunsTo(s2, Crash, []);
    RunsTo(s1, RemovePartial(p), [Crash]);
    RunsTo(s, Promote(q), [RemovePartial(p)] + [Crash]);
  }

  lemma {:induction false} RunsTo(s: State, a: Step, rest: seq<Step>)
    requires Enabled(s, a) && Run(Next(s, a), rest)
    ensures Run(s, [a] + rest) && After(s, [a] + rest) == After(Next(s, a), rest)
  {
    assert ([a] + rest)[1..] == rest;
  }

  lemma Refutes(s: State, p: Pid, id: Id, second: seq<Step>, third: seq<Step>)
    requires var steps := [RemoveBlob(p)] + (second + ([RemovePartial(p)] + third));
             Run(s, steps) && NoCreation(steps, id) && !Nothing(After(s, steps), id)
    requires Spares(second, p)
    ensures !LeavesNothing(s, p, id)
  {
    hide Run, After, NoCreation, Nothing;
    assert DeletionRun(p, [], second, third) == [RemoveBlob(p)] + (second + ([RemovePartial(p)] + third));
    assert Deletion(s, p, id, [], second, third);
  }

  /**
   A deletion that comes to its end leaves nothing behind, whatever else happens, if and only if no
   request that can still store something was on its way when the row was gone.
   */
  lemma DeletionLeavesNothingExactly(s: State, p: Pid, id: Id)
    requires id !in s.rows && p in s.tasks && s.tasks[p] == Removing(id)
    ensures LeavesNothing(s, p, id) <==> Quiet(s, id)
  {
    if Quiet(s, id) {
      forall first, second, third | Deletion(s, p, id, first, second, third)
        ensures Nothing(After(s, DeletionRun(p, first, second, third)), id)
      {
        QuietDeletion(s, p, id, first, second, third);
      }
    } else {
      var q :| q in s.tasks && s.tasks[q].id == id && !Harmless(s, s.tasks[q]);
      LateRequest(s, p, id, q);
    }
  }

  /** An upload deleted while its first request still holds the key. */
  const DeletedTooSoon: seq<Step> := [Create(0, 7, 1, 9), LoadKey(0), DeleteRow(1, 7)]

  /** A deletion that comes to its end and leaves something behind. */
  lemma DeletionCanLeaveSomething()
    ensures Run(Empty, DeletedTooSoon)
    ensures var s := After(Empty, DeletedTooSoon); 1 in s.tasks && s.tasks[1] == Removing(7) && !LeavesNothing(s, 1, 7)
  {
    var s1 := Next(Empty, Create(0, 7, 1, 9));
    var s2 := Next(s1, LoadKey(0));
    var s := Next(s2, DeleteRow(1, 7));
    assert 7 !in s.rows && s.tasks[1] == Removing(7) && s.tasks[0] == Open(7, 1, Some(9), 0);
    assert !Harmless(s, s.tasks[0]);
    hide Next, Enabled;
    RunsTo(s2, DeleteRow(1, 7), []);
    RunsTo(s1, LoadKey(0), [DeleteRow(1, 7)]);
    RunsTo(Empty, Create(0, 7, 1, 9), [LoadKey(0), DeleteRow(1, 7)]);
    LateRequest(s, 1, 7, 0);
  }

  // ----- fresh identifiers

  predicate Names(a: Step, id: Id) {
    (a.Create? || a.DeleteRow?) && a.id == id
  }

  lemma StepMentions(s: State, a: Step, id: Id)
    requires Enabled(s, a) && !Mentions(s, id) && !Names(a, id)
    ensures !Mentions(Next(s, a), id)
  {}

  /** An identifier that no creation or deletion has named before is fresh. */
  lemma {:induction false} UnnamedIsFresh(s: State, steps: seq<Step>, id: Id)
    requires Run(s, steps) && !Mentions(s, id) && forall i :: 0 <= i < |steps| ==> !Names(steps[i], id)
    ensures !Mentions(After(s, steps), id)
    decreases |steps|
  {
    hide Mentions, Next, Enabled;
    if steps != [] {
      StepMentions(s, steps[0], id);
      UnnamedIsFresh(Next(s, steps[0]), steps[1..], id);
    }
  }
}
