/**
 When a second finisher is harmless, for any row: the exact condition behind the promise that a complete
 row keeps a finished blob of its size.
 */
module LifecycleFinish {
  import opened Bytes
  import opened Lifecycle

  /** A handle that can still put something where the partial was. */
  predicate CanStore(t: Task, id: Id) {
    t.id == id && (t.Opening? || (t.Open? && t.held.Some? && t.offset <= t.size))
  }

  predicate AnyStorer(s: State, id: Id) { exists p <- s.tasks :: CanStore(s.tasks[p], id) }

  /** The requests, and the state, without those that are about to finish one upload. */
  function Others(tasks: map<Pid, Task>, id: Id): map<Pid, Task> {
    map p <- tasks | tasks[p] != Finishing(id) :: tasks[p]
  }

  function Without(s: State, id: Id): State { s.(tasks := Others(s.tasks, id)) }

  lemma OthersUpdated(tasks: map<Pid, Task>, id: Id, p: Pid, t: Task)
    requires t != Finishing(id)
    ensures Others(tasks[p := t], id) == Others(tasks, id)[p := t]
  {}

  lemma OthersRemoved(tasks: map<Pid, Task>, id: Id, p: Pid)
    ensures Others(tasks - {p}, id) == Others(tasks, id) - {p}
  {}

  /** A complete row with any number of finishers, where whatever they can promote has its size. */
  ghost predicate Settled(s: State, id: Id) {
    && Good(Without(s, id)) && id in s.rows && s.rows[id].complete && s.rows[id].size > 0
    && (id in s.partial ==> s.partial[id].length == s.rows[id].size) && !AnyStorer(s, id)
  }

  lemma SettledIsSafe(s: State, id: Id)
    requires Settled(s, id)
    ensures Safe(s)
  {
    GoodIsSafe(Without(s, id));
    hide Good;
  }

  /** Once the row is gone the finishers do not matter. */
  lemma GoodOnceGone(s: State, id: Id)
    requires Good(Without(s, id)) && id !in s.rows
    ensures Good(s)
  {
    var t := Without(s, id);
    forall p <- s.tasks ensures TaskGood(s, s.tasks[p]) {
      assert s.tasks[p] != Finishing(id) ==> p in t.tasks && TaskGood(t, t.tasks[p]);
    }
    forall other <- s.rows ensures RowGood(s, other) {
      assert RowGood(t, other);
    }
    assert forall p, other :: FinishedBy(s, p, other) && other in s.rows ==> FinishedBy(t, p, other);
  }

  lemma SettledPromote(s: State, a: Step, id: Id)
    requires Settled(s, id) && Enabled(s, a) && a.Promote? && s.tasks[a.pid] == Finishing(id)
    ensures Settled(Next(s, a), id)
  {
    var t := Next(s, a);
    var s', t' := Without(s, id), Without(t, id);
    forall p <- t'.tasks ensures TaskGood(t', t'.tasks[p]) {
      assert p != a.pid ==> p in s'.tasks && TaskGood(s', s'.tasks[p]);
    }
    forall other <- t'.rows ensures RowGood(t', other) {
      assert RowGood(s', other);
    }
    assert forall p, other :: FinishedBy(t', p, other) ==> FinishedBy(s', p, other);
    assert forall p <- t.tasks :: p != a.pid ==> p in s.tasks && t.tasks[p] == s.tasks[p];
  }

  /** A step of any other request is a step of the state without the finishers. */
  lemma SettledCommutes(s: State, a: Step, id: Id)
    requires Settled(s, id) && Disciplined(s, a) && (a.Crash? || a.pid !in s.tasks || s.tasks[a.pid] != Finishing(id))
    ensures Disciplined(Without(s, id), a) && Next(Without(s, id), a) == Without(Next(s, a), id)
  {
    if a.Write? || a.FinishEmpty? {
      NoNewFinisher(s, a, id);
    }
    hide Settled;
    StaysDisciplined(s, a, id);
    if a.Write? {
      WriteCommutes(s, a, id);
    } else if a.Create? || a.Lookup? || a.Measure? || a.LoadKey? || a.FinishEmpty? {
      HandleCommutes(s, a, id);
    } else {
      RestCommutes(s, a, id);
    }
  }

  lemma StaysDisciplined(s: State, a: Step, id: Id)
    requires Disciplined(s, a) && (a.Crash? || a.pid !in s.tasks || s.tasks[a.pid] != Finishing(id))
    ensures Disciplined(Without(s, id), a)
  {
    var s' := Without(s, id);
    assert Enabled(s', a);
    assert forall q, other :: FinishedBy(s', q, other) ==> FinishedBy(s, q, other);
    assert a.Create? && Mentions(s', a.id) ==> Mentions(s, a.id);
  }

  lemma WriteCommutes(s: State, a: Step, id: Id)
    requires Enabled(s, a) && a.Write? && s.tasks[a.pid].id != id && Enabled(Without(s, id), a)
    ensures Next(Without(s, id), a) == Without(Next(s, a), id)
  {
    var t := s.tasks[a.pid];
    assert Without(s, id).tasks[a.pid] == t;
    OthersRemoved(s.tasks, id, a.pid);
    OthersUpdated(s.tasks, id, a.pid, Finishing(t.id));
    OthersUpdated(s.tasks, id, a.pid, t.(offset := t.offset + a.n));
    hide Others;
  }

  lemma HandleCommutes(s: State, a: Step, id: Id)
    requires Enabled(s, a) && Enabled(Without(s, id), a)
    requires a.Create? || a.Lookup? || a.Measure? || a.LoadKey? || (a.FinishEmpty? && s.tasks[a.pid].id != id)
    ensures Next(Without(s, id), a) == Without(Next(s, a), id)
  {
    var t := Next(s, a);
    assert !a.Create? && !a.Lookup? ==> Without(s, id).tasks[a.pid] == s.tasks[a.pid];
    OthersRemoved(s.tasks, id, a.pid);
    if a.pid in t.tasks {
      OthersUpdated(s.tasks, id, a.pid, t.tasks[a.pid]);
    }
    hide Others;
  }

  lemma RestCommutes(s: State, a: Step, id: Id)
    requires Enabled(s, a) && Enabled(Without(s, id), a)
    requires !a.Write? && !a.Create? && !a.Lookup? && !a.Measure? && !a.LoadKey? && !a.FinishEmpty?
    ensures Next(Without(s, id), a) == Without(Next(s, a), id)
  {
    if a.Crash? {
      assert Others(map[], id) == map[];
    } else {
      var t := Next(s, a);
      assert !a.DeleteRow? ==> Without(s, id).tasks[a.pid] == s.tasks[a.pid];
      OthersRemoved(s.tasks, id, a.pid);
      if a.pid in t.tasks {
        OthersUpdated(s.tasks, id, a.pid, t.tasks[a.pid]);
      }
    }
    hide Others;
  }

  lemma NoNewFinisher(s: State, a: Step, id: Id)
    requires Settled(s, id) && Enabled(s, a) && (a.Write? || a.FinishEmpty?)
    ensures s.tasks[a.pid].id != id
  {
    assert a.pid in Without(s, id).tasks && TaskGood(Without(s, id), s.tasks[a.pid]);
  }

  lemma SettledStep(s: State, a: Step, id: Id)
    requires Settled(s, id) && Disciplined(s, a)
    ensures Good(Next(s, a)) || Settled(Next(s, a), id)
  {
    if !a.Crash? && a.pid in s.tasks && s.tasks[a.pid] == Finishing(id) {
      if a.Promote? {
        SettledPromote(s, a, id);
      } else {
        SettledDrop(s, a, id);
      }
    } else {
      SettledCommutes(s, a, id);
      StepKeepsGood(Without(s, id), a);
      SettledRest(s, a, id);
    }
  }

  lemma SettledDrop(s: State, a: Step, id: Id)
    requires Settled(s, id) && Enabled(s, a) && a.Drop? && s.tasks[a.pid] == Finishing(id)
    ensures Settled(Next(s, a), id)
  {
    hide Good;
    assert Without(Next(s, a), id) == Without(s, id);
  }

  lemma SettledRest(s: State, a: Step, id: Id)
    requires Settled(s, id) && Disciplined(s, a) && (a.Crash? || a.pid !in s.tasks || s.tasks[a.pid] != Finishing(id))
    requires Good(Without(Next(s, a), id))
    ensures Good(Next(s, a)) || Settled(Next(s, a), id)
  {
    var t := Next(s, a);
    if id !in t.rows {
      GoodOnceGone(t, id);
    } else {
      if a.Write? || a.FinishEmpty? {
        NoNewFinisher(s, a, id);
      }
      hide Good;
      PartialStays(s, a, id);
      NoNewStorer(s, a, id);
      RowStays(s, a, id);
    }
  }

  lemma PartialStays(s: State, a: Step, id: Id)
    requires Enabled(s, a) && (a.Write? ==> s.tasks[a.pid].id != id)
    ensures id in Next(s, a).partial ==> id in s.partial && Next(s, a).partial[id] == s.partial[id]
  {}

  lemma RowStays(s: State, a: Step, id: Id)
    requires Enabled(s, a) && id in s.rows && id in Next(s, a).rows && s.rows[id].complete
    ensures Next(s, a).rows[id] == s.rows[id]
  {}

  /** A complete row gives out no new handle. */
  lemma NoNewStorer(s: State, a: Step, id: Id)
    requires Enabled(s, a) && id in s.rows && s.rows[id].complete && !AnyStorer(s, id)
    requires a.Write? ==> s.tasks[a.pid].id != id
    ensures !AnyStorer(Next(s, a), id)
  {
    var t := Next(s, a);
    forall p <- t.tasks ensures !CanStore(t.tasks[p], id) {
      assert p in s.tasks ==> !CanStore(s.tasks[p], id);
    }
  }

  lemma {:induction false} SettledRun(s: State, steps: seq<Step>, id: Id)
    requires (Good(s) || Settled(s, id)) && DisciplinedRun(s, steps) && Run(s, steps)
    ensures Safe(After(s, steps))
    decreases |steps|
  {
    hide Settled, Good, Disciplined, Next, Enabled, Safe;
    if Good(s) {
      DisciplinedRunsAreSafe(s, steps);
    } else if steps == [] {
      SettledIsSafe(s, id);
    } else {
      SettledStep(s, steps[0], id);
      SettledRun(Next(s, steps[0]), steps[1..], id);
    }
  }

  /** A finishing chunk for a complete row, with finishers before it and no handle that could store. */
  lemma FinishSettles(s: State, a: Step)
    requires Good(s) && Enabled(s, a) && Finishes(s, a) && s.rows[s.tasks[a.pid].id].complete
    requires forall h <- s.tasks :: h != a.pid ==> !CanStore(s.tasks[h], s.tasks[a.pid].id)
    ensures Settled(Next(s, a), s.tasks[a.pid].id)
  {
    var id := s.tasks[a.pid].id;
    var t := Next(s, a);
    var t' := Without(t, id);
    assert TaskGood(s, s.tasks[a.pid]) && RowGood(s, id);
    forall p <- t'.tasks ensures TaskGood(t', t'.tasks[p]) {
      assert p in s.tasks && TaskGood(s, s.tasks[p]);
    }
    forall other <- t'.rows ensures RowGood(t', other) {
      assert RowGood(s, other);
    }
    assert forall p, other :: FinishedBy(t', p, other) ==> FinishedBy(s, p, other);
    forall p <- t.tasks ensures !CanStore(t.tasks[p], id) {
      assert p != a.pid ==> t.tasks[p] == s.tasks[p];
    }
  }

  // ----- and the trouble otherwise

  /** A handle turns the partial into an empty one between two promotions. */
  function Emptied(h: Pid, opening: bool): seq<Step> {
    (if opening then [Measure(h)] else []) + [Write(h, 0, true, true, false)]
  }

  lemma {:induction false} StorerIsTrouble(t: State, id: Id, p: Pid, q: Pid, h: Pid)
    requires id in t.rows && t.rows[id].complete && t.rows[id].size > 0 && id in t.partial
    requires p != q && FinishedBy(t, p, id) && FinishedBy(t, q, id) && h in t.tasks && CanStore(t.tasks[h], id)
    ensures var steps := [Promote(q)] + (Emptied(h, t.tasks[h].Opening?) + [Promote(p)]);
            Run(t, steps) && DisciplinedRun(t, steps) && !Safe(After(t, steps))
  {
    var t1 := Next(t, Promote(q));
    var w := Write(h, 0, true, true, false);
    if t.tasks[h].Opening? {
      var t2 := Next(t1, Measure(h));
      EmptyThenPromote(t2, id, p, h);
      RunOne(t1, Measure(h), [w, Promote(p)]);
      assert Emptied(h, true) + [Promote(p)] == [Measure(h)] + [w, Promote(p)];
    } else {
      EmptyThenPromote(t1, id, p, h);
      assert Emptied(h, false) + [Promote(p)] == [w, Promote(p)];
    }
    RunOne(t, Promote(q), Emptied(h, t.tasks[h].Opening?) + [Promote(p)]);
  }

  lemma {:induction false} EmptyThenPromote(t: State, id: Id, p: Pid, h: Pid)
    requires id in t.rows && t.rows[id].complete && t.rows[id].size > 0 && id !in t.partial
    requires FinishedBy(t, p, id) && h in t.tasks && t.tasks[h].Open? && CanStore(t.tasks[h], id)
    ensures var steps := [Write(h, 0, true, true, false), Promote(p)];
            Run(t, steps) && DisciplinedRun(t, steps) && !Safe(After(t, steps))
  {
    var w := Write(h, 0, true, true, false);
    var t1 := Next(t, w);
    var t2 := Next(t1, Promote(p));
    assert t2.rows[id].complete && t2.blobs[id].length == 0 && t2.rows[id].size > 0;
    RunOne(t1, Promote(p), []);
    RunOne(t, w, [Promote(p)]);
  }

  /**
   Exactly when a finishing chunk is harmless, for any row. Either no other request is already
   finishing that upload; or the row is complete, so that no new handle can be had, and no other handle is
   left that could store anything.
   */
  lemma FinishIsSafeExactly(s: State, a: Step)
    requires Good(s) && Enabled(s, a) && Finishes(s, a)
    ensures var t := Next(s, a);
            (forall steps | DisciplinedRun(t, steps) && Run(t, steps) :: Safe(After(t, steps)))
            <==> (Lone(s, a) || Alone(s, a))
  {
    var t, id := Next(s, a), s.tasks[a.pid].id;
    if Lone(s, a) || Pending(s, id) {
      assert Alone(s, a) ==> !Pending(s, id);
      if Pending(s, id) {
        FinishIsSafeExactlyWhenLone(s, a);
      } else {
        hide Run, DisciplinedRun, Safe, After;
        StepKeepsGood(s, a);
        forall steps | DisciplinedRun(t, steps) && Run(t, steps) ensures Safe(After(t, steps)) {
          DisciplinedRunsAreSafe(t, steps);
        }
      }
    } else if Alone(s, a) {
      FinishSettles(s, a);
      hide Run, DisciplinedRun, Safe, After;
      forall steps | DisciplinedRun(t, steps) && Run(t, steps) ensures Safe(After(t, steps)) {
        SettledRun(t, steps, id);
      }
    } else {
      var q :| q != a.pid && FinishedBy(s, q, id);
      var h :| h in s.tasks && h != a.pid && CanStore(s.tasks[h], id);
      assert TaskGood(s, s.tasks[a.pid]);
      StorerIsTrouble(t, id, a.pid, q, h);
    }
  }

  ghost predicate Alone(s: State, a: Step)
    requires Enabled(s, a) && Finishes(s, a)
  {
    var id := s.tasks[a.pid].id;
    s.rows[id].complete && forall h <- s.tasks :: h != a.pid ==> !CanStore(s.tasks[h], id)
  }
}
