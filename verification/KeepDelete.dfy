/**
  Keep and delete exclude each other, although marking a row 'deleting' checks nothing: the two deadline
  guards (`execute_at >= now` to keep, `execute_at <= now` to fetch) leave one instant in common.
  */
module KeepDelete {
  import opened Wrappers
  import opened ActionTable
  import opened DeletionMachine
  import opened RecoveryLemmas
  import opened DeletionSafety

  /** Before anything ran: an idle world whose table has no row marked 'deleting' and whose log names no live action. */
  ghost predicate Fresh(w: World) {
    && w.phase.Idle? && w.cleared == {} && w.keeps == map[] && w.fetches == map[] && w.turned == map[]
    && IdsBounded(w) && AuditedOnce(w) && OneDeletionPerItem(w.db)
    && forall id :: !IsStuck(w.db, id)
  }

  predicate Crossed(keep: KeepRecord, fetch: int) {
    keep.reading <= keep.due <= fetch <= keep.at
  }

  /** A row that is no scheduled deletion any more was turned by a keep, over a link or an admin's. */
  ghost predicate TurnedOnlyByKeep(w: World, id: nat) {
    id in w.db.actions && w.db.actions[id].kind != ScheduledDeletion ==> id in w.keeps || id in w.turned
  }

  /** What is always true of one action. */
  ghost predicate Guarded(w: World, id: nat) {
    // A deletion that has once been fetched was due then.
    && (id in w.fetches ==>
          && w.fetches[id] <= w.clock && id < w.db.nextId
          && (id in w.db.actions && w.db.actions[id].kind == ScheduledDeletion ==>
                w.db.actions[id].executeAt.Some? && w.db.actions[id].executeAt.value <= w.fetches[id]))
    // Only fetched actions are marked 'deleting', in a pass's hand or cleared from disk.
    && (IsStuck(w.db, id) || Holds(w.phase, id) ==> id in w.fetches && TurnedOnlyByKeep(w, id))
    && (forall path :: (id, path) in w.cleared ==> id in w.fetches)
    // A kept row is a deletion no more, and if it was ever fetched its keep crossed the fetch.
    && (id in w.keeps ==>
          && id < w.db.nextId
          && (id in w.db.actions ==> w.db.actions[id].kind != ScheduledDeletion)
          && (id in w.fetches ==> Crossed(w.keeps[id], w.fetches[id])))
    // So is a row an admin kept; and if it had not been fetched by then, it never is.
    && (id in w.turned ==>
          && id < w.db.nextId
          && (id in w.db.actions ==> w.db.actions[id].kind != ScheduledDeletion)
          && (!w.turned[id] ==> id !in w.fetches))
  }

  ghost predicate Exclusive(w: World) {
    && IdsBounded(w)
    && (w.phase.Started? || w.phase.Recovered? ==> w.phase.now <= w.clock)
    && forall id: nat :: Guarded(w, id)
  }

  lemma GuardedAfterFetch(w: World, s: Step, id: nat)
    requires Guarded(w, id) && Can(w, s) && s.FetchDue?
    requires w.phase.now <= w.clock && (id in w.db.actions ==> id < w.db.nextId)
    ensures Guarded(Do(w, s), id)
  {
    var v, rows := Do(w, s), Due(w.db, w.phase.now);
    if id in v.fetches && id !in w.fetches {
      var r :| r in rows && r.id == id;
      assert IsDue(w.db, id, w.phase.now) && v.fetches[id] == w.phase.now;
    }
    if Holds(v.phase, id) {
      var i :| 0 <= i < |Hand(v.phase)| && Hand(v.phase)[i].id == id;
      assert Hand(v.phase)[i] in rows && IsDue(w.db, id, w.phase.now);
    }
  }

  lemma GuardedAfterRecovery(w: World, s: Step, id: nat)
    requires Guarded(w, id) && Can(w, s) && (s.RecoverStuck? || s.BootRecover?)
    requires forall i :: i in w.db.actions ==> i < w.db.nextId
    requires Holds(Do(w, s).phase, id) ==> Holds(w.phase, id)
    ensures Guarded(Do(w, s), id)
  {
    RecoverEffect(w.db, w.files, w.roots, id);
  }

  /** The step turns nothing: the row, if still there, has its kind and deadline, and the books say what they said. */
  ghost predicate TurnsNothing(w: World, v: World, id: nat) {
    && w.clock <= v.clock && w.db.nextId <= v.db.nextId
    && v.fetches == w.fetches && v.keeps == w.keeps && v.turned == w.turned
    && (id in v.db.actions && id < w.db.nextId ==>
          && id in w.db.actions && v.db.actions[id].kind == w.db.actions[id].kind
          && v.db.actions[id].executeAt == w.db.actions[id].executeAt)
    && (IsStuck(v.db, id) || Holds(v.phase, id) ==> IsStuck(w.db, id) || Holds(w.phase, id))
    && (forall path :: (id, path) in v.cleared ==> (id, path) in w.cleared || Holds(w.phase, id))
  }

  lemma GuardedFrame(w: World, v: World, id: nat)
    requires Guarded(w, id) && TurnsNothing(w, v, id)
    requires id in v.db.actions && id >= w.db.nextId ==> !IsStuck(v.db, id) && !Holds(v.phase, id)
    ensures Guarded(v, id)
  {
  }

  lemma LookTurnsNothing(w: World, s: Step, id: nat)
    requires Can(w, s) && (s.MarkNext? || s.ParkNext?)
    requires (id in w.db.actions ==> id < w.db.nextId) && (Holds(Do(w, s).phase, id) ==> Holds(w.phase, id))
    requires w.phase.pass.queue[0].id == id ==> Holds(w.phase, id)
    ensures TurnsNothing(w, Do(w, s), id) && Do(w, s).db.nextId == w.db.nextId
  {
  }

  lemma UnlinkTurnsNothing(w: World, s: Step, id: nat)
    requires Can(w, s) && s.Unlink?
    requires (id in w.db.actions ==> id < w.db.nextId) && (Holds(Do(w, s).phase, id) ==> Holds(w.phase, id))
    requires w.phase.row.id == id ==> Holds(w.phase, id)
    ensures TurnsNothing(w, Do(w, s), id) && Do(w, s).db == w.db
  {
  }

  lemma CommitTurnsNothing(w: World, s: Step, id: nat)
    requires Can(w, s) && (s.CommitDeleted? || s.CommitRefused? || s.CommitBroken?)
    requires (id in w.db.actions ==> id < w.db.nextId) && (Holds(Do(w, s).phase, id) ==> Holds(w.phase, id))
    ensures TurnsNothing(w, Do(w, s), id) && Do(w, s).db.nextId == w.db.nextId
  {
  }

  lemma TablesTurnNothing(w: World, s: Step, id: nat)
    requires Can(w, s) && (s.EndPass? || s.ScheduleItem? || s.Clear? || s.Upsert? || s.Prune?)
    requires (id in w.db.actions ==> id < w.db.nextId) && (Holds(Do(w, s).phase, id) ==> Holds(w.phase, id))
    ensures TurnsNothing(w, Do(w, s), id)
    ensures id in Do(w, s).db.actions && id >= w.db.nextId ==> !IsStuck(Do(w, s).db, id)
  {
  }

  lemma RestTurnsNothing(w: World, s: Step, id: nat)
    requires Can(w, s) && (s.Begin? || s.Crash? || s.FileAppears? || s.FileVanishes? || s.SetRoots?)
    requires (id in w.db.actions ==> id < w.db.nextId) && (Holds(Do(w, s).phase, id) ==> Holds(w.phase, id))
    ensures TurnsNothing(w, Do(w, s), id) && Do(w, s).db == w.db
  {
  }

  lemma GuardedAfterKeep(w: World, s: Step, id: nat)
    requires Guarded(w, id) && Can(w, s) && s.KeepRow? && (id in w.db.actions ==> id < w.db.nextId)
    ensures Guarded(Do(w, s), id)
  {
  }

  lemma GuardedAfterAdmin(w: World, s: Step, id: nat)
    requires Guarded(w, id) && Can(w, s) && (s.AdminKeep? || s.AdminProtect? || s.AdminRelease?)
    requires (id in w.db.actions ==> id < w.db.nextId) && (Holds(Do(w, s).phase, id) ==> Holds(w.phase, id))
    ensures Guarded(Do(w, s), id)
  {
  }

  lemma GuardedElsewhere(w: World, s: Step, id: nat)
    requires IdsBounded(w) && Guarded(w, id) && Can(w, s)
    requires !s.FetchDue? && !s.RecoverStuck? && !s.BootRecover? && !ByKeeper(s)
    ensures Guarded(Do(w, s), id)
  {
    IdsStep(w, s);
    if s.MarkNext? || s.ParkNext? {
      assert Hand(w.phase)[0] == w.phase.pass.queue[0];
      LookTurnsNothing(w, s, id);
    } else if s.Unlink? {
      assert Hand(w.phase)[0] == w.phase.row;
      UnlinkTurnsNothing(w, s, id);
    } else if s.CommitDeleted? || s.CommitRefused? || s.CommitBroken? {
      CommitTurnsNothing(w, s, id);
    } else if s.EndPass? || s.ScheduleItem? || s.Clear? || s.Upsert? || s.Prune? {
      TablesTurnNothing(w, s, id);
    } else {
      RestTurnsNothing(w, s, id);
    }
    assert Holds(Do(w, s).phase, id) ==> id < w.db.nextId;
    GuardedFrame(w, Do(w, s), id);
  }

  lemma GuardedStep(w: World, s: Step, id: nat)
    requires IdsBounded(w) && (w.phase.Started? || w.phase.Recovered? ==> w.phase.now <= w.clock)
    requires Guarded(w, id) && Can(w, s)
    ensures Guarded(Do(w, s), id)
  {
    if s.FetchDue? {
      GuardedAfterFetch(w, s, id);
    } else if s.RecoverStuck? || s.BootRecover? {
      IdsStep(w, s);
      GuardedAfterRecovery(w, s, id);
    } else if s.KeepRow? {
      GuardedAfterKeep(w, s, id);
    } else if ByKeeper(s) {
      IdsStep(w, s);
      GuardedAfterAdmin(w, s, id);
    } else {
      GuardedElsewhere(w, s, id);
    }
  }

  lemma ClockStep(w: World, s: Step)
    requires Can(w, s) && (w.phase.Started? || w.phase.Recovered? ==> w.phase.now <= w.clock)
    ensures var v := Do(w, s); v.phase.Started? || v.phase.Recovered? ==> v.phase.now <= v.clock
  {
  }

  lemma ExclusiveStep(w: World, s: Step)
    requires Exclusive(w) && Can(w, s)
    ensures Exclusive(Do(w, s))
  {
    IdsStep(w, s);
    ClockStep(w, s);
    forall id: nat ensures Guarded(Do(w, s), id) {
      assert Guarded(w, id);
      GuardedStep(w, s, id);
    }
  }

  lemma {:induction false} ExclusiveRun(w: World, steps: seq<Step>, w': World)
    requires Exclusive(w) && Runs(w, steps, w')
    ensures Exclusive(w')
    decreases |steps|
  {
    if steps != [] {
      ExclusiveStep(w, steps[0]);
      ExclusiveRun(Do(w, steps[0]), steps[1..], w');
    }
  }

  /**
    Keep and delete, over every run. If an action was both kept and cleared from disk, its keep compared a
    clock reading no later than the deadline and ran no earlier than a fetch that found the deadline passed.
    A keep that reads its clock in its own step can only do so at the deadline itself.
    */
  lemma KeepExcludesDelete(w0: World, steps: seq<Step>, w: World, id: nat, path: string)
    requires Fresh(w0) && Runs(w0, steps, w)
    requires id in w.keeps && (id, path) in w.cleared
    ensures id in w.fetches && Crossed(w.keeps[id], w.fetches[id])
    ensures w.keeps[id].reading == w.keeps[id].at ==> w.keeps[id].at == w.keeps[id].due == w.fetches[id]
  {
    ExclusiveRun(w0, steps, w);
    assert Guarded(w, id);
  }

  /**
    A keep over a link takes effect exactly on a pending, unused deletion whose deadline the reading has not passed; the
    row then is no deletion, carries the new time, and cannot be kept over a link again.
    */
  lemma KeepTakesExactly(w: World, id: nat, keep: Keep, reading: int, at: int)
    requires Can(w, KeepRow(id, keep, reading, at))
    ensures var v := Do(w, KeepRow(id, keep, reading, at));
            if id in w.db.actions && w.db.actions[id].kind == ScheduledDeletion && w.db.actions[id].status == Pending
               && !w.db.actions[id].tokenUsed && w.db.actions[id].executeAt.Some?
               && reading <= w.db.actions[id].executeAt.value then
              && id in v.keeps && id in v.db.actions && v.db.actions[id].kind != ScheduledDeletion
              && (v.db.actions[id].kind == ProtectedForever <==> keep.Forever?)
              && (keep.Until? ==> v.db.actions[id].executeAt == Some(keep.at))
              && v.db.actions[id].item == w.db.actions[id].item && v.db.actions[id].tokenUsed
              && (forall again, r :: ApplyKeep(v.db, id, again, r) == v.db)
              && (forall i :: i != id ==> (i in v.db.actions <==> i in w.db.actions)
                                          && (i in v.db.actions ==> v.db.actions[i] == w.db.actions[i]))
            else v.db == w.db && v.keeps == w.keeps
  {
  }

  /** An admin's keep protects a row exactly if no pass has fetched it by then: here that it protects it. */
  lemma AdminKeepExcludesDelete(w0: World, steps: seq<Step>, w: World, id: nat, path: string)
    requires Fresh(w0) && Runs(w0, steps, w)
    requires id in w.turned && (id, path) in w.cleared
    ensures w.turned[id]
  {
    ExclusiveRun(w0, steps, w);
    assert Guarded(w, id);
  }

  /**
    In every reachable state a row marked 'deleting' is a scheduled deletion, unless a keep crossed its fetch or an
    admin kept the row after it.
    */
  lemma DeletingMeansScheduled(w0: World, steps: seq<Step>, w: World, id: nat)
    requires Fresh(w0) && Runs(w0, steps, w) && IsStuck(w.db, id)
    ensures w.db.actions[id].kind == ScheduledDeletion
            || (id in w.keeps && id in w.fetches && Crossed(w.keeps[id], w.fetches[id]))
            || (id in w.turned && w.turned[id])
  {
    ExclusiveRun(w0, steps, w);
    assert Guarded(w, id);
  }

  /**
    Once fetched, an action can no longer be kept: a keep with a fresh clock changes nothing unless the clock stands at
    the deadline.
    */
  lemma FetchedIsPastKeeping(w0: World, steps: seq<Step>, w: World, id: nat, keep: Keep, at: int)
    requires Fresh(w0) && Runs(w0, steps, w)
    requires id in w.fetches && Can(w, KeepRow(id, keep, at, at))
    ensures Do(w, KeepRow(id, keep, at, at)).db == w.db
            || (at == w.fetches[id] && id in w.db.actions && w.db.actions[id].executeAt == Some(at))
  {
    ExclusiveRun(w0, steps, w);
    assert Guarded(w, id);
  }

  // ---- how the guards can be passed ------------------------------------

  const PATH: string := "/media/m"

  lemma PathIsNotBlank()
    ensures !Blank(PATH)
  {
    assert !Space(PATH[0]);
  }

  /** One due deletion of one file inside the roots. */
  function OneDue(due: int): World {
    PathIsNotBlank();
    World(Db(map["m" := Item(PATH, 7, 1)], map[0 := Action("m", ScheduledDeletion, Some(due), false, Pending, false)],
             [], 1),
          {PATH}, RootSet(true, {PATH}), 0, Idle, {}, map[], map[], map[], {})
  }

  /** The world after a pass has begun, recovered and fetched that one row. */
  function OneFetched(due: int, fetchAt: int): World {
    PathIsNotBlank();
    OneDue(due).(clock := fetchAt, fetches := map[0 := fetchAt],
                 phase := Looping(Pass(fetchAt, RootSet(true, {PATH}), [DeletionRow(0, "m", PATH, 7)], 0, 0, 0)))
  }

  const FETCHING: seq<Step> := [RecoverStuck] + [FetchDue]

  lemma FetchOne(due: int, fetchAt: int)
    requires 0 <= fetchAt && due <= fetchAt
    ensures Fresh(OneDue(due)) && Runs(OneDue(due), [Begin(fetchAt)] + FETCHING, OneFetched(due, fetchAt))
  {
    PathIsNotBlank();
    var w0 := OneDue(due);
    assert forall id :: !IsStuck(w0.db, id);
    var w1 := Do(w0, Begin(fetchAt));
    var w2 := Do(w1, RecoverStuck);
    assert w2.db == w0.db;
    assert IsDue(w2.db, 0, fetchAt);
    assert DueFrom(w2.db, fetchAt, 1) == [];
    assert Due(w2.db, fetchAt) == [DeletionRow(0, "m", PATH, 7)];
    assert Do(w2, FetchDue).fetches == map[0 := fetchAt];
    assert Do(w2, FetchDue) == OneFetched(due, fetchAt);
    RunsOn(w2, FetchDue, [], OneFetched(due, fetchAt));
    RunsOn(w1, RecoverStuck, [FetchDue], OneFetched(due, fetchAt));
    RunsOn(w0, Begin(fetchAt), FETCHING, OneFetched(due, fetchAt));
  }

  /**
    The guards do meet whenever the keep's reading is at most the deadline and the fetch's at least that: a
    keep slipped between fetch and mark then returns rowcount 1, and the file goes all the same.
    */
  lemma KeptYetDeleted(due: int, fetchAt: int, reading: int, keepAt: int) returns (steps: seq<Step>, w: World)
    requires 0 <= fetchAt <= keepAt && reading <= due <= fetchAt
    ensures Fresh(OneDue(due)) && Runs(OneDue(due), steps, w)
    ensures 0 in w.keeps && w.keeps[0] == KeepRecord(reading, keepAt, due) && w.fetches == map[0 := fetchAt]
    ensures (0, PATH) in w.cleared && PATH !in w.files
  {
    PathIsNotBlank();
    FetchOne(due, fetchAt);
    var w3 := OneFetched(due, fetchAt);
    var w4 := Do(w3, KeepRow(0, Forever, reading, keepAt));
    var w5 := Do(w4, MarkNext);
    w := Do(w5, Unlink(Gone));
    RunsOn(w5, Unlink(Gone), [], w);
    RunsOn(w4, MarkNext, [Unlink(Gone)], w);
    RunsOn(w3, KeepRow(0, Forever, reading, keepAt), [MarkNext] + [Unlink(Gone)], w);
    var tail := [KeepRow(0, Forever, reading, keepAt)] + ([MarkNext] + [Unlink(Gone)]);
    steps := [Begin(fetchAt)] + FETCHING + tail;
    RunsAppend(OneDue(due), [Begin(fetchAt)] + FETCHING, w3, tail, w);
  }

  /**
    And that no later time will do: an admin's keep between fetch and mark, whatever it asks for, leaves a kept row
    marked 'deleting', and the file goes all the same.
    */
  lemma AdminKeptYetDeleted(due: int, fetchAt: int, keep: Keep) returns (steps: seq<Step>, marked: World, w: World)
    requires 0 <= fetchAt && due <= fetchAt
    ensures Fresh(OneDue(due)) && Runs(OneDue(due), steps + [MarkNext], marked) && Runs(marked, [Unlink(Gone)], w)
    ensures IsStuck(marked.db, 0) && marked.db.actions[0].kind != ScheduledDeletion && marked.turned == map[0 := true]
    ensures marked.keeps == map[] && (0, PATH) in w.cleared && PATH !in w.files
  {
    PathIsNotBlank();
    FetchOne(due, fetchAt);
    var w3 := OneFetched(due, fetchAt);
    var w4 := Do(w3, AdminKeep(0, keep));
    marked := Do(w4, MarkNext);
    w := Do(marked, Unlink(Gone));
    RunsOn(marked, Unlink(Gone), [], w);
    assert [Unlink(Gone)] + [] == [Unlink(Gone)];
    RunsOn(w4, MarkNext, [], marked);
    RunsOn(w3, AdminKeep(0, keep), [MarkNext], marked);
    steps := [Begin(fetchAt)] + FETCHING + [AdminKeep(0, keep)];
    RunsAppend(OneDue(due), [Begin(fetchAt)] + FETCHING, w3, [AdminKeep(0, keep)] + [MarkNext], marked);
    assert steps + [MarkNext] == [Begin(fetchAt)] + FETCHING + ([AdminKeep(0, keep)] + [MarkNext]);
  }
}
