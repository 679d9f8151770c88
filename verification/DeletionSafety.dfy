/** What every interleaving of passes, crashes, recoveries, keeps and outside changes preserves. */
module DeletionSafety {
  import opened ActionTable
  import opened DeletionMachine
  import opened RecoveryLemmas

  /** The rows a pass still holds in memory, the current one first. */
  function Hand(phase: Phase): seq<DeletionRow> {
    match phase
    case Looping(pass) => pass.queue
    case Marked(pass, row) => [row] + pass.queue
    case Removed(pass, row) => [row] + pass.queue
    case Refused(pass, row) => [row] + pass.queue
    case Broken(pass, row) => [row] + pass.queue
    case _ => []
  }

  ghost predicate Holds(phase: Phase, id: nat) {
    exists i :: 0 <= i < |Hand(phase)| && Hand(phase)[i].id == id
  }

  ghost predicate IdsBounded(w: World) {
    && (forall id :: id in w.db.actions ==> id < w.db.nextId)
    && (forall i :: 0 <= i < |Hand(w.phase)| ==> Hand(w.phase)[i].id < w.db.nextId)
    && Distinct(Hand(w.phase))
  }

  // ---- one `deleted` row per action ------------------------------------------

  /** An action still in the table, in a pass's hand or not yet created has no `deleted` row; no action has two. */
  ghost predicate AuditedOnce(w: World) {
    && (forall id: nat :: DeletedCount(w.db.audit, id) <= 1)
    && (forall id: nat :: id in w.db.actions || Holds(w.phase, id) || id >= w.db.nextId ==>
        DeletedCount(w.db.audit, id) == 0)
    && (w.phase.Removed? ==> w.phase.row.path in w.phase.pass.roots.inside
                             && (w.phase.row.id, w.phase.row.path) in w.cleared)
  }

  lemma IdsAfterRecovery(w: World, s: Step)
    requires IdsBounded(w) && Can(w, s) && (s.RecoverStuck? || s.BootRecover?)
    ensures IdsBounded(Do(w, s)) && Do(w, s).db.nextId == w.db.nextId
  {
    var v := Do(w, s);
    forall id | id in v.db.actions ensures id < v.db.nextId { RecoverEffect(w.db, w.files, w.roots, id); }
  }

  lemma IdsAfterFetch(w: World, s: Step)
    requires IdsBounded(w) && Can(w, s) && s.FetchDue?
    ensures IdsBounded(Do(w, s))
  {
  }

  /** The steps of everyone but the pass and recovery. */
  predicate ByOthers(s: Step) {
    || ByKeeper(s) || s.ScheduleItem? || s.Clear? || s.Upsert? || s.Prune?
    || s.FileAppears? || s.FileVanishes? || s.SetRoots?
  }

  predicate ByKeeper(s: Step) {
    s.KeepRow? || s.AdminKeep? || s.AdminProtect? || s.AdminRelease?
  }

  lemma IdsAfterOthers(w: World, s: Step)
    requires IdsBounded(w) && Can(w, s) && ByOthers(s)
    ensures IdsBounded(Do(w, s)) && Do(w, s).db.nextId >= w.db.nextId
  {
    assert Do(w, s).phase == w.phase;
  }

  lemma IdsInPass(w: World, s: Step)
    requires IdsBounded(w) && Can(w, s) && !s.RecoverStuck? && !s.BootRecover? && !s.FetchDue? && !ByOthers(s)
    ensures IdsBounded(Do(w, s)) && Do(w, s).db.nextId >= w.db.nextId
  {
    HandShrinks(w, s);
  }

  lemma HoldsNoMore(w: World, s: Step)
    requires Can(w, s) && !s.FetchDue?
    ensures forall id :: Holds(Do(w, s).phase, id) ==> Holds(w.phase, id)
  {
    HandShrinks(w, s);
    var h, h' := Hand(w.phase), Hand(Do(w, s).phase);
    forall id | Holds(Do(w, s).phase, id) ensures Holds(w.phase, id) {
      var i :| 0 <= i < |h'| && h'[i].id == id;
      assert h'[i] == h[if h' == h then i else i + 1];
    }
  }

  lemma IdsStep(w: World, s: Step)
    requires IdsBounded(w) && Can(w, s)
    ensures IdsBounded(Do(w, s))
    ensures Do(w, s).db.nextId >= w.db.nextId
    ensures !s.FetchDue? ==> forall id :: Holds(Do(w, s).phase, id) ==> Holds(w.phase, id)
  {
    if s.RecoverStuck? || s.BootRecover? {
      IdsAfterRecovery(w, s);
    } else if s.FetchDue? {
      IdsAfterFetch(w, s);
    } else if ByOthers(s) {
      IdsAfterOthers(w, s);
    } else {
      IdsInPass(w, s);
    }
    if !s.FetchDue? {
      HoldsNoMore(w, s);
    }
  }

  lemma OthersKeepPhase(w: World, s: Step)
    requires Can(w, s) && ByOthers(s)
    ensures Do(w, s).phase == w.phase
  {
  }

  /** Outside a fetch, a step keeps a pass's hand or drops its first row (a crash drops all of it). */
  lemma HandShrinks(w: World, s: Step)
    requires Can(w, s) && !s.FetchDue?
    ensures var h, h' := Hand(w.phase), Hand(Do(w, s).phase); h' == h || (h != [] && h' == h[1..]) || h' == []
  {
    if ByOthers(s) {
      OthersKeepPhase(w, s);
    }
  }

  lemma AuditAfterRecovery(w: World, s: Step)
    requires IdsBounded(w) && AuditedOnce(w) && Can(w, s) && (s.RecoverStuck? || s.BootRecover?)
    ensures AuditedOnce(Do(w, s))
  {
    var v := Do(w, s);
    forall id: nat ensures DeletedCount(v.db.audit, id) <= 1
                           && (id in v.db.actions || id >= v.db.nextId ==> DeletedCount(v.db.audit, id) == 0) {
      RecoverEffect(w.db, w.files, w.roots, id);
    }
  }

  lemma AuditAfterFetch(w: World, s: Step)
    requires IdsBounded(w) && AuditedOnce(w) && Can(w, s) && s.FetchDue?
    ensures AuditedOnce(Do(w, s))
  {
    var v := Do(w, s);
    forall id: nat | Holds(v.phase, id) ensures id in w.db.actions {
      var i :| 0 <= i < |Hand(v.phase)| && Hand(v.phase)[i].id == id;
    }
  }

  lemma AuditAfterCommit(w: World, s: Step)
    requires IdsBounded(w) && AuditedOnce(w) && Can(w, s) && s.CommitDeleted?
    ensures AuditedOnce(Do(w, s))
  {
    var v, row := Do(w, s), w.phase.row;
    assert Hand(w.phase)[0] == row;
    forall j | 0 <= j < |Hand(v.phase)| ensures Hand(v.phase)[j].id != row.id {
      assert Hand(v.phase)[j] == Hand(w.phase)[j + 1];
    }
    assert Holds(w.phase, row.id) && !Holds(v.phase, row.id);
    IdsStep(w, s);
    forall id: nat
      ensures DeletedCount(v.db.audit, id) == DeletedCount(w.db.audit, id) + if id == row.id then 1 else 0
    {
      CountAppend(w.db.audit, AuditRow(Deleted, row.item, row.id, row.size), id);
    }
  }

  lemma AuditStep(w: World, s: Step)
    requires IdsBounded(w) && AuditedOnce(w) && Can(w, s)
    ensures AuditedOnce(Do(w, s))
  {
    if s.RecoverStuck? || s.BootRecover? {
      AuditAfterRecovery(w, s);
    } else if s.FetchDue? {
      AuditAfterFetch(w, s);
    } else if s.CommitDeleted? {
      AuditAfterCommit(w, s);
    } else {
      IdsStep(w, s);
      OtherStepsAuditNoDeletion(w, s);
      NoNewActions(w, s);
    }
  }

  /** Steps only ever create the action numbered `nextId`. */
  lemma NoNewActions(w: World, s: Step)
    requires Can(w, s) && !s.RecoverStuck? && !s.BootRecover?
    ensures forall id :: id in Do(w, s).db.actions ==>
              id in w.db.actions || (id == w.db.nextId && (s.ScheduleItem? || s.AdminProtect?))
  {
  }

  /** Only a commit after an unlink, and recovery, write `deleted` rows. */
  lemma OtherStepsAuditNoDeletion(w: World, s: Step)
    requires Can(w, s) && !s.RecoverStuck? && !s.BootRecover? && !s.CommitDeleted?
    ensures forall id: nat :: DeletedCount(Do(w, s).db.audit, id) == DeletedCount(w.db.audit, id)
  {
    var a, a' := w.db.audit, Do(w, s).db.audit;
    forall id: nat ensures DeletedCount(a', id) == DeletedCount(a, id) {
      if a' != a {
        CountAppend(a, a'[|a|], id);
        assert a' == a + [a'[|a|]];
      }
    }
  }

  lemma {:induction false} AuditRun(w: World, steps: seq<Step>, w': World)
    requires IdsBounded(w) && AuditedOnce(w) && Runs(w, steps, w')
    ensures IdsBounded(w') && AuditedOnce(w')
    decreases |steps|
  {
    if steps != [] {
      IdsStep(w, steps[0]);
      AuditStep(w, steps[0]);
      AuditRun(Do(w, steps[0]), steps[1..], w');
    }
  }

  /**
    The one step that gives an action its `deleted` row: the transaction also drops the action, and the
    file was inside the roots the step works with and either just unlinked for this action or seen absent.
    */
  lemma DeletedRowMeaning(w: World, s: Step, id: nat)
    requires IdsBounded(w) && AuditedOnce(w) && Can(w, s)
    requires DeletedCount(Do(w, s).db.audit, id) != DeletedCount(w.db.audit, id)
    ensures DeletedCount(w.db.audit, id) == 0 && DeletedCount(Do(w, s).db.audit, id) == 1
    ensures id !in Do(w, s).db.actions
    ensures s.CommitDeleted? ==>
              Do(w, s).db.audit == w.db.audit + [AuditRow(Deleted, w.phase.row.item, id, w.phase.row.size)]
    ensures if s.CommitDeleted? then
              w.phase.row.id == id && w.phase.row.path in w.phase.pass.roots.inside &&
                  (id, w.phase.row.path) in w.cleared
            else
              && (s.RecoverStuck? || s.BootRecover?) && IsStuck(w.db, id)
              && RowOf(w.db, id).path in w.roots.inside && RowOf(w.db, id).path !in w.files
  {
    AuditStep(w, s);
    if s.RecoverStuck? || s.BootRecover? {
      RecoverEffect(w.db, w.files, w.roots, id);
      assert !Blank("") || "" !in w.roots.inside;
    } else if s.CommitDeleted? {
      CountAppend(w.db.audit, AuditRow(Deleted, w.phase.row.item, w.phase.row.id, w.phase.row.size), id);
      assert Hand(w.phase)[0].id == id;
    } else {
      OtherStepsAuditNoDeletion(w, s);
    }
  }

  // ---- no due row is passed over -------------------------------------------------

  /** What the fetch takes, field by field: neither the token nor the re-entry flag matters. */
  predicate Ripe(db: Db, id: nat, now: int) {
    && id in db.actions && db.actions[id].item in db.items
    && db.actions[id].kind == ScheduledDeletion && db.actions[id].status == Pending
    && db.actions[id].executeAt.Some? && db.actions[id].executeAt.value <= now
  }

  /** The listing has each such row once, in the order of the ids, with its item's path and size. */
  lemma DueListsExactly(db: Db, now: int, id: nat)
    requires forall k :: k in db.actions ==> k < db.nextId
    ensures Ripe(db, id, now) <==> exists i :: 0 <= i < |Due(db, now)| && Due(db, now)[i].id == id
    ensures Ripe(db, id, now) ==>
              var item := db.items[db.actions[id].item];
              DeletionRow(id, db.actions[id].item, item.path, item.size) in Due(db, now)
    ensures forall i, j :: 0 <= i < j < |Due(db, now)| ==> Due(db, now)[i].id < Due(db, now)[j].id
  {
    if Ripe(db, id, now) {
      assert RowOf(db, id) in Due(db, now);
    }
    if i :| 0 <= i < |Due(db, now)| && Due(db, now)[i].id == id {
      assert IsDue(db, id, now);
    }
  }

  lemma FetchIs(w: World)
    requires Can(w, FetchDue)
    ensures var v := Do(w, FetchDue);
            && v.db == w.db && v.cleared == w.cleared && v.files == w.files && v.roots == w.roots
            && v.phase.Looping? && v.phase.pass.roots == w.roots
            && v.fetches == NoteFetches(w.fetches, Due(w.db, w.phase.now), w.phase.now)
            && Hand(v.phase) == if w.roots.configured then Due(w.db, w.phase.now) else []
  {
  }

  /** A fetch notes exactly those rows, and with roots configured the pass holds them. */
  lemma FetchTakesExactly(w: World, id: nat)
    requires IdsBounded(w) && Can(w, FetchDue)
    ensures var v := Do(w, FetchDue);
            && (id in v.fetches <==> id in w.fetches || Ripe(w.db, id, w.phase.now))
            && (Holds(v.phase, id) <==> w.roots.configured && Ripe(w.db, id, w.phase.now))
  {
    FetchIs(w);
    DueListsExactly(w.db, w.phase.now, id);
    NotedExactly(w.fetches, Due(w.db, w.phase.now), w.phase.now, id);
  }

  lemma NotedExactly(fetches: map<nat, int>, rows: seq<DeletionRow>, now: int, id: nat)
    ensures id in NoteFetches(fetches, rows, now) <==> id in fetches || exists i :: 0 <= i < |rows| && rows[i].id == id
  {
    if i :| 0 <= i < |rows| && rows[i].id == id {
      assert rows[i] in rows;
    }
    if r :| r in rows && r.id == id {
      var i :| 0 <= i < |rows| && rows[i] == r;
    }
  }

  /** A row in its turn is parked exactly if its path has nothing but white space in it; any other is marked. */
  lemma ParkedExactly(w: World)
    requires w.phase.Looping? && w.phase.pass.queue != []
    ensures var path := w.phase.pass.queue[0].path;
            && (Can(w, ParkNext) <==>
                  forall i :: 0 <= i < |path| ==> 9 <= path[i] as int <= 13 || 28 <= path[i] as int <= 32)
            && (Can(w, MarkNext) <==> !Can(w, ParkNext))
  {
  }

  /** While the pass runs, the row is still in hand, has been attempted, or has left the table. */
  ghost predicate Attended(w: World, id: nat) {
    && id < w.db.nextId && HasPass(w.phase)
    && (Holds(w.phase, id) || id in w.tried || id !in w.db.actions)
    && (w.phase.Removed? || w.phase.Refused? || w.phase.Broken? ==> w.phase.row.id in w.tried)
  }

  /** The pass goes on: it neither dies nor ends nor is another one begun. */
  predicate GoesOn(s: Step) {
    !s.Crash? && !s.EndPass? && !s.Begin?
  }

  lemma AttendedStep(w: World, s: Step, id: nat)
    requires Attended(w, id) && Can(w, s) && GoesOn(s)
    ensures Attended(Do(w, s), id)
  {
    if ByOthers(s) {
      AttendedAfterOthers(w, s, id);
    } else {
      AttendedInPass(w, s, id);
    }
  }

  lemma AttendedAfterOthers(w: World, s: Step, id: nat)
    requires Attended(w, id) && Can(w, s) && ByOthers(s)
    ensures Attended(Do(w, s), id)
  {
    OthersKeepPhase(w, s);
    NoNewActions(w, s);
  }

  lemma AttendedInPass(w: World, s: Step, id: nat)
    requires Attended(w, id) && Can(w, s) && !ByOthers(s) && GoesOn(s)
    ensures Attended(Do(w, s), id)
  {
    BooksKept(w, s);
    if Hand(w.phase) != [] {
      FirstDone(w, s);
      if Holds(w.phase, id) {
        FirstLeaves(Hand(w.phase), Hand(Do(w, s).phase), id);
      }
    }
    if id !in w.db.actions {
      NotBackInPass(w, s, id);
    }
  }

  lemma BooksKept(w: World, s: Step)
    requires Can(w, s) && !ByOthers(s) && GoesOn(s) && HasPass(w.phase)
    requires w.phase.Removed? || w.phase.Refused? || w.phase.Broken? ==> w.phase.row.id in w.tried
    ensures var v := Do(w, s);
            && HasPass(v.phase) && w.tried <= v.tried && v.db.nextId == w.db.nextId
            && (v.phase.Removed? || v.phase.Refused? || v.phase.Broken? ==> v.phase.row.id in v.tried)
  {
  }

  lemma NotBackInPass(w: World, s: Step, id: nat)
    requires Can(w, s) && !ByOthers(s) && GoesOn(s) && HasPass(w.phase) && id !in w.db.actions
    ensures id !in Do(w, s).db.actions
  {
  }

  lemma FirstLeaves(h: seq<DeletionRow>, h': seq<DeletionRow>, id: nat)
    requires h != [] && (h' == h || h' == h[1..]) && exists i :: 0 <= i < |h| && h[i].id == id
    ensures (exists i :: 0 <= i < |h'| && h'[i].id == id) || (h' == h[1..] && h[0].id == id)
  {
    var i :| 0 <= i < |h| && h[i].id == id;
    assert h' == h ==> h'[i].id == id;
    assert h' == h[1..] && i > 0 ==> h'[i - 1].id == id;
  }

  /** The first row in hand leaves it attempted or dropped. */
  lemma FirstDone(w: World, s: Step)
    requires Can(w, s) && !ByOthers(s) && GoesOn(s) && Hand(w.phase) != []
    requires w.phase.Removed? || w.phase.Refused? || w.phase.Broken? ==> w.phase.row.id in w.tried
    ensures var v, first := Do(w, s), Hand(w.phase)[0].id;
            Hand(v.phase) == Hand(w.phase) ||
            (Hand(v.phase) == Hand(w.phase)[1..] && (first in v.tried || first !in v.db.actions))
  {
  }

  lemma {:induction false} AttendedRun(w: World, steps: seq<Step>, w': World, id: nat)
    requires Attended(w, id) && Runs(w, steps, w') && forall i :: 0 <= i < |steps| ==> GoesOn(steps[i])
    ensures Attended(w', id)
    decreases |steps|
  {
    if steps != [] {
      AttendedStep(w, steps[0], id);
      AttendedRun(Do(w, steps[0]), steps[1..], w', id);
    }
  }

  /** So when a pass has gone through its rows, whatever else went on, each ripe row was attempted or is gone. */
  lemma NoneIsPassedOver(w: World, steps: seq<Step>, w': World, id: nat)
    requires IdsBounded(w) && Can(w, FetchDue) && w.roots.configured && Ripe(w.db, id, w.phase.now)
    requires Runs(Do(w, FetchDue), steps, w') && forall i :: 0 <= i < |steps| ==> GoesOn(steps[i])
    requires Hand(w'.phase) == []
    ensures id in w'.tried || id !in w'.db.actions
  {
    FetchTakesExactly(w, id);
    AttendedRun(Do(w, FetchDue), steps, w', id);
  }

  // ---- what a pass reports -----------------------------------------------------

  ghost predicate HasPass(phase: Phase) {
    phase.Looping? || phase.Marked? || phase.Removed? || phase.Refused? || phase.Broken?
  }

  /** The counters of a running pass are those of the `deleted` rows written since its loop began. */
  ghost predicate Tallied(w: World) {
    HasPass(w.phase) ==>
      var pass := w.phase.pass;
      && pass.mark <= |w.db.audit|
      && pass.deleted == DeletedRows(w.db.audit[pass.mark..])
      && pass.bytes == DeletedBytes(w.db.audit[pass.mark..])
  }

  lemma TallyAppend(audit: seq<AuditRow>, row: AuditRow, mark: nat)
    requires mark <= |audit|
    ensures DeletedRows((audit + [row])[mark..]) == DeletedRows(audit[mark..]) + (if row.event == Deleted then 1 else 0)
    ensures DeletedBytes((audit + [row])[mark..]) ==
            DeletedBytes(audit[mark..]) + if row.event == Deleted then row.bytes else 0
  {
    var tail := audit[mark..];
    assert (audit + [row])[mark..] == tail + [row];
    assert (tail + [row])[..|tail|] == tail;
  }

  lemma TallyLogged(w: World, s: Step)
    requires Tallied(w) && Can(w, s) && (s.ParkNext? || s.CommitDeleted? || s.CommitBroken? || s.ScheduleItem?)
    ensures Tallied(Do(w, s))
  {
    var v := Do(w, s);
    if HasPass(w.phase) && v.db.audit != w.db.audit {
      var row := v.db.audit[|w.db.audit|];
      assert v.db.audit == w.db.audit + [row];
      TallyAppend(w.db.audit, row, w.phase.pass.mark);
    }
  }

  lemma OthersLogNothing(w: World, s: Step)
    requires Can(w, s) && ByOthers(s) && !s.ScheduleItem?
    ensures Do(w, s).phase == w.phase && Do(w, s).db.audit == w.db.audit
  {
  }

  lemma TallyStep(w: World, s: Step)
    requires Tallied(w) && Can(w, s)
    ensures Tallied(Do(w, s))
  {
    if s.ParkNext? || s.CommitDeleted? || s.CommitBroken? || s.ScheduleItem? {
      TallyLogged(w, s);
    } else if ByOthers(s) {
      OthersLogNothing(w, s);
    } else if HasPass(w.phase) {
      assert HasPass(Do(w, s).phase) ==> Do(w, s).db.audit == w.db.audit;
    }
  }

  lemma {:induction false} TallyRun(w: World, steps: seq<Step>, w': World)
    requires Tallied(w) && Runs(w, steps, w')
    ensures Tallied(w')
    decreases |steps|
  {
    if steps != [] {
      TallyStep(w, steps[0]);
      TallyRun(Do(w, steps[0]), steps[1..], w');
    }
  }

  // ---- one unused deletion per item ---------------------------------------------

  /** At most one unused `scheduled_deletion` per item, whatever its delete_status: stronger than the partial index. */
  ghost predicate OneDeletionPerItem(db: Db) {
    forall i, j | i in db.actions && j in db.actions && i != j ::
      UnusedDeletion(db.actions[i]) && UnusedDeletion(db.actions[j]) ==> db.actions[i].item != db.actions[j].item
  }

  /** What SQLite enforces through the partial unique index. */
  ghost predicate IndexHolds(db: Db) {
    forall i, j | i in db.actions && j in db.actions && i != j ::
      Indexed(db.actions[i]) && Indexed(db.actions[j]) ==> db.actions[i].item != db.actions[j].item
  }

  /** Each UPDATE of the recovery loop, taken on its own, respects the index. */
  lemma {:induction false} RecoveryRespectsIndex(db: Db, rows: seq<DeletionRow>, files: set<string>, roots: Roots)
    requires OneDeletionPerItem(db)
    ensures OneDeletionPerItem(RecoverRows(db, rows, files, roots))
    ensures IndexHolds(RecoverRows(db, rows, files, roots))
  {
    if rows != [] {
      RecoveryRespectsIndex(db, rows[..|rows| - 1], files, roots);
    }
  }

  lemma UniqueAfterKeeper(w: World, s: Step)
    requires OneDeletionPerItem(w.db) && IdsBounded(w) && Can(w, s) && ByKeeper(s)
    ensures OneDeletionPerItem(Do(w, s).db)
  {
  }

  lemma UniqueAfterOthers(w: World, s: Step)
    requires OneDeletionPerItem(w.db) && IdsBounded(w) && Can(w, s) && ByOthers(s) && !ByKeeper(s)
    ensures OneDeletionPerItem(Do(w, s).db)
  {
  }

  lemma UniqueInPass(w: World, s: Step)
    requires OneDeletionPerItem(w.db) && Can(w, s) && !ByOthers(s) && !s.RecoverStuck? && !s.BootRecover?
    ensures OneDeletionPerItem(Do(w, s).db)
  {
  }

  lemma UniqueStep(w: World, s: Step)
    requires OneDeletionPerItem(w.db) && IdsBounded(w) && Can(w, s)
    ensures OneDeletionPerItem(Do(w, s).db)
  {
    if s.RecoverStuck? || s.BootRecover? {
      RecoveryRespectsIndex(w.db, Stuck(w.db), w.files, w.roots);
    } else if ByKeeper(s) {
      UniqueAfterKeeper(w, s);
    } else if ByOthers(s) {
      UniqueAfterOthers(w, s);
    } else {
      UniqueInPass(w, s);
    }
  }

  lemma {:induction false} UniqueRun(w: World, steps: seq<Step>, w': World)
    requires OneDeletionPerItem(w.db) && IdsBounded(w) && Runs(w, steps, w')
    ensures OneDeletionPerItem(w'.db) && IndexHolds(w'.db)
    decreases |steps|
  {
    if steps != [] {
      IdsStep(w, steps[0]);
      UniqueStep(w, steps[0]);
      UniqueRun(Do(w, steps[0]), steps[1..], w');
    }
  }
}
