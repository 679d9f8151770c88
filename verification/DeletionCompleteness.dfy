/** Crash then recovery: every path a pass got rid of ends up with exactly one `deleted` row. */
module DeletionCompleteness {
  import opened ActionTable
  import opened DeletionMachine
  import opened RecoveryLemmas
  import opened DeletionSafety
  import opened KeepDelete

  /** The action's deletion is under way: marked on disk, or in a pass's hand. */
  ghost predicate Busy(w: World, id: nat) {
    IsStuck(w.db, id) || Holds(w.phase, id)
  }

  /** An upsert that leaves the item's file where it was: what a library sync does to every item Plex still lists. */
  predicate KeepsPath(db: Db, item: string, data: Item) {
    item in db.items && db.items[item].path == data.path
  }

  /**
    The step does this action, once its deletion is under way, no harm: no sweep, prune, release or snooze takes its
    row, nothing moves its file to another path or out of the roots, and the file does not come back once cleared. What
    happens to other actions, and to this one at other times, does not matter.
    */
  ghost predicate Harmless(w: World, s: Step, id: nat) {
    Busy(w, id) && id in w.db.actions ==>
      match s
      case Clear => !UnusedDeletion(w.db.actions[id])
      case Prune(item) => item != w.db.actions[id].item
      case AdminRelease(i) => i != id
      case AdminKeep(i, keep) => i != id || keep.Forever?
      case Upsert(item, data) => item == w.db.actions[id].item ==> KeepsPath(w.db, item, data)
      case SetRoots(roots) => RowOf(w.db, id).path in w.roots.inside ==> RowOf(w.db, id).path in roots.inside
      case FileAppears(path) => (id, path) !in w.cleared
      case _ => true
  }

  ghost predicate RunsUndisturbed(w: World, steps: seq<Step>, w': World, id: nat)
    decreases |steps|
  {
    if steps == [] then w' == w
    else Can(w, steps[0]) && Harmless(w, steps[0], id) && RunsUndisturbed(Do(w, steps[0]), steps[1..], w', id)
  }

  predicate HasRow(phase: Phase) {
    phase.Marked? || phase.Removed? || phase.Refused? || phase.Broken?
  }

  /** The path is gone, and the row that says so is still there for recovery to find. */
  ghost predicate AwaitsCredit(w: World, id: nat, path: string) {
    IsStuck(w.db, id) && RowOf(w.db, id).path == path && path in w.roots.inside && path !in w.files
  }

  /** No snooze clean-up can sweep the row. */
  ghost predicate Unswept(db: Db, id: nat) {
    id in db.actions && (db.actions[id].kind != Snoozed || db.actions[id].tokenUsed)
  }

  /** Two rows of one action about one file: the size may have been re-recorded in between. */
  predicate SameFile(r: DeletionRow, q: DeletionRow) {
    r.id == q.id && r.item == q.item && r.path == q.path
  }

  /** While its deletion is under way the action has its row, which names the file in hand. */
  ghost predicate RowInHand(w: World, id: nat) {
    && (Busy(w, id) ==> Unswept(w.db, id))
    && (forall i :: 0 <= i < |Hand(w.phase)| && Hand(w.phase)[i].id == id ==>
          id in w.db.actions && SameFile(Hand(w.phase)[i], RowOf(w.db, id)))
    && (HasRow(w.phase) && w.phase.row.id == id ==> IsStuck(w.db, id))
    && (Holds(w.phase, id) && id in w.db.actions && RowOf(w.db, id).path in w.phase.pass.roots.inside ==>
          RowOf(w.db, id).path in w.roots.inside)
  }

  /** A cleared path is credited or awaits it; and nothing was cleared for a row a pass has yet to unlink. */
  ghost predicate Accounted(w: World, id: nat, path: string) {
    (id, path) in w.cleared ==>
      && (DeletedCount(w.db.audit, id) == 1 || AwaitsCredit(w, id, path))
      && (Holds(w.phase, id) ==> (w.phase.Removed? || w.phase.Broken?) && w.phase.row.id == id)
  }

  ghost predicate Complete(w: World, id: nat) {
    IdsBounded(w) && AuditedOnce(w) && RowInHand(w, id) && forall path :: Accounted(w, id, path)
  }

  // ---- what the rest of the system does to the action ---------------------------------------

  /** The row keeps its mark and names the same file, inside the roots if it was, and still absent if it was cleared. */
  ghost predicate LeftAlone(w: World, v: World, id: nat) {
    && id in w.db.actions && Unswept(v.db, id) && v.db.actions[id].status == w.db.actions[id].status
    && SameFile(RowOf(v.db, id), RowOf(w.db, id))
    && (RowOf(w.db, id).path in w.roots.inside ==> RowOf(w.db, id).path in v.roots.inside)
    && (forall path :: (id, path) in w.cleared && path !in w.files ==> path !in v.files)
  }

  lemma TablesLeaveRow(w: World, s: Step, id: nat)
    requires Can(w, s) && Harmless(w, s, id) && (s.Clear? || s.Upsert? || s.Prune? || s.SetRoots? || s.ScheduleItem?)
    requires Unswept(w.db, id) && id < w.db.nextId && Busy(w, id)
    ensures LeftAlone(w, Do(w, s), id)
  {
  }

  lemma KeepLeavesRow(w: World, s: Step, id: nat)
    requires Can(w, s) && s.KeepRow? && Unswept(w.db, id)
    ensures LeftAlone(w, Do(w, s), id)
  {
  }

  lemma AdminLeavesRow(w: World, s: Step, id: nat)
    requires Can(w, s) && Harmless(w, s, id) && (s.AdminKeep? || s.AdminProtect? || s.AdminRelease?)
    requires Unswept(w.db, id) && id < w.db.nextId && Busy(w, id)
    ensures LeftAlone(w, Do(w, s), id)
  {
  }

  lemma FilesLeaveRow(w: World, s: Step, id: nat)
    requires Can(w, s) && Harmless(w, s, id) && (s.FileAppears? || s.FileVanishes?)
    requires Unswept(w.db, id) && Busy(w, id)
    ensures LeftAlone(w, Do(w, s), id)
  {
  }

  lemma OthersLeaveRow(w: World, s: Step, id: nat)
    requires RowInHand(w, id) && Can(w, s) && Harmless(w, s, id) && ByOthers(s)
    requires id < w.db.nextId && Busy(w, id)
    ensures LeftAlone(w, Do(w, s), id)
  {
    if s.KeepRow? {
      KeepLeavesRow(w, s, id);
    } else if ByKeeper(s) {
      AdminLeavesRow(w, s, id);
    } else if s.FileAppears? || s.FileVanishes? {
      FilesLeaveRow(w, s, id);
    } else {
      TablesLeaveRow(w, s, id);
    }
  }

  lemma OthersMarkNothing(w: World, s: Step, id: nat)
    requires Can(w, s) && ByOthers(s) && IsStuck(Do(w, s).db, id)
    ensures IsStuck(w.db, id)
  {
  }

  lemma OthersClearNothing(w: World, s: Step)
    requires Can(w, s) && ByOthers(s)
    ensures Do(w, s).cleared == w.cleared
  {
  }

  lemma CompleteAfterOthers(w: World, s: Step, id: nat)
    requires Complete(w, id) && Can(w, s) && Harmless(w, s, id) && ByOthers(s)
    ensures RowInHand(Do(w, s), id) && forall path :: Accounted(Do(w, s), id, path)
  {
    var v := Do(w, s);
    OthersKeepPhase(w, s);
    OthersClearNothing(w, s);
    OtherStepsAuditNoDeletion(w, s);
    if IsStuck(v.db, id) {
      OthersMarkNothing(w, s, id);
    }
    if Busy(w, id) {
      assert id < w.db.nextId;
      OthersLeaveRow(w, s, id);
    }
    LeftAloneIsComplete(w, v, id);
  }

  lemma LeftAloneIsComplete(w: World, v: World, id: nat)
    requires RowInHand(w, id) && (forall path :: Accounted(w, id, path))
    requires v.phase == w.phase && v.cleared == w.cleared
    requires DeletedCount(v.db.audit, id) == DeletedCount(w.db.audit, id)
    requires (Busy(w, id) ==> LeftAlone(w, v, id)) && (IsStuck(v.db, id) ==> IsStuck(w.db, id))
    ensures RowInHand(v, id) && forall path :: Accounted(v, id, path)
  {
    assert HasRow(w.phase) ==> Hand(w.phase)[0] == w.phase.row;
    forall path ensures Accounted(v, id, path) {
      assert Accounted(w, id, path);
    }
  }

  // ---- and what recovery and the pass do ---------------------------------------------------------

  lemma RecoveryIs(w: World, s: Step)
    requires Can(w, s) && (s.RecoverStuck? || s.BootRecover?)
    ensures var v := Do(w, s);
            && v.db == Recover(w.db, w.files, w.roots) && v.cleared == w.cleared
            && !HasPass(w.phase) && !HasPass(v.phase)
  {
  }

  lemma CompleteAfterRecovery(w: World, s: Step, id: nat)
    requires Complete(w, id) && Can(w, s) && (s.RecoverStuck? || s.BootRecover?)
    ensures RowInHand(Do(w, s), id) && forall path :: Accounted(Do(w, s), id, path)
    ensures !IsStuck(Do(w, s).db, id)
  {
    RecoveryIs(w, s);
    RecoverEffect(w.db, w.files, w.roots, id);
    RecoveredIsComplete(w, Do(w, s), id);
  }

  lemma RecoveredIsComplete(w: World, v: World, id: nat)
    requires Complete(w, id) && v.cleared == w.cleared && !HasPass(v.phase) && !IsStuck(v.db, id)
    requires DeletedCount(v.db.audit, id) ==
             DeletedCount(w.db.audit, id) +
             if IsStuck(w.db, id) && Creditable(RowOf(w.db, id), w.files, w.roots) then 1 else 0
    ensures RowInHand(v, id) && forall path :: Accounted(v, id, path)
  {
    forall path ensures Accounted(v, id, path) {
      assert Accounted(w, id, path);
    }
  }

  lemma CompleteAfterFetch(w: World, id: nat)
    requires Complete(w, id) && Can(w, FetchDue)
    ensures RowInHand(Do(w, FetchDue), id) && forall path :: Accounted(Do(w, FetchDue), id, path)
  {
    FetchIs(w);
    FetchedIsComplete(w, Do(w, FetchDue), id, w.phase.now);
  }

  /** A pending row still in the table has no `deleted` row, so nothing was cleared for it. */
  lemma FetchedIsComplete(w: World, v: World, id: nat, now: int)
    requires Complete(w, id) && v.db == w.db && v.cleared == w.cleared && v.files == w.files && v.roots == w.roots
    requires v.phase.Looping? && v.phase.pass.roots == w.roots
    requires Hand(v.phase) == if w.roots.configured then Due(w.db, now) else []
    ensures RowInHand(v, id) && forall path :: Accounted(v, id, path)
  {
    if Holds(v.phase, id) {
      var i :| 0 <= i < |Hand(v.phase)| && Hand(v.phase)[i].id == id;
      assert IsDue(w.db, id, now);
      assert DeletedCount(w.db.audit, id) == 0 && !IsStuck(w.db, id);
    }
    forall path ensures Accounted(v, id, path) {
      assert Accounted(w, id, path);
    }
  }

  predicate ByExecutor(s: Step) {
    !ByOthers(s) && !s.RecoverStuck? && !s.BootRecover? && !s.FetchDue?
  }

  /** What an executor step does to any one row: only the row it works on may go, or change its status. */
  lemma ExecutorRow(w: World, s: Step, id: nat)
    requires Can(w, s) && ByExecutor(s)
    requires Unswept(w.db, id)
    ensures var v := Do(w, s);
            if (s.ParkNext? || s.CommitDeleted?) && Hand(w.phase)[0].id == id then id !in v.db.actions
            else
              && Unswept(v.db, id) && RowOf(v.db, id) == RowOf(w.db, id)
              && (v.db.actions[id].status != w.db.actions[id].status ==>
                    (s.MarkNext? || s.CommitRefused?) && Hand(w.phase)[0].id == id)
    ensures s.MarkNext? && Hand(w.phase)[0].id == id ==> IsStuck(Do(w, s).db, id)
  {
  }

  lemma NoNewStuckRows(w: World, s: Step, id: nat)
    requires Can(w, s) && ByExecutor(s) && IsStuck(Do(w, s).db, id)
    ensures IsStuck(w.db, id) || (s.MarkNext? && Hand(w.phase)[0].id == id)
  {
  }

  /** It works on the first row in hand. */
  lemma ExecutorHand(w: World, s: Step)
    requires Can(w, s) && ByExecutor(s) && HasRow(Do(w, s).phase)
    ensures Hand(w.phase) != [] && Do(w, s).phase.row == Hand(w.phase)[0]
    ensures s.MarkNext? || (s.Unlink? && w.phase.Marked?)
  {
  }

  lemma ExecutorKeepsRoots(w: World, s: Step)
    requires Can(w, s) && ByExecutor(s)
    ensures Do(w, s).roots == w.roots && Do(w, s).db.items == w.db.items
  {
  }

  lemma ExecutorPass(w: World, s: Step)
    requires Can(w, s) && ByExecutor(s) && HasPass(Do(w, s).phase)
    ensures HasPass(w.phase) && Do(w, s).phase.pass.roots == w.phase.pass.roots
  {
  }

  lemma RowAfterExecutor(w: World, s: Step, id: nat)
    requires IdsBounded(w) && RowInHand(w, id) && Can(w, s) && ByExecutor(s)
    ensures RowInHand(Do(w, s), id)
  {
    var v := Do(w, s);
    HandShrinks(w, s);
    HoldsNoMore(w, s);
    ExecutorKeepsRoots(w, s);
    if HasPass(v.phase) {
      ExecutorPass(w, s);
    }
    if HasRow(v.phase) {
      ExecutorHand(w, s);
    }
    if Hand(w.phase) != [] {
      FirstLeavesHand(w, s);
      assert Holds(w.phase, Hand(w.phase)[0].id);
    }
    if IsStuck(v.db, id) {
      NoNewStuckRows(w, s, id);
    }
    if Busy(w, id) {
      ExecutorRow(w, s, id);
      HandNamesFile(w, s, id);
    }
    assert HasPass(v.phase) || Hand(v.phase) == [];
  }

  lemma HandNamesFile(w: World, s: Step, id: nat)
    requires IdsBounded(w) && RowInHand(w, id) && Can(w, s) && ByExecutor(s)
    ensures forall i :: 0 <= i < |Hand(Do(w, s).phase)| && Hand(Do(w, s).phase)[i].id == id ==>
              id in Do(w, s).db.actions && SameFile(Hand(Do(w, s).phase)[i], RowOf(Do(w, s).db, id))
  {
    var h, h' := Hand(w.phase), Hand(Do(w, s).phase);
    HandShrinks(w, s);
    forall i | 0 <= i < |h'| && h'[i].id == id
      ensures id in Do(w, s).db.actions && SameFile(h'[i], RowOf(Do(w, s).db, id))
    {
      var k := if h' == h then i else i + 1;
      assert h'[i] == h[k] && Holds(w.phase, id);
      ExecutorRow(w, s, id);
      if s.ParkNext? || s.CommitDeleted? {
        FirstDropped(w, s);
      }
    }
  }

  lemma FirstDropped(w: World, s: Step)
    requires Can(w, s) && (s.ParkNext? || s.CommitDeleted?)
    ensures Hand(w.phase) != [] && Hand(Do(w, s).phase) == Hand(w.phase)[1..]
  {
  }

  lemma AccountedAfterCommit(w: World, id: nat, path: string)
    requires Complete(w, id) && w.phase.Removed?
    ensures Accounted(Do(w, CommitDeleted), id, path)
  {
    var row := w.phase.row;
    assert Accounted(w, id, path);
    assert Hand(w.phase)[0] == row && Holds(w.phase, row.id);
    FirstLeavesHand(w, CommitDeleted);
    IdsStep(w, CommitDeleted);
    CountAppend(w.db.audit, AuditRow(Deleted, row.item, row.id, row.size), id);
  }

  lemma UnlinkIs(w: World, outcome: Outcome)
    requires Can(w, Unlink(outcome))
    ensures var pass, row := w.phase.pass, w.phase.row;
            Do(w, Unlink(outcome)) == match outcome
                                      case Gone => Unlinked(w, true, Removed(pass, row))
                                      case Refusal => Unlinked(w, false, Refused(pass, row))
                                      case Missing(gone) => Unlinked(w, gone, Looping(pass))
                                      case Failure(gone) => Unlinked(w, gone, Broken(pass, row))
  {
  }

  lemma AccountedAfterUnlink(w: World, outcome: Outcome, id: nat, path: string)
    requires Complete(w, id) && Can(w, Unlink(outcome))
    ensures Accounted(Do(w, Unlink(outcome)), id, path)
  {
    var v := Do(w, Unlink(outcome));
    assert Hand(w.phase)[0] == w.phase.row && Holds(w.phase, w.phase.row.id);
    FirstLeavesHand(w, Unlink(outcome));
    HoldsNoMore(w, Unlink(outcome));
    UnlinkIs(w, outcome);
    UnlinkedIsAccounted(w, v, outcome.Gone? || (!outcome.Refusal? && outcome.gone), id, path);
  }

  lemma UnlinkedIsAccounted(w: World, v: World, gone: bool, id: nat, path: string)
    requires Complete(w, id) && w.phase.Marked? && v == Unlinked(w, gone, v.phase) && Holds(w.phase, w.phase.row.id)
    requires gone ==> w.phase.row.path in w.phase.pass.roots.inside
    requires Holds(v.phase, id) ==> Holds(w.phase, id)
    requires Holds(v.phase, w.phase.row.id) && gone ==>
               (v.phase.Removed? || v.phase.Broken?) && v.phase.row == w.phase.row
    ensures Accounted(v, id, path)
  {
    assert Accounted(w, id, path) && Hand(w.phase)[0] == w.phase.row;
  }

  lemma AccountedAfterExecutor(w: World, s: Step, id: nat, path: string)
    requires Complete(w, id) && Can(w, s) && ByExecutor(s)
    ensures Accounted(Do(w, s), id, path)
  {
    if s.CommitDeleted? {
      AccountedAfterCommit(w, id, path);
    } else if s.Unlink? {
      AccountedAfterUnlink(w, s.outcome, id, path);
    } else {
      AccountedElsewhere(w, s, id, path);
    }
  }

  lemma AccountedElsewhere(w: World, s: Step, id: nat, path: string)
    requires Complete(w, id) && Can(w, s) && ByExecutor(s) && !s.CommitDeleted? && !s.Unlink?
    ensures Accounted(Do(w, s), id, path)
  {
    var v := Do(w, s);
    if (id, path) in w.cleared {
      assert Accounted(w, id, path);
      OtherStepsAuditNoDeletion(w, s);
      if AwaitsCredit(w, id, path) {
        ExecutorRow(w, s, id);
        assert s.MarkNext? || s.ParkNext? || s.CommitRefused? ==> Holds(w.phase, Hand(w.phase)[0].id);
        assert AwaitsCredit(v, id, path);
      }
      if Holds(v.phase, id) {
        IdsStep(w, s);
        assert Hand(w.phase)[0] == w.phase.row;
        FirstLeavesHand(w, s);
        BrokenRowStays(w, s);
      }
    }
  }

  lemma BrokenRowStays(w: World, s: Step)
    requires Can(w, s) && ByExecutor(s) && (w.phase.Removed? || w.phase.Broken?)
    ensures Hand(Do(w, s).phase) == Hand(w.phase)[1..] || Hand(Do(w, s).phase) == []
  {
  }

  /** A row taken off the hand is not in it any more. */
  lemma FirstLeavesHand(w: World, s: Step)
    requires IdsBounded(w) && Can(w, s) && Hand(w.phase) != []
    ensures Hand(Do(w, s).phase) == Hand(w.phase)[1..] ==> !Holds(Do(w, s).phase, Hand(w.phase)[0].id)
  {
    forall i | 0 <= i < |Hand(w.phase)[1..]| ensures Hand(w.phase)[1..][i].id != Hand(w.phase)[0].id {
      assert Hand(w.phase)[1..][i] == Hand(w.phase)[i + 1];
    }
  }

  lemma CompleteStep(w: World, s: Step, id: nat)
    requires Complete(w, id) && Can(w, s) && Harmless(w, s, id)
    ensures Complete(Do(w, s), id)
  {
    IdsStep(w, s);
    AuditStep(w, s);
    if ByOthers(s) {
      CompleteAfterOthers(w, s, id);
    } else if s.RecoverStuck? || s.BootRecover? {
      CompleteAfterRecovery(w, s, id);
    } else if s.FetchDue? {
      CompleteAfterFetch(w, id);
    } else {
      RowAfterExecutor(w, s, id);
      forall path ensures Accounted(Do(w, s), id, path) { AccountedAfterExecutor(w, s, id, path); }
    }
  }

  lemma {:induction false} CompleteRun(w: World, steps: seq<Step>, w': World, id: nat)
    requires Complete(w, id) && RunsUndisturbed(w, steps, w', id)
    ensures Complete(w', id)
    decreases |steps|
  {
    if steps != [] {
      CompleteStep(w, steps[0], id);
      CompleteRun(Do(w, steps[0]), steps[1..], w', id);
    }
  }

  /**
    Stop the process after any run and recover: every path that delete_path got rid of for the action, by whichever
    outcome, has its one `deleted` row, and the action is not left marked 'deleting'.
    */
  lemma CrashThenRecovery(w0: World, steps: seq<Step>, w: World, id: nat)
    requires Fresh(w0) && RunsUndisturbed(w0, steps, w, id)
    ensures var r := Do(Do(w, Crash), BootRecover);
            && ((exists path :: (id, path) in w.cleared) ==> DeletedCount(r.db.audit, id) == 1)
            && !IsStuck(r.db, id)
  {
    CompleteRun(w0, steps, w, id);
    CompleteStep(w, Crash, id);
    var crashed := Do(w, Crash);
    CompleteAfterRecovery(crashed, BootRecover, id);
    var r := Do(crashed, BootRecover);
    forall path | (id, path) in w.cleared ensures DeletedCount(r.db.audit, id) == 1 {
      assert Accounted(r, id, path) && (id, path) in r.cleared;
    }
  }

  /**
    The transaction that writes an action's one `deleted` row is the transaction that drops the action: it was
    in the table before and is not after, and its file had been unlinked for it or was seen absent, inside the roots.
    */
  lemma DeletedRowDropsAction(w0: World, steps: seq<Step>, w: World, s: Step, id: nat)
    requires Fresh(w0) && RunsUndisturbed(w0, steps, w, id) && Can(w, s)
    requires DeletedCount(Do(w, s).db.audit, id) != DeletedCount(w.db.audit, id)
    ensures DeletedCount(w.db.audit, id) == 0 && DeletedCount(Do(w, s).db.audit, id) == 1
    ensures id in w.db.actions && id !in Do(w, s).db.actions
    ensures var path := RowOf(w.db, id).path;
            path in w.roots.inside && if s.CommitDeleted? then (id, path) in w.cleared else path !in w.files
  {
    CompleteRun(w0, steps, w, id);
    CreditedRowIsThere(w, s, id);
  }

  lemma CreditedRowIsThere(w: World, s: Step, id: nat)
    requires Complete(w, id) && Can(w, s)
    requires DeletedCount(Do(w, s).db.audit, id) != DeletedCount(w.db.audit, id)
    ensures DeletedCount(w.db.audit, id) == 0 && DeletedCount(Do(w, s).db.audit, id) == 1
    ensures id in w.db.actions && id !in Do(w, s).db.actions
    ensures var path := RowOf(w.db, id).path;
            path in w.roots.inside && if s.CommitDeleted? then (id, path) in w.cleared else path !in w.files
  {
    DeletedRowMeaning(w, s, id);
    if s.CommitDeleted? {
      assert Hand(w.phase)[0] == w.phase.row && Holds(w.phase, id);
    }
  }

  // ---- what a sweep in the gap loses ------------------------------------------------------

  /** An action that has left the table and every hand gets no `deleted` row any more, whatever happens. */
  lemma {:induction false} GoneForGood(w: World, steps: seq<Step>, w': World, id: nat)
    requires IdsBounded(w) && AuditedOnce(w) && Runs(w, steps, w')
    requires id !in w.db.actions && !Holds(w.phase, id) && id < w.db.nextId
    ensures DeletedCount(w'.db.audit, id) == DeletedCount(w.db.audit, id)
    decreases |steps|
  {
    if steps != [] {
      var s := steps[0];
      StaysGone(w, s, id);
      IdsStep(w, s);
      AuditStep(w, s);
      GoneForGood(Do(w, s), steps[1..], w', id);
    }
  }

  lemma CreditNeedsRow(w: World, s: Step, id: nat)
    requires IdsBounded(w) && AuditedOnce(w) && Can(w, s)
    ensures DeletedCount(Do(w, s).db.audit, id) != DeletedCount(w.db.audit, id) ==>
              id in w.db.actions || Holds(w.phase, id)
  {
    if DeletedCount(Do(w, s).db.audit, id) != DeletedCount(w.db.audit, id) {
      DeletedRowMeaning(w, s, id);
      if s.CommitDeleted? {
        assert Hand(w.phase)[0].id == id;
      }
    }
  }

  lemma StaysGone(w: World, s: Step, id: nat)
    requires IdsBounded(w) && AuditedOnce(w) && Can(w, s)
    requires id !in w.db.actions && !Holds(w.phase, id) && id < w.db.nextId
    ensures var v := Do(w, s);
            id !in v.db.actions && !Holds(v.phase, id) && DeletedCount(v.db.audit, id) == DeletedCount(w.db.audit, id)
  {
    var v := Do(w, s);
    CreditNeedsRow(w, s, id);
    if s.RecoverStuck? || s.BootRecover? {
      RecoverEffect(w.db, w.files, w.roots, id);
    }
    if s.FetchDue? {
      forall i | 0 <= i < |Hand(v.phase)| ensures Hand(v.phase)[i].id != id {
        assert IsDue(w.db, Hand(v.phase)[i].id, w.phase.now);
      }
    } else {
      IdsStep(w, s);
    }
  }

  /**
    After any run that has stopped and left the action alone, a sweep of the pending deletions before recovery loses its
    credit exactly if the row is still marked 'deleting' and was not turned by a keep: then no later run credits it, and
    otherwise the recovery that follows leaves it its one `deleted` row.
    */
  lemma SweepLosesExactly(w0: World, steps: seq<Step>, w: World, id: nat, path: string, more: seq<Step>, later: World)
    requires Fresh(w0) && RunsUndisturbed(w0, steps, w, id) && w.phase.Idle? && (id, path) in w.cleared
    ensures if IsStuck(w.db, id) && UnusedDeletion(w.db.actions[id]) then
              Runs(Do(w, Clear), more, later) ==> DeletedCount(later.db.audit, id) == 0
            else DeletedCount(Do(Do(w, Clear), BootRecover).db.audit, id) == 1
  {
    CompleteRun(w0, steps, w, id);
    if IsStuck(w.db, id) && UnusedDeletion(w.db.actions[id]) {
      SweptRowIsLost(w, id, more, later);
    } else {
      assert Accounted(w, id, path);
      SparedRowIsCredited(w, id, path);
    }
  }

  lemma SweptRowIsLost(w: World, id: nat, more: seq<Step>, later: World)
    requires IdsBounded(w) && AuditedOnce(w) && w.phase.Idle? && id in w.db.actions && UnusedDeletion(w.db.actions[id])
    ensures Runs(Do(w, Clear), more, later) ==> DeletedCount(later.db.audit, id) == 0
  {
    if Runs(Do(w, Clear), more, later) {
      IdsStep(w, Clear);
      AuditStep(w, Clear);
      GoneForGood(Do(w, Clear), more, later, id);
    }
  }

  lemma SparedRowIsCredited(w: World, id: nat, path: string)
    requires w.phase.Idle? && (DeletedCount(w.db.audit, id) == 1 || AwaitsCredit(w, id, path))
    requires IdsBounded(w) && !(IsStuck(w.db, id) && UnusedDeletion(w.db.actions[id]))
    requires IsStuck(w.db, id) ==> AwaitsCredit(w, id, path) && DeletedCount(w.db.audit, id) == 0
    ensures DeletedCount(Do(Do(w, Clear), BootRecover).db.audit, id) == 1
  {
    var swept := Do(w, Clear);
    RecoverEffect(swept.db, swept.files, swept.roots, id);
  }

  /** The process dies with the file gone and its row marked. */
  lemma CrashInTheGap() returns (steps: seq<Step>, w: World)
    ensures Fresh(OneDue(5)) && Runs(OneDue(5), steps, w) && w.phase.Idle?
    ensures (0, PATH) in w.cleared && w.db.audit == [] && w.db.actions.Keys == {0} && UnusedDeletion(w.db.actions[0])
  {
    PathIsNotBlank();
    FetchOne(5, 9);
    var w3 := OneFetched(5, 9);
    var w4 := Do(w3, MarkNext);
    var w5 := Do(w4, Unlink(Gone));
    w := Do(w5, Crash);
    steps := [Begin(9)] + FETCHING;
    RunsThenStep(OneDue(5), steps, w3, MarkNext);
    RunsThenStep(OneDue(5), steps + [MarkNext], w4, Unlink(Gone));
    RunsThenStep(OneDue(5), steps + [MarkNext] + [Unlink(Gone)], w5, Crash);
    steps := steps + [MarkNext] + [Unlink(Gone)] + [Crash];
  }

  /**
    Left to the sweep of pending deletions in the gap between crash and recovery, a deletion leaves no trace in the log.
    */
  lemma SweptInTheGap() returns (steps: seq<Step>, w: World)
    ensures Fresh(OneDue(5)) && Runs(OneDue(5), steps, w) && w.phase.Idle?
    ensures (0, PATH) in w.cleared && Recover(w.db, w.files, w.roots) == w.db && DeletedCount(w.db.audit, 0) == 0
  {
    var before;
    steps, before := CrashInTheGap();
    w := Do(before, Clear);
    RunsThenStep(OneDue(5), steps, before, Clear);
    steps := steps + [Clear];
    assert w.db.actions == map[];
  }
}
