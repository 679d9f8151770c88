/**
  Deletion passes, crashes, crash recovery, keeps over a link, an admin's keeps and releases, the scan's schedules,
  upserts, prunes and sweeps, and changes on the disk, as one interleaving machine. The web's own delete flow is not a
  part of it. A step is one committed transaction or one effect on the disk; the statements of an uncommitted
  transaction are invisible to everyone else and a crash drops them, so a crash between any two statements of the
  executor is a `Crash` between two steps.
  */
module DeletionMachine {
  import opened Wrappers
  import opened ActionTable

  /** A live pass in memory. `mark` is the length of the audit log when the loop started. */
  datatype Pass = Pass(now: int, roots: Roots, queue: seq<DeletionRow>, mark: nat, deleted: nat, bytes: int)

  datatype Phase =
    | Idle
    | Started(now: int)                    // clock read, recovery not yet run
    | Recovered(now: int)                  // recovery committed, due rows not yet fetched
    | Looping(pass: Pass)                  // between two rows
    | Marked(pass: Pass, row: DeletionRow)   // 'deleting' committed, file not yet touched
    | Removed(pass: Pass, row: DeletionRow)  // delete_path returned, nothing committed yet
    | Refused(pass: Pass, row: DeletionRow)  // delete_path refused, reset not yet committed
    | Broken(pass: Pass, row: DeletionRow)   // delete_path failed, failure audit not yet committed

  /** How `delete_path` can end. A failing call may or may not have got rid of the path. */
  datatype Outcome = Gone | Refusal | Missing(gone: bool) | Failure(gone: bool)

  /** A keep that changed its row: the clock it compared with, the time it ran, and the deadline it found. */
  datatype KeepRecord = KeepRecord(reading: int, at: int, due: int)

  /** The last five fields only remember what happened; no step's effect on the others depends on them. */
  datatype World = World(
    db: Db, files: set<string>, roots: Roots, clock: int, phase: Phase,
    cleared: set<(nat, string)>,    // what delete_path got rid of, by action
    keeps: map<nat, KeepRecord>,    // keeps that returned rowcount 1
    fetches: map<nat, int>,         // the clock of the first fetch of each action
    turned: map<nat, bool>,         // rows an admin kept, and whether they had been fetched by the first time
    tried: set<nat>)                // rows whose removal the latest pass has attempted

  datatype Step =
    | Begin(at: int) | RecoverStuck | FetchDue | MarkNext | ParkNext | Unlink(outcome: Outcome)
    | CommitDeleted | CommitRefused | CommitBroken | EndPass(sweep: bool) | BootRecover | Crash
    | KeepRow(id: nat, keep: Keep, reading: int, at: int)
    | AdminKeep(id: nat, keep: Keep) | AdminProtect(item: string, keep: Keep) | AdminRelease(id: nat)
    | ScheduleItem(item: string, executeAt: int, at: int)
    | Clear | Upsert(item: string, data: Item) | Prune(item: string)
    | FileAppears(path: string) | FileVanishes(path: string) | SetRoots(newRoots: Roots)

  predicate Can(w: World, s: Step) {
    match s
    case Begin(at) => w.phase.Idle? && at >= w.clock
    case RecoverStuck => w.phase.Started?
    case FetchDue => w.phase.Recovered?
    case MarkNext => w.phase.Looping? && w.phase.pass.queue != [] && !Blank(w.phase.pass.queue[0].path)
    case ParkNext => w.phase.Looping? && w.phase.pass.queue != [] && Blank(w.phase.pass.queue[0].path)
    case Unlink(outcome) => w.phase.Marked? && (w.phase.row.path !in w.phase.pass.roots.inside ==> outcome.Refusal?)
    case CommitDeleted => w.phase.Removed?
    case CommitRefused => w.phase.Refused?
    case CommitBroken => w.phase.Broken?
    case EndPass(_) => w.phase.Looping? && w.phase.pass.queue == []
    case BootRecover => w.phase.Idle?
    case Crash => true
    case KeepRow(_, _, reading, at) => reading <= at && at >= w.clock
    case ScheduleItem(item, _, at) => at >= w.clock && !IsAlreadyScheduled(w.db, item)
    case _ => true
  }

  function TakeNext(pass: Pass): Pass
    requires pass.queue != []
  {
    pass.(queue := pass.queue[1..])
  }

  function Unlinked(w: World, gone: bool, phase: Phase): World
    requires w.phase.Marked?
  {
    var row := w.phase.row;
    var tried := w.tried + {row.id};
    if gone then
      w.(files := w.files - {row.path}, cleared := w.cleared + {(row.id, row.path)}, phase := phase, tried := tried)
    else w.(phase := phase, tried := tried)
  }

  function NoteFetches(fetches: map<nat, int>, rows: seq<DeletionRow>, now: int): (m: map<nat, int>)
    ensures forall id :: id in fetches ==> id in m && m[id] == fetches[id]
    ensures forall r :: r in rows ==> r.id in m
  {
    (map r | r in rows :: r.id := now) + fetches
  }

  function Do(w: World, s: Step): World
    requires Can(w, s)
  {
    match s
    case Begin(at) => w.(clock := at, phase := Started(at), tried := {})
    case RecoverStuck => w.(db := Recover(w.db, w.files, w.roots), phase := Recovered(w.phase.now))
    case FetchDue =>
      var rows := Due(w.db, w.phase.now);
      // An unconfigured allowlist skips every row.
      w.(fetches := NoteFetches(w.fetches, rows, w.phase.now),
         phase := Looping(Pass(w.phase.now, w.roots, if w.roots.configured then rows else [], |w.db.audit|, 0, 0)))
    case MarkNext =>
      var row := w.phase.pass.queue[0];
      w.(db := Mark(w.db, row.id, Deleting), phase := Marked(TakeNext(w.phase.pass), row))
    case ParkNext =>
      var row := w.phase.pass.queue[0];
      w.(db := Drop(Log(w.db, DeleteFailed, row, 0), row.id), phase := Looping(TakeNext(w.phase.pass)))
    case Unlink(outcome) =>
      var pass, row := w.phase.pass, w.phase.row;
      (match outcome
       case Gone => Unlinked(w, true, Removed(pass, row))
       case Refusal => Unlinked(w, false, Refused(pass, row))
       case Missing(gone) => Unlinked(w, gone, Looping(pass))
       case Failure(gone) => Unlinked(w, gone, Broken(pass, row)))
    case CommitDeleted =>
      var pass, row := w.phase.pass, w.phase.row;
      w.(db := Drop(Log(w.db, Deleted, row, row.size), row.id),
         phase := Looping(pass.(deleted := pass.deleted + 1, bytes := pass.bytes + row.size)))
    case CommitRefused => w.(db := Mark(w.db, w.phase.row.id, Pending), phase := Looping(w.phase.pass))
    case CommitBroken => w.(db := Log(w.db, DeleteFailed, w.phase.row, 0), phase := Looping(w.phase.pass))
    case EndPass(sweep) =>
      w.(db := if sweep then CleanupSnoozes(w.db, w.phase.pass.now) else w.db, phase := Idle)
    case BootRecover => w.(db := Recover(w.db, w.files, w.roots))
    case Crash => w.(phase := Idle)
    case KeepRow(id, keep, reading, at) =>
      if Keepable(w.db, id, reading) then
        w.(db := ApplyKeep(w.db, id, keep, reading), clock := at,
           keeps := w.keeps[id := KeepRecord(reading, at, w.db.actions[id].executeAt.value)])
      else w.(clock := at)
    case AdminKeep(id, keep) =>
      w.(db := AdminKept(w.db, id, keep),
         turned := if id in w.db.actions && id !in w.turned then w.turned[id := id in w.fetches] else w.turned)
    case AdminProtect(item, keep) => w.(db := AdminProtected(w.db, item, keep))
    case AdminRelease(id) => w.(db := Drop(w.db, id))
    case ScheduleItem(item, executeAt, at) =>
      w.(db := Schedule(w.db, item, executeAt, HasExpiredSnooze(w.db, item)), clock := at)
    case Clear => w.(db := ClearPending(w.db))
    case Upsert(item, data) => w.(db := w.db.(items := w.db.items[item := data]))
    case Prune(item) =>
      w.(db := w.db.(items := w.db.items - {item},
                     actions := map id | id in w.db.actions && w.db.actions[id].item != item :: w.db.actions[id]))
    case FileAppears(path) => w.(files := w.files + {path})
    case FileVanishes(path) => w.(files := w.files - {path})
    case SetRoots(roots) => w.(roots := roots)
  }

  /** `w'` is what the steps make of `w`, each of them enabled when its turn comes. */
  predicate Runs(w: World, steps: seq<Step>, w': World)
    decreases |steps|
  {
    if steps == [] then w' == w
    else Can(w, steps[0]) && Runs(Do(w, steps[0]), steps[1..], w')
  }

  lemma RunsOn(w: World, s: Step, rest: seq<Step>, w': World)
    requires Can(w, s) && Runs(Do(w, s), rest, w')
    ensures Runs(w, [s] + rest, w')
  {
    assert ([s] + rest)[1..] == rest;
  }

  lemma {:induction false} RunsAppend(w: World, a: seq<Step>, m: World, b: seq<Step>, w': World)
    requires Runs(w, a, m) && Runs(m, b, w')
    ensures Runs(w, a + b, w')
    decreases |a|
  {
    if a == [] {
      assert a + b == b;
    } else {
      RunsAppend(Do(w, a[0]), a[1..], m, b, w');
      assert (a + b)[1..] == a[1..] + b;
    }
  }

  lemma RunsOne(w: World, s: Step)
    requires Can(w, s)
    ensures Runs(w, [s], Do(w, s))
  {
    RunsOn(w, s, [], Do(w, s));
    assert [s] + [] == [s];
  }

  lemma RunsThenStep(w: World, steps: seq<Step>, w': World, s: Step)
    requires Runs(w, steps, w') && Can(w', s)
    ensures Runs(w, steps + [s], Do(w', s))
  {
    RunsOne(w', s);
    RunsAppend(w, steps, w', [s], Do(w', s));
  }

  // ---- counting the audit log -----------------------------------------------

  /** Committed `deleted` rows of one action. */
  function DeletedCount(audit: seq<AuditRow>, id: nat): nat {
    if audit == [] then 0
    else DeletedCount(audit[..|audit| - 1], id) +
         if audit[|audit| - 1].event == Deleted && audit[|audit| - 1].action == id then 1 else 0
  }

  /** How many `deleted` rows there are, and the bytes they credit. */
  function DeletedRows(audit: seq<AuditRow>): nat {
    if audit == [] then 0
    else DeletedRows(audit[..|audit| - 1]) + if audit[|audit| - 1].event == Deleted then 1 else 0
  }

  function DeletedBytes(audit: seq<AuditRow>): int {
    if audit == [] then 0
    else
      var row := audit[|audit| - 1];
      DeletedBytes(audit[..|audit| - 1]) + if row.event == Deleted then row.bytes else 0
  }
}
