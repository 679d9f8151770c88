/** The deletion pass as the code runs it, over one connection, proved to be a run of the machine. */
module DeletionExecutor {
  import opened ActionTable
  import opened DeletionMachine
  import opened RecoveryLemmas
  import opened DeletionSafety

  /**
    `work` is what the connection sees, `disk` the last commit: between statements and their commit they differ,
    and a crash keeps only `disk` and `files`. `world` is the machine state the executor stands for.
    */
  class Executor {
    const dryRun: bool
    const cleanupSnoozes: bool
    const fate: nat -> Outcome               // how removing each row's path ends, if it lies inside the roots
    var work: Db
    var disk: Db
    var files: set<string>
    var roots: Roots
    ghost var world: World

    ghost predicate Valid()
      reads this
    {
      world.db == disk && world.files == files && world.roots == roots
    }

    /** No transaction is open. */
    ghost predicate Clean()
      reads this
    {
      Valid() && work == disk
    }

    constructor (db: Db, files: set<string>, roots: Roots, clock: int, dryRun: bool, cleanupSnoozes: bool,
                 fate: nat -> Outcome)
      ensures Clean() && disk == db && this.files == files && this.roots == roots
      ensures world == World(db, files, roots, clock, Idle, {}, map[], map[], map[], {})
      ensures this.dryRun == dryRun && this.cleanupSnoozes == cleanupSnoozes && this.fate == fate
    {
      this.dryRun, this.cleanupSnoozes, this.fate := dryRun, cleanupSnoozes, fate;
      this.work, this.disk, this.files, this.roots := db, db, files, roots;
      this.world := World(db, files, roots, clock, Idle, {}, map[], map[], map[], {});
    }

    // ---- statements -----------------------------------------------------------

    method MarkDeleteStatus(id: nat, status: Status)
      modifies this`work
      ensures work == Mark(old(work), id, status)
    {
      if id in work.actions {
        work := work.(actions := work.actions[id := work.actions[id].(status := status)]);
      }
    }

    method DeleteScheduledAction(id: nat)
      modifies this`work
      ensures work == Drop(old(work), id)
    {
      work := work.(actions := work.actions - {id});
    }

    method LogAudit(event: Event, row: DeletionRow, bytes: int)
      modifies this`work
      ensures work == Log(old(work), event, row, bytes)
    {
      work := work.(audit := work.audit + [AuditRow(event, row.item, row.id, bytes)]);
    }

    method Commit()
      modifies this`disk
      ensures disk == work
    {
      disk := work;
    }

    /** The file system: refuses outside the roots, and otherwise does what it does to this one path. */
    method DeletePath(path: string, allowed: Roots, answer: Outcome) returns (outcome: Outcome)
      modifies this`files
      ensures outcome == if path in allowed.inside then answer else Refusal
      ensures files == if Cleared(outcome) then old(files) - {path} else old(files)
    {
      outcome := if path in allowed.inside then answer else Refusal;
      if Cleared(outcome) {
        files := files - {path};
      }
    }

    // ---- recovery -------------------------------------------------------------

    method RecoverStuckDeletions()
      requires work == disk
      modifies this`work, this`disk
      ensures disk == work == Recover(old(disk), files, roots)
    {
      var rows := Stuck(work);
      if rows == [] {
        return;
      }
      var i := 0;
      while i < |rows|
        invariant i <= |rows| && disk == old(disk)
        invariant work == RecoverRows(old(work), rows[..i], files, roots)
      {
        var row := rows[i];
        assert rows[..i + 1][..i] == rows[..i];
        var present := row.path != "" && row.path in files;
        if present {
          MarkDeleteStatus(row.id, Pending);
        } else if row.path !in roots.inside {
          MarkDeleteStatus(row.id, Pending);
        } else {
          LogAudit(Deleted, row, row.size);
          DeleteScheduledAction(row.id);
        }
        i := i + 1;
      }
      assert rows[..|rows|] == rows;
      Commit();
    }

    // ---- one row ----------------------------------------------------------------

    /** Where the machine stands once delete_path has ended so. */
    ghost predicate Unlinked(pass: Pass, row: DeletionRow, outcome: Outcome)
      reads this
    {
      world.phase == match outcome
                     case Gone => Removed(pass, row)
                     case Refusal => Refused(pass, row)
                     case Missing(_) => Looping(pass)
                     case Failure(_) => Broken(pass, row)
    }

    method RemovePath(row: DeletionRow, allowed: Roots) returns (outcome: Outcome)
      requires Clean() && world.phase.Marked? && world.phase.row == row && world.phase.pass.roots == allowed
      modifies this`files, this`world
      ensures Can(old(world), Unlink(outcome)) && world == Do(old(world), Unlink(outcome))
      ensures Clean() && Unlinked(old(world).phase.pass, row, outcome) && disk == old(disk)
      ensures outcome == if row.path in allowed.inside then fate(row.id) else Refusal
      ensures files == if Cleared(outcome) then old(files) - {row.path} else old(files)
    {
      outcome := DeletePath(row.path, allowed, fate(row.id));
      world := Do(world, Unlink(outcome));
    }

    /** Commits what each outcome but success asks for. */
    method SettleOutcome(row: DeletionRow, outcome: Outcome, ghost pass: Pass) returns (ghost steps: seq<Step>)
      requires Clean() && Unlinked(pass, row, outcome)
      modifies this`work, this`disk, this`world
      ensures Clean() && Runs(old(world), steps, world)
      ensures forall i :: 0 <= i < |steps| ==> InPass(steps[i])
      ensures world.phase == if outcome.Gone? then Removed(pass, row) else Looping(pass)
      ensures disk == match outcome
                      case Refusal => Mark(old(disk), row.id, Pending)
                      case Failure(_) => Log(old(disk), DeleteFailed, row, 0)
                      case _ => old(disk)
    {
      ghost var w := world;
      steps := [];
      match outcome {
        case Gone =>
        case Refusal =>
          MarkDeleteStatus(row.id, Pending);
          Commit();
          world := Do(w, CommitRefused);
          steps := [CommitRefused];
          RunsOne(w, CommitRefused);
        case Missing(_) =>
        case Failure(_) =>
          LogAudit(DeleteFailed, row, 0);
          Commit();
          world := Do(w, CommitBroken);
          steps := [CommitBroken];
          RunsOne(w, CommitBroken);
      }
    }

    /** Attempts the removal and settles every outcome but success; true only when the path is gone. */
    method DeleteFileOnDisk(row: DeletionRow, allowed: Roots) returns (ok: bool, ghost steps: seq<Step>)
      requires Clean() && world.phase.Marked? && world.phase.row == row && world.phase.pass.roots == allowed
      modifies this`work, this`disk, this`files, this`world
      ensures Clean() && Runs(old(world), steps, world)
      ensures forall i :: 0 <= i < |steps| ==> InPass(steps[i])
      ensures world.phase == if ok then Removed(old(world).phase.pass, row) else Looping(old(world).phase.pass)
      ensures ok == (row.path in allowed.inside && fate(row.id).Gone?)
      ensures var outcome := if row.path in allowed.inside then fate(row.id) else Refusal;
              && files == (if Cleared(outcome) then old(files) - {row.path} else old(files))
              && disk == match outcome
                         case Refusal => Mark(old(disk), row.id, Pending)
                         case Failure(_) => Log(old(disk), DeleteFailed, row, 0)
                         case _ => old(disk)
    {
      var outcome := RemovePath(row, allowed);
      ok := outcome.Gone?;
      steps := SettleOutcome(row, outcome, old(world).phase.pass);
      RunsOn(old(world), Unlink(outcome), steps, world);
      steps := [Unlink(outcome)] + steps;
    }

    method CommitDeletion(row: DeletionRow)
      requires Clean() && world.phase.Removed? && world.phase.row == row
      modifies this`work, this`disk, this`world
      ensures Clean() && world == Do(old(world), CommitDeleted)
      ensures var pass := old(world).phase.pass;
              world.phase == Looping(pass.(deleted := pass.deleted + 1, bytes := pass.bytes + row.size))
      ensures disk == Drop(Log(old(disk), Deleted, row, row.size), row.id)
    {
      LogAudit(Deleted, row, row.size);
      DeleteScheduledAction(row.id);
      Commit();
      world := Do(world, CommitDeleted);
    }

    /** A row without a path can never be deleted: it is logged as failed and dropped. */
    method ParkBlank(row: DeletionRow)
      requires Clean() && Can(world, ParkNext) && world.phase.pass.queue[0] == row
      modifies this`work, this`disk, this`world
      ensures Clean() && world == Do(old(world), ParkNext) && world.phase == Looping(TakeNext(old(world).phase.pass))
      ensures disk == Drop(Log(old(disk), DeleteFailed, row, 0), row.id)
    {
      LogAudit(DeleteFailed, row, 0);
      DeleteScheduledAction(row.id);
      Commit();
      world := Do(world, ParkNext);
    }

    /** 'deleting' is committed before the file is touched. */
    method MarkRow(row: DeletionRow)
      requires Clean() && Can(world, MarkNext) && world.phase.pass.queue[0] == row
      modifies this`work, this`disk, this`world
      ensures Clean() && world == Do(old(world), MarkNext)
      ensures world.phase == Marked(TakeNext(old(world).phase.pass), row) && disk == Mark(old(disk), row.id, Deleting)
    {
      MarkDeleteStatus(row.id, Deleting);
      Commit();
      world := Do(world, MarkNext);
    }

    /**
      One due row from first look to last commit: the machine takes it off the queue and counts it exactly when it was
      deleted.
      */
    method DeleteOne(row: DeletionRow, allowed: Roots) returns (ok: bool, ghost steps: seq<Step>)
      requires Clean() && world.phase.Looping? && world.phase.pass.roots == allowed
      requires world.phase.pass.queue != [] && world.phase.pass.queue[0] == row
      modifies this`work, this`disk, this`files, this`world
      ensures Clean() && Runs(old(world), steps, world)
      ensures forall i :: 0 <= i < |steps| ==> InPass(steps[i])
      ensures var pass := TakeNext(old(world).phase.pass);
              world.phase == Looping(if ok then pass.(deleted := pass.deleted + 1, bytes := pass.bytes + row.size)
                                     else pass)
      ensures disk == RowDone(old(disk), row, allowed, fate(row.id))
      ensures files == FilesDone(old(files), row, allowed, fate(row.id))
    {
      ghost var w := world;
      if Blank(row.path) {
        ParkBlank(row);
        RunsOne(w, ParkNext);
        return false, [ParkNext];
      }
      MarkRow(row);
      ok, steps := DeleteFileOnDisk(row, allowed);
      RunsOn(w, MarkNext, steps, world);
      steps := [MarkNext] + steps;
      if ok {
        ghost var removed := world;
        CommitDeletion(row);
        RunsThenStep(w, steps, removed, CommitDeleted);
        steps := steps + [CommitDeleted];
      }
    }

    // ---- the pass ---------------------------------------------------------------

    /**
      A live pass is one uninterrupted run of the machine from Begin to EndPass, and what it returns are the
      count and the bytes of the `deleted` rows it committed after its recovery; the tables it leaves are those of each
      ripe row in its turn (see `PassSettlesEach`). A dry run adds one preview row to the log per due row, in order,
      changes nothing else, and reports nothing deleted.
      */
    method Execute(now: int) returns (deleted: nat, bytes: int, ghost steps: seq<Step>)
      requires Clean() && world.phase.Idle? && now >= world.clock
      modifies this`work, this`disk, this`files, this`world
      ensures Clean() && world.phase.Idle?
      ensures dryRun ==>
                && deleted == 0 && bytes == 0 && files == old(files)
                && disk == old(disk).(audit := old(disk).audit + Previews(Due(old(disk), now)))
                && DeletedRows(disk.audit) == DeletedRows(old(disk).audit)
      ensures !dryRun ==>
                && Runs(old(world), steps, world) && IsPass(steps, now, cleanupSnoozes)
                && |Recover(old(disk), old(files), roots).audit| <= |disk.audit|
                && deleted == DeletedRows(disk.audit[|Recover(old(disk), old(files), roots).audit|..])
                && bytes == DeletedBytes(disk.audit[|Recover(old(disk), old(files), roots).audit|..])
      ensures !dryRun ==> disk == PassDone(Recover(old(disk), old(files), roots), roots, fate, now, cleanupSnoozes)
    {
      if dryRun {
        PreviewRows(Due(work, now));
        world := world.(db := disk);
        return 0, 0, [];
      }
      deleted, bytes, steps := ExecuteLive(now);
    }

    method ExecuteLive(now: int) returns (deleted: nat, bytes: int, ghost steps: seq<Step>)
      requires Clean() && world.phase.Idle? && now >= world.clock
      modifies this`work, this`disk, this`files, this`world
      ensures Clean() && world.phase.Idle?
      ensures Runs(old(world), steps, world) && IsPass(steps, now, cleanupSnoozes)
      ensures |Recover(old(disk), old(files), roots).audit| <= |disk.audit|
      ensures deleted == DeletedRows(disk.audit[|Recover(old(disk), old(files), roots).audit|..])
      ensures bytes == DeletedBytes(disk.audit[|Recover(old(disk), old(files), roots).audit|..])
      ensures disk == PassDone(Recover(old(disk), old(files), roots), roots, fate, now, cleanupSnoozes)
    {
      var rows := OpenPass(now);
      deleted, bytes, steps := 0, 0, [];
      if roots.configured {
        deleted, bytes, steps := DeleteRows(rows, roots);
      }
      ghost var looped := world;
      PassRuns(old(world), now, steps, looped, cleanupSnoozes);
      ClosePass(now);
      steps := Opening(now) + steps + [EndPass(cleanupSnoozes)];
    }

    /** Recovery, then the due rows. */
    method OpenPass(now: int) returns (rows: seq<DeletionRow>)
      requires Clean() && world.phase.Idle? && now >= world.clock
      modifies this`work, this`disk, this`world
      ensures Clean() && world == Opened(old(world), now) && rows == Due(disk, now)
      ensures disk == Recover(old(disk), files, roots)
      ensures world.phase == Looping(Pass(now, roots, if roots.configured then rows else [], |disk.audit|, 0, 0))
    {
      RecoverStuckDeletions();
      rows := Due(work, now);
      world := Opened(world, now);
    }

    /** The snoozes that have run out go with the last commit. */
    method ClosePass(now: int)
      requires Clean() && Can(world, EndPass(cleanupSnoozes)) && world.phase.pass.now == now
      modifies this`work, this`disk, this`world
      ensures Clean() && world == Do(old(world), EndPass(cleanupSnoozes))
      ensures world.phase.Idle? && disk.audit == old(disk).audit && world.tried == old(world).tried
      ensures forall id :: id in disk.actions ==> id in old(disk).actions
      ensures disk == if cleanupSnoozes then CleanupSnoozes(old(disk), now) else old(disk)
    {
      if cleanupSnoozes {
        work := CleanupSnoozes(work, now);
      }
      Commit();
      world := Do(world, EndPass(cleanupSnoozes));
    }

    /** The loop over the due rows: the counters end up as the machine's. */
    method DeleteRows(rows: seq<DeletionRow>, allowed: Roots) returns (deleted: nat, bytes: int, ghost steps: seq<Step>)
      requires Clean() && world.phase.Looping? && world.phase.pass.queue == rows && world.phase.pass.roots == allowed
      requires world.phase.pass.deleted == 0 && world.phase.pass.bytes == 0
      modifies this`work, this`disk, this`files, this`world
      ensures Clean() && Runs(old(world), steps, world)
      ensures forall i :: 0 <= i < |steps| ==> InPass(steps[i])
      ensures world.phase == Looping(old(world).phase.pass.(queue := [], deleted := deleted, bytes := bytes))
      ensures disk == RowsDone(old(disk), rows, allowed, fate)
    {
      deleted, bytes, steps := 0, 0, [];
      var i := 0;
      while i < |rows|
        invariant i <= |rows| && Clean() && Runs(old(world), steps, world)
        invariant forall k :: 0 <= k < |steps| ==> InPass(steps[k])
        invariant world.phase == Looping(old(world).phase.pass.(queue := rows[i..], deleted := deleted, bytes := bytes))
        invariant disk == RowsDone(old(disk), rows[..i], allowed, fate)
      {
        RowsDoneOn(old(disk), rows, i, allowed, fate);
        assert rows[i..][1..] == rows[i + 1..] && rows[i..][0] == rows[i];
        ghost var before, more := world, [];
        var ok;
        ok, more := DeleteOne(rows[i], allowed);
        RunsAppend(old(world), steps, before, more, world);
        steps := steps + more;
        if ok {
          deleted, bytes := deleted + 1, bytes + rows[i].size;
        }
        i := i + 1;
      }
      assert rows[..i] == rows;
    }

    /** The dry run: one preview row in the log per due row. */
    method PreviewRows(rows: seq<DeletionRow>)
      requires work == disk
      modifies this`work, this`disk
      ensures work == disk == old(disk).(audit := old(disk).audit + Previews(rows))
      ensures DeletedRows(disk.audit) == DeletedRows(old(disk).audit)
    {
      var i := 0;
      assert work.audit == old(work).audit + Previews(rows[..0]);
      while i < |rows|
        invariant i <= |rows| && work == old(work).(audit := old(work).audit + Previews(rows[..i])) && disk == old(disk)
        invariant DeletedRows(work.audit) == DeletedRows(old(work).audit)
      {
        ghost var before := work.audit;
        LogAudit(DryRunSkip, rows[i], 0);
        assert work.audit[..|before|] == before;
        assert Previews(rows[..i + 1]) == Previews(rows[..i]) + [Preview(rows[i])];
        i := i + 1;
      }
      assert rows[..i] == rows;
      Commit();
    }
  }

  /** What is left of the tables when a row has been through its turn. */
  function RowDone(db: Db, row: DeletionRow, roots: Roots, answer: Outcome): Db {
    if Blank(row.path) then Drop(Log(db, DeleteFailed, row, 0), row.id)
    else
      var marked := Mark(db, row.id, Deleting);
      match if row.path in roots.inside then answer else Refusal
      case Gone => Drop(Log(marked, Deleted, row, row.size), row.id)
      case Refusal => Mark(marked, row.id, Pending)
      case Failure(_) => Log(marked, DeleteFailed, row, 0)
      case Missing(_) => marked
  }

  function FilesDone(files: set<string>, row: DeletionRow, roots: Roots, answer: Outcome): set<string> {
    if !Blank(row.path) && row.path in roots.inside && Cleared(answer) then files - {row.path} else files
  }

  function RowsDone(db: Db, rows: seq<DeletionRow>, roots: Roots, fate: nat -> Outcome): Db {
    if rows == [] then db
    else
      var row := rows[|rows| - 1];
      RowDone(RowsDone(db, rows[..|rows| - 1], roots, fate), row, roots, fate(row.id))
  }

  lemma RowsDoneOn(db: Db, rows: seq<DeletionRow>, i: nat, roots: Roots, fate: nat -> Outcome)
    requires i < |rows|
    ensures RowsDone(db, rows[..i + 1], roots, fate) ==
            RowDone(RowsDone(db, rows[..i], roots, fate), rows[i], roots, fate(rows[i].id))
  {
    assert rows[..i + 1][..i] == rows[..i];
  }

  /** And of a whole pass after its recovery. */
  function PassDone(db: Db, roots: Roots, fate: nat -> Outcome, now: int, sweep: bool): Db {
    var done := if roots.configured then RowsDone(db, Due(db, now), roots, fate) else db;
    if sweep then CleanupSnoozes(done, now) else done
  }

  /** A turn changes no other action and credits none. */
  lemma RowDoneElsewhere(db: Db, row: DeletionRow, roots: Roots, answer: Outcome, id: nat)
    requires row.id != id
    ensures var r := RowDone(db, row, roots, answer);
            && (id in r.actions <==> id in db.actions) && (id in db.actions ==> r.actions[id] == db.actions[id])
            && DeletedCount(r.audit, id) == DeletedCount(db.audit, id)
  {
    CountAppend(db.audit, AuditRow(Deleted, row.item, row.id, row.size), id);
    CountAppend(db.audit, AuditRow(DeleteFailed, row.item, row.id, 0), id);
  }

  lemma {:induction false} RowsDoneElsewhere(db: Db, rows: seq<DeletionRow>, roots: Roots, fate: nat -> Outcome,
                                             id: nat)
    requires forall i :: 0 <= i < |rows| ==> rows[i].id != id
    ensures var r := RowsDone(db, rows, roots, fate);
            && (id in r.actions <==> id in db.actions) && (id in db.actions ==> r.actions[id] == db.actions[id])
            && DeletedCount(r.audit, id) == DeletedCount(db.audit, id)
  {
    if rows != [] {
      var n := |rows| - 1;
      RowsDoneElsewhere(db, rows[..n], roots, fate, id);
      RowDoneElsewhere(RowsDone(db, rows[..n], roots, fate), rows[n], roots, fate(rows[n].id), id);
    }
  }

  lemma {:induction false} RowsDoneAt(db: Db, rows: seq<DeletionRow>, roots: Roots, fate: nat -> Outcome, k: nat)
    requires k < |rows| && (forall i, j :: 0 <= i < j < |rows| ==> rows[i].id < rows[j].id)
    requires rows[k].id in db.actions
    ensures var r, id, path := RowsDone(db, rows, roots, fate), rows[k].id, rows[k].path;
            var answer := if path in roots.inside then fate(id) else Refusal;
            && DeletedCount(r.audit, id) == DeletedCount(db.audit, id) + (if !Blank(path) && answer.Gone? then 1 else 0)
            && (id in r.actions <==> !Blank(path) && !answer.Gone?)
            && (id in r.actions ==>
                  r.actions[id] == db.actions[id].(status := if answer.Refusal? then Pending else Deleting))
  {
    var n, id := |rows| - 1, rows[k].id;
    var before := RowsDone(db, rows[..n], roots, fate);
    if k == n {
      RowsDoneElsewhere(db, rows[..n], roots, fate, id);
      RowDoneAt(before, rows[n], roots, fate(id));
    } else {
      assert rows[..n][k] == rows[k];
      RowsDoneAt(db, rows[..n], roots, fate, k);
      RowDoneElsewhere(before, rows[n], roots, fate(rows[n].id), id);
    }
  }

  lemma RowDoneAt(db: Db, row: DeletionRow, roots: Roots, answer: Outcome)
    requires row.id in db.actions
    ensures var r, id := RowDone(db, row, roots, answer), row.id;
            var ends := if row.path in roots.inside then answer else Refusal;
            && DeletedCount(r.audit, id) ==
               DeletedCount(db.audit, id) + (if !Blank(row.path) && ends.Gone? then 1 else 0)
            && (id in r.actions <==> !Blank(row.path) && !ends.Gone?)
            && (id in r.actions ==>
                  r.actions[id] == db.actions[id].(status := if ends.Refusal? then Pending else Deleting))
  {
    CountAppend(db.audit, AuditRow(Deleted, row.item, row.id, row.size), row.id);
    CountAppend(db.audit, AuditRow(DeleteFailed, row.item, row.id, 0), row.id);
  }

  /**
    So what a live pass makes of every action after its recovery: a ripe one whose path is inside the roots and goes is
    dropped and credited once, one with a blank path is dropped uncredited, one that is refused is pending again, any
    other that was tried stays marked 'deleting'; and what is not ripe stays as it was.
    */
  lemma PassSettlesEach(db: Db, roots: Roots, fate: nat -> Outcome, now: int, id: nat)
    requires id in db.actions && roots.configured && forall k :: k in db.actions ==> k < db.nextId
    ensures var r, a := PassDone(db, roots, fate, now, false), db.actions[id];
            if !Ripe(db, id, now) then
              id in r.actions && r.actions[id] == a && DeletedCount(r.audit, id) == DeletedCount(db.audit, id)
            else
              var path := db.items[a.item].path;
              var goes := path in roots.inside && fate(id).Gone?;
              && DeletedCount(r.audit, id) == DeletedCount(db.audit, id) + (if goes then 1 else 0)
              && (id in r.actions <==> !goes && !Blank(path))
              && (id in r.actions ==>
                    r.actions[id] ==
                      a.(status := if path !in roots.inside || fate(id).Refusal? then Pending else Deleting))
  {
    var rows := Due(db, now);
    DueListsExactly(db, now, id);
    if Ripe(db, id, now) {
      assert RowOf(db, id) in rows;
      var k :| 0 <= k < |rows| && rows[k] == RowOf(db, id);
      RowsDoneAt(db, rows, roots, fate, k);
    } else {
      RowsDoneElsewhere(db, rows, roots, fate, id);
    }
  }

  function Preview(row: DeletionRow): AuditRow {
    AuditRow(DryRunSkip, row.item, row.id, 0)
  }

  /** What a dry run writes. */
  function Previews(rows: seq<DeletionRow>): seq<AuditRow> {
    seq(|rows|, i requires 0 <= i < |rows| => Preview(rows[i]))
  }

  // ---- the pass as a run ----------------------------------------------------------

  function Opening(now: int): seq<Step> {
    [Begin(now)] + ([RecoverStuck] + [FetchDue])
  }

  function Opened(w: World, now: int): World
    requires w.phase.Idle? && now >= w.clock
  {
    Do(Do(Do(w, Begin(now)), RecoverStuck), FetchDue)
  }

  /** One uninterrupted pass: its end is its only end, and nothing but the executor's own steps lie in between. */
  predicate IsPass(steps: seq<Step>, now: int, sweep: bool) {
    && |steps| > 1 && steps[0] == Begin(now) && steps[|steps| - 1] == EndPass(sweep)
    && forall i :: 0 < i < |steps| - 1 ==> InPass(steps[i])
  }

  lemma OpeningRuns(w: World, now: int)
    requires w.phase.Idle? && now >= w.clock
    ensures Runs(w, Opening(now), Opened(w, now))
  {
    var w1 := Do(w, Begin(now));
    var w2 := Do(w1, RecoverStuck);
    RunsOn(w2, FetchDue, [], Opened(w, now));
    RunsOn(w1, RecoverStuck, [FetchDue], Opened(w, now));
    RunsOn(w, Begin(now), [RecoverStuck] + [FetchDue], Opened(w, now));
  }

  lemma TallyAfterOpening(w: World, rows: seq<Step>, w': World)
    requires w.phase.Looping? && w.phase.pass.deleted == 0 && w.phase.pass.bytes == 0 &&
             w.phase.pass.mark == |w.db.audit|
    requires Runs(w, rows, w')
    ensures Tallied(w')
  {
    TallyRun(w, rows, w');
  }

  lemma PassShape(now: int, rows: seq<Step>, sweep: bool)
    requires forall i :: 0 <= i < |rows| ==> InPass(rows[i])
    ensures IsPass(Opening(now) + rows + [EndPass(sweep)], now, sweep)
  {
    var steps := Opening(now) + rows + [EndPass(sweep)];
    forall i | 0 < i < |steps| - 1 ensures InPass(steps[i]) {
      assert i >= 3 ==> steps[i] == rows[i - 3];
    }
  }

  /** Opening, rows and end make a pass, and its counters are those of the log. */
  lemma PassRuns(w: World, now: int, rows: seq<Step>, w': World, sweep: bool)
    requires w.phase.Idle? && now >= w.clock && Runs(Opened(w, now), rows, w')
    requires forall i :: 0 <= i < |rows| ==> InPass(rows[i])
    requires w'.phase.Looping? && w'.phase.pass.queue == []
    ensures var steps := Opening(now) + rows + [EndPass(sweep)];
            Runs(w, steps, Do(w', EndPass(sweep))) && IsPass(steps, now, sweep)
    ensures Tallied(w')
  {
    OpeningRuns(w, now);
    PassShape(now, rows, sweep);
    TallyAfterOpening(Opened(w, now), rows, w');
    RunsAppend(w, Opening(now), Opened(w, now), rows, w');
    RunsThenStep(w, Opening(now) + rows, w', EndPass(sweep));
  }

  /** The path is no longer there when delete_path ends this way. */
  predicate Cleared(outcome: Outcome) {
    outcome.Gone? || (outcome.Missing? && outcome.gone) || (outcome.Failure? && outcome.gone)
  }

  /** Steps of a pass between its beginning and its end. */
  predicate InPass(s: Step) {
    s.RecoverStuck? || s.FetchDue? || s.MarkNext? || s.ParkNext? || s.Unlink? || s.CommitDeleted? || s.CommitRefused? ||
        s.CommitBroken?
  }
}
