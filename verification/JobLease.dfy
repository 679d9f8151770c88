/** The heartbeat lease that keeps two runs of one job table apart, with times in microseconds. */
module JobLease {
  import opened Wrappers

  const LEASE: int := 300_000_000

  datatype Row = Row(started: int, heartbeat: int, finished: Option<int>)

  type Table = map<nat, Row>

  predicate IsLive(row: Row, read: int) {
    row.finished.None? && row.heartbeat > read - LEASE
  }

  /** The SELECT: some unfinished row has a heartbeat inside the stale window. */
  predicate IsRunning(table: Table, read: int) {
    exists id :: id in table && IsLive(table[id], read)
  }

  // ---- every process's view: what happened to the table, and to the runs -------------

  /**
    `read` is the clock reading a statement uses, `at` the instant it commits. A starter holds the write lock from
    before it reads the clock for the cutoff until it commits its row, so nothing commits in between; a renewal and a
    finish read the clock before they wait for the lock.
    */
  datatype Event =
    | Start(id: nat, read: int, stamp: int, at: int)
    | Refused(read: int, at: int)
    | Renew(id: nat, read: int, at: int)
    | Finish(id: nat, read: int, at: int)
    | Crash(id: nat, at: int)

  function Clock(trace: seq<Event>): int {
    if trace == [] then 0 else trace[|trace| - 1].at
  }

  /** The table after the events. */
  function After(trace: seq<Event>): Table {
    if trace == [] then map[]
    else
      var table := After(trace[..|trace| - 1]);
      match trace[|trace| - 1]
      case Start(id, _, stamp, _) => table[id := Row(stamp, stamp, None)]
      case Renew(id, read, _) =>
        if id in table && table[id].finished.None? then table[id := table[id].(heartbeat := read)] else table
      case Finish(id, read, _) =>
        if id in table then table[id := table[id].(heartbeat := read, finished := Some(read))] else table
      case Refused(_, _) => table
      case Crash(_, _) => table
  }

  /** The runs whose process has started and neither finished nor died. */
  function Working(trace: seq<Event>): set<nat> {
    if trace == [] then {}
    else
      var working := Working(trace[..|trace| - 1]);
      match trace[|trace| - 1]
      case Start(id, _, _, _) => working + {id}
      case Finish(id, _, _) => working - {id}
      case Crash(id, _) => working - {id}
      case Renew(_, _, _) => working
      case Refused(_, _) => working
  }

  /** What the code lets happen next. */
  predicate Can(trace: seq<Event>, e: Event) {
    && Clock(trace) <= e.at
    && match e
       case Start(id, read, stamp, at) =>
         id !in After(trace) && Clock(trace) <= read <= stamp <= at && !IsRunning(After(trace), read)
       case Refused(read, at) => Clock(trace) <= read <= at && IsRunning(After(trace), read)
       case Renew(id, read, at) => id in Working(trace) && read <= at
       case Finish(id, read, at) => id in Working(trace) && read <= at
       case Crash(id, _) => id in Working(trace)
  }

  predicate Legal(trace: seq<Event>) {
    trace == [] || (Legal(trace[..|trace| - 1]) && Can(trace[..|trace| - 1], trace[|trace| - 1]))
  }

  /** The table of one kind of job. */
  class JobTable {
    var rows: Table
    var nextId: nat
    ghost var trace: seq<Event>

    constructor ()
      ensures Valid() && trace == []
    {
      rows, nextId, trace := map[], 0, [];
    }

    ghost predicate Valid()
      reads this
    {
      && Legal(trace) && rows == After(trace)
      && forall id :: id in rows ==> id < nextId
    }

    /** True exactly if some run's last act was not to finish and its stamp is less than 300 seconds old. */
    method IsJobRunning(read: int) returns (running: bool)
      requires Valid()
      ensures running == IsRunning(rows, read)
      ensures running <==> exists run: nat :: Holding(trace, run, read)
    {
      running := exists id :: id in rows && IsLive(rows[id], read);
      RunningIsHolding(trace, read);
    }

    /** Inside one BEGIN IMMEDIATE transaction: look for a live run, and only without one insert a new one. */
    method StartJobRun(read: int, stamp: int, at: int) returns (id: Option<nat>)
      requires Valid() && Clock(trace) <= read <= stamp <= at
      modifies this
      ensures Valid()
      ensures id.None? <==> IsRunning(old(rows), read)
      ensures id.Some? ==> id.value !in old(rows) && rows == old(rows)[id.value := Row(stamp, stamp, None)]
      ensures id.None? ==> rows == old(rows)
      ensures trace == old(trace) + [if id.Some? then Start(id.value, read, stamp, at) else Refused(read, at)]
    {
      var running := IsJobRunning(read);
      if running {
        AppendEvent(trace, Refused(read, at));
        trace := trace + [Refused(read, at)];
        return None;
      }
      id := Some(nextId);
      AppendEvent(trace, Start(nextId, read, stamp, at));
      trace := trace + [Start(nextId, read, stamp, at)];
      rows := rows[nextId := Row(stamp, stamp, None)];
      nextId := nextId + 1;
    }

    /** `run` stamps its row as finished. */
    method FinishJobRun(run: nat, read: int, at: int)
      requires Valid() && run in Working(trace) && read <= at && Clock(trace) <= at
      modifies this`rows, this`trace
      ensures Valid() && trace == old(trace) + [Finish(run, read, at)]
      ensures run in old(rows) && rows == old(rows)[run := old(rows)[run].(heartbeat := read, finished := Some(read))]
    {
      WorkingRow(trace, run);
      AppendEvent(trace, Finish(run, read, at));
      trace := trace + [Finish(run, read, at)];
      rows := rows[run := rows[run].(heartbeat := read, finished := Some(read))];
    }

    /** A renewal that arrives after the run finished changes nothing. */
    method HeartbeatJobRun(run: nat, read: int, at: int)
      requires Valid() && run in rows && (run in Working(trace) || rows[run].finished.Some?)
      requires read <= at && Clock(trace) <= at
      modifies this`rows, this`trace
      ensures Valid()
      ensures old(rows)[run].finished.Some? ==> rows == old(rows) && trace == old(trace)
      ensures old(rows)[run].finished.None? ==>
                rows == old(rows)[run := old(rows)[run].(heartbeat := read)] &&
                    trace == old(trace) + [Renew(run, read, at)]
    {
      if rows[run].finished.None? {
        AppendEvent(trace, Renew(run, read, at));
        trace := trace + [Renew(run, read, at)];
        rows := rows[run := rows[run].(heartbeat := read)];
      }
    }
  }

  lemma AppendEvent(trace: seq<Event>, e: Event)
    ensures (trace + [e])[..|trace|] == trace
  {
  }

  // ---- what a row remembers ------------------------------------------------------------

  predicate Stamps(e: Event, run: nat) {
    (e.Start? || e.Renew? || e.Finish?) && e.id == run
  }

  predicate Own(e: Event, run: nat) {
    !e.Refused? && e.id == run
  }

  function Stamp(e: Event): int
    requires e.Start? || e.Renew? || e.Finish?
  {
    if e.Start? then e.stamp else e.read
  }

  /** The last event that stamped the run's heartbeat, or -1. */
  function LastStamp(trace: seq<Event>, run: nat): (i: int)
    ensures -1 <= i < |trace| && (i >= 0 ==> Stamps(trace[i], run))
  {
    if trace == [] then -1
    else if Stamps(trace[|trace| - 1], run) then |trace| - 1
    else LastStamp(trace[..|trace| - 1], run)
  }

  /** A row holds its run's last stamp. */
  lemma {:induction false} RowIsLastStamp(trace: seq<Event>, run: nat)
    requires Legal(trace) && run in After(trace)
    ensures LastStamp(trace, run) >= 0
    ensures After(trace)[run].heartbeat == Stamp(trace[LastStamp(trace, run)])
  {
    var n := |trace| - 1;
    if !Stamps(trace[n], run) {
      RowIsLastStamp(trace[..n], run);
    } else if trace[n].Renew? {
      WorkingRow(trace[..n], run);
    }
  }

  /** A row is finished exactly if its run's last stamp was the finishing one. */
  lemma {:induction false} FinishedIsLastStamp(trace: seq<Event>, run: nat)
    requires Legal(trace)
    ensures run in After(trace) <==> LastStamp(trace, run) >= 0
    ensures run in After(trace) ==> (After(trace)[run].finished.Some? <==> trace[LastStamp(trace, run)].Finish?)
  {
    if trace != [] {
      var n := |trace| - 1;
      FinishedIsLastStamp(trace[..n], run);
      if Stamps(trace[n], run) && !trace[n].Start? {
        WorkingRow(trace[..n], run);
      }
    }
  }

  /** The run holds the lease at that reading: read off the history, not the table. */
  predicate Holding(trace: seq<Event>, run: nat, read: int) {
    var i := LastStamp(trace, run);
    i >= 0 && !trace[i].Finish? && read < Stamp(trace[i]) + 300_000_000
  }

  /** The SELECT over the rows answers for the whole history: some run's last stamp did not finish it and is recent. */
  lemma RunningIsHolding(trace: seq<Event>, read: int)
    requires Legal(trace)
    ensures IsRunning(After(trace), read) <==> exists run: nat :: Holding(trace, run, read)
  {
    var table := After(trace);
    forall run: nat ensures Holding(trace, run, read) <==> run in table && IsLive(table[run], read) {
      FinishedIsLastStamp(trace, run);
      if run in table {
        RowIsLastStamp(trace, run);
      }
    }
    if id :| id in table && IsLive(table[id], read) {
      assert Holding(trace, id, read);
    }
  }

  lemma {:induction false} WorkingRow(trace: seq<Event>, run: nat)
    requires Legal(trace) && run in Working(trace)
    ensures run in After(trace) && After(trace)[run].finished.None?
  {
    var n := |trace| - 1;
    if !(trace[n].Start? && trace[n].id == run) {
      WorkingRow(trace[..n], run);
    }
  }

  /** A working run has done nothing since its last stamp. */
  lemma {:induction false} WorkingQuiet(trace: seq<Event>, run: nat)
    requires Legal(trace) && run in Working(trace)
    ensures LastStamp(trace, run) >= 0 && !trace[LastStamp(trace, run)].Finish?
    ensures forall j :: LastStamp(trace, run) < j < |trace| ==> !Own(trace[j], run)
  {
    var n := |trace| - 1;
    if !Stamps(trace[n], run) {
      WorkingQuiet(trace[..n], run);
    }
  }

  // ---- the lease ---------------------------------------------------------------------------

  /** When the run next does anything from position `i` on, or the end of the observation if it does not. */
  function NextOwn(trace: seq<Event>, i: nat, run: nat, end: int): int
    requires i <= |trace|
    decreases |trace| - i
  {
    if i == |trace| then end
    else if Own(trace[i], run) then trace[i].at
    else NextOwn(trace, i + 1, run, end)
  }

  /** The run never lets 300 seconds pass between a stamp and its own next event: a promise about this run alone. */
  ghost predicate Renews(trace: seq<Event>, run: nat, end: int) {
    forall i :: 0 <= i < |trace| && Stamps(trace[i], run) && !trace[i].Finish? ==>
      NextOwn(trace, i + 1, run, end) < Stamp(trace[i]) + 300_000_000
  }

  lemma {:induction false} LegalPrefix(trace: seq<Event>, k: nat)
    requires Legal(trace) && k <= |trace|
    ensures Legal(trace[..k])
    ensures k < |trace| ==> Can(trace[..k], trace[k])
  {
    if k == |trace| {
      assert trace[..k] == trace;
    } else {
      var n := |trace| - 1;
      LegalPrefix(trace[..n], k);
      assert trace[..n][..k] == trace[..k];
      assert k == n || trace[..n][k] == trace[k];
    }
  }

  lemma {:induction false} ClockRises(trace: seq<Event>, i: nat, j: nat)
    requires Legal(trace) && i <= j < |trace|
    ensures trace[i].at <= trace[j].at <= Clock(trace)
  {
    var n := |trace| - 1;
    if i < n {
      ClockRises(trace[..n], i, if j < n then j else n - 1);
    }
  }

  lemma {:induction false} NextOwnIsLater(trace: seq<Event>, i: nat, k: nat, run: nat, end: int)
    requires Legal(trace) && i <= k < |trace| && Clock(trace) <= end
    requires forall j :: i <= j < k ==> !Own(trace[j], run)
    ensures trace[k].at <= NextOwn(trace, i, run, end)
    decreases |trace| - i
  {
    if i < k {
      NextOwnIsLater(trace, i + 1, k, run, end);
    } else if Own(trace[k], run) {
    } else {
      ClockRises(trace, k, k);
      if k + 1 < |trace| {
        ClockRises(trace, k, k + 1);
        NextOwnIsLater(trace, k + 1, k + 1, run, end);
      }
    }
  }

  /** While a run that renews is working, whatever the others do, nobody starts. */
  lemma LeaseExcludes(trace: seq<Event>, end: int, run: nat, k: nat)
    requires Legal(trace) && Clock(trace) <= end && Renews(trace, run, end)
    requires k < |trace| && run in Working(trace[..k])
    ensures !trace[k].Start?
  {
    var before := trace[..k];
    LegalPrefix(trace, k);
    WorkingRow(before, run);
    WorkingQuiet(before, run);
    RowIsLastStamp(before, run);
    var i := LastStamp(before, run);
    assert Stamps(trace[i], run) && !trace[i].Finish?;
    forall j | i + 1 <= j < k ensures !Own(trace[j], run) {
      assert before[j] == trace[j];
    }
    NextOwnIsLater(trace, i + 1, k, run, end);
    if trace[k].Start? {
      assert IsLive(After(before)[run], trace[k].read);
    }
  }

  /** So if every run renews, no two ever work at once, in any interleaving of starters. */
  lemma {:induction false} NoTwoRuns(trace: seq<Event>, end: int, k: nat)
    requires Legal(trace) && Clock(trace) <= end && forall run :: Renews(trace, run, end)
    requires k <= |trace|
    ensures forall p, q :: p in Working(trace[..k]) && q in Working(trace[..k]) ==> p == q
  {
    if k > 0 {
      NoTwoRuns(trace, end, k - 1);
      assert trace[..k][..k - 1] == trace[..k - 1];
      if Working(trace[..k - 1]) != {} {
        var run :| run in Working(trace[..k - 1]);
        LeaseExcludes(trace, end, run, k - 1);
      }
    }
  }

  /** A lapse of exactly 300 seconds is already too long. */
  lemma LapseLetsTwoRun()
    ensures var trace := [Start(0, 0, 0, 0), Start(1, LEASE, LEASE, LEASE)];
            && Legal(trace) && Working(trace) == {0, 1}
            && NextOwn(trace, 1, 0, LEASE) == Stamp(trace[0]) + 300_000_000
  {
    var first := [Start(0, 0, 0, 0)];
    var trace := first + [Start(1, LEASE, LEASE, LEASE)];
    assert first[..0] == [] && trace[..1] == first;
    assert After(first) == map[0 := Row(0, 0, None)] && Working(first) == {0};
    assert Legal(first) by {
      assert Can([], first[0]) && Legal(first[..0]);
    }
    assert Can(first, trace[1]);
    assert Working(trace) == {0} + {1};
    assert trace == [Start(0, 0, 0, 0), Start(1, LEASE, LEASE, LEASE)];
  }

  /** A crashed run alone blocks starters up to, and not from, 300 seconds after its last stamp. */
  lemma CrashBlocksExactly(trace: seq<Event>, run: nat, read: int)
    requires Legal(trace) && run in After(trace) && After(trace)[run].finished.None?
    requires forall id :: id in After(trace) && id != run ==> After(trace)[id].finished.Some?
    ensures LastStamp(trace, run) >= 0
    ensures IsRunning(After(trace), read) <==> read < Stamp(trace[LastStamp(trace, run)]) + 300_000_000
  {
    RowIsLastStamp(trace, run);
    if IsLive(After(trace)[run], read) {
      assert IsRunning(After(trace), read);
    }
  }
}
