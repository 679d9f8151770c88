/**
  Claim, send, mark or release: the life of a `download_notifications` row among interleaved workers, with crashes and
  the reconcile sweep. `notified` is Queued (0), Claimed (2) or Done (1). Times are in microseconds.
  */
module Notifications {
  import opened Wrappers

  const GRACE: int := 3_600_000_000

  datatype Service = Radarr | Sonarr | Unknown
  datatype Status = Queued | Claimed | Done

  datatype Row = Row(service: Service, status: Status, claimedAt: Option<int>)

  type Rows = map<nat, Row>

  // ---- the statements -------------------------------------------------------------

  function QueuedRows(rows: Rows): set<nat> {
    set id | id in rows && rows[id].status == Queued
  }

  function Claim(rows: Rows, now: int): Rows {
    map id | id in rows :: if rows[id].status == Queued then rows[id].(status := Claimed, claimedAt := Some(now))
      else rows[id]
  }

  /** Back to the queue, whatever state the rows were in: the UPDATE names ids only. */
  function Release(rows: Rows, ids: set<nat>): Rows {
    map id | id in rows :: if id in ids then rows[id].(status := Queued, claimedAt := None) else rows[id]
  }

  function Finish(rows: Rows, id: nat): Rows {
    if id in rows then rows[id := rows[id].(status := Done)] else rows
  }

  predicate IsStranded(row: Row, now: int) {
    row.status == Claimed && (row.claimedAt.None? || row.claimedAt.value < now - GRACE)
  }

  function StrandedRows(rows: Rows, now: int): set<nat> {
    set id | id in rows && IsStranded(rows[id], now)
  }

  // ---- workers ------------------------------------------------------------------------

  /** The claimed rows a worker has not dealt with, and those of them whose email is out. */
  datatype Worker = Worker(held: set<nat>, mailed: set<nat>)

  /**
    `emails` counts the sends that got a row's email out, in however many copies, and `lost` those of them after which
    the row was not marked. `stranded` are the claimed rows nobody holds.
    */
  datatype World = World(rows: Rows, workers: map<nat, Worker>, stranded: set<nat>, emails: multiset<nat>,
                         lost: multiset<nat>)

  datatype Step =
    | Record(id: nat, service: Service)           // a request is recorded
    | Begin(worker: nat, now: int)                // a pass starts and claims every queued row
    // rows are released: no Mailgun, backed off, unreachable, not ready, or the send failed
    | Back(worker: nat, ids: set<nat>)
    | Drain(worker: nat, id: nat)                 // a row with an unknown service is marked done
    | Send(worker: nat, id: nat)                  // the email goes out
    | Mark(worker: nat, id: nat)                  // and the row is marked done
    | MarkFails(worker: nat, id: nat)             // or the database refuses, and the handler releases the row
    | SendRaises(worker: nat, id: nat)            // it goes out but raises, and the handler releases the row
    | End(worker: nat)
    | Die(worker: nat)                            // a crash or an exception nobody catches
    | Reconcile(now: int)

  predicate Holds(w: World, k: nat, id: nat) {
    k in w.workers && id in w.workers[k].held
  }

  predicate Mailed(w: World, id: nat) {
    exists k :: k in w.workers && id in w.workers[k].mailed
  }

  predicate Can(w: World, step: Step) {
    match step
    case Record(id, _) => id !in w.rows
    case Begin(k, _) => k !in w.workers
    case Back(k, ids) => k in w.workers && ids <= w.workers[k].held && ids !! w.workers[k].mailed
    case Drain(k, id) => Holds(w, k, id) && id in w.rows && w.rows[id].service == Unknown && id !in w.workers[k].mailed
    case Send(k, id) => Holds(w, k, id) && id in w.rows && w.rows[id].service != Unknown && id !in w.workers[k].mailed
    case SendRaises(k, id) =>
      Holds(w, k, id) && id in w.rows && w.rows[id].service != Unknown && id !in w.workers[k].mailed
    case Mark(k, id) => k in w.workers && id in w.workers[k].mailed
    case MarkFails(k, id) => k in w.workers && id in w.workers[k].mailed
    case End(k) => k in w.workers && w.workers[k].held == {}
    case Die(k) => k in w.workers
    case Reconcile(_) => true
  }

  function Drop(worker: Worker, ids: set<nat>): Worker {
    Worker(worker.held - ids, worker.mailed - ids)
  }

  function Do(w: World, step: Step): World
    requires Can(w, step)
  {
    match step
    case Record(id, service) => w.(rows := w.rows[id := Row(service, Queued, None)])
    case Begin(k, now) => w.(rows := Claim(w.rows, now), workers := w.workers[k := Worker(QueuedRows(w.rows), {})])
    case Back(k, ids) => w.(rows := Release(w.rows, ids), workers := w.workers[k := Drop(w.workers[k], ids)])
    case Drain(k, id) => w.(rows := Finish(w.rows, id), workers := w.workers[k := Drop(w.workers[k], {id})])
    case Send(k, id) =>
      w.(workers := w.workers[k := w.workers[k].(mailed := w.workers[k].mailed + {id})],
         emails := w.emails + multiset{id})
    case Mark(k, id) => w.(rows := Finish(w.rows, id), workers := w.workers[k := Drop(w.workers[k], {id})])
    case MarkFails(k, id) =>
      w.(rows := Release(w.rows, {id}), workers := w.workers[k := Drop(w.workers[k], {id})],
         lost := w.lost + multiset{id})
    case SendRaises(k, id) =>
      w.(rows := Release(w.rows, {id}), workers := w.workers[k := Drop(w.workers[k], {id})],
         emails := w.emails + multiset{id}, lost := w.lost + multiset{id})
    case End(k) => w.(workers := w.workers - {k})
    case Die(k) =>
      w.(workers := w.workers - {k}, stranded := w.stranded + w.workers[k].held,
         lost := w.lost + multiset(w.workers[k].mailed))
    case Reconcile(now) =>
      var freed := StrandedRows(w.rows, now);
      w.(rows := Release(w.rows, freed), stranded := w.stranded - freed)
  }

  /** Reconcile runs when no live pass has held a claim for longer than the grace: at startup there is none. */
  ghost predicate Timely(w: World, step: Step) {
    step.Reconcile? ==> forall k, id :: Holds(w, k, id) && id in w.rows ==> !IsStranded(w.rows[id], step.now)
  }

  ghost predicate Runs(w: World, steps: seq<Step>, w': World)
    decreases |steps|
  {
    if steps == [] then w == w'
    else Can(w, steps[0]) && Timely(w, steps[0]) && Runs(Do(w, steps[0]), steps[1..], w')
  }

  // ---- what holds of every row in every reachable state -----------------------------------

  /** Exactly the claimed rows are held, each by one worker, or stranded. */
  ghost predicate Owned(w: World, id: nat) {
    && (forall k :: Holds(w, k, id) ==> id in w.rows && w.rows[id].status == Claimed && id !in w.stranded)
    && (forall k, l :: Holds(w, k, id) && Holds(w, l, id) ==> k == l)
    && (id in w.stranded ==> id in w.rows && w.rows[id].status == Claimed)
    && (id in w.rows && w.rows[id].status == Claimed ==> id in w.stranded || exists k :: Holds(w, k, id))
  }

  /** Only held rows of a known service are mailed. */
  ghost predicate MailOk(w: World, id: nat) {
    forall k :: k in w.workers && id in w.workers[k].mailed ==>
      Holds(w, k, id) && id in w.rows && w.rows[id].service != Unknown
  }

  predicate MarkedSent(w: World, id: nat) {
    id in w.rows && w.rows[id].status == Done && w.rows[id].service != Unknown
  }

  /** Every email that was not lost is for a marked row or for one about to be marked. */
  ghost predicate Counted(w: World, id: nat) {
    w.emails[id] == w.lost[id] + if Mailed(w, id) || MarkedSent(w, id) then 1 else 0
  }

  ghost predicate Inv(w: World, id: nat) {
    Owned(w, id) && MailOk(w, id) && Counted(w, id)
  }

  /** Whether the step takes the row out of the worker's hands. */
  predicate LetsGo(step: Step, k: nat, id: nat) {
    match step
    case Back(worker, ids) => k == worker && id in ids
    case Drain(worker, i) => k == worker && id == i
    case Mark(worker, i) => k == worker && id == i
    case MarkFails(worker, i) => k == worker && id == i
    case SendRaises(worker, i) => k == worker && id == i
    case End(worker) => k == worker
    case Die(worker) => k == worker
    case _ => false
  }

  lemma HoldsStep(w: World, step: Step, k: nat, id: nat)
    requires Can(w, step)
    ensures Holds(Do(w, step), k, id) <==>
              (Holds(w, k, id) && !LetsGo(step, k, id))
              || (step.Begin? && k == step.worker && id in w.rows && w.rows[id].status == Queued)
  {
  }

  lemma OwnedStep(w: World, step: Step, id: nat)
    requires Inv(w, id) && Can(w, step) && Timely(w, step)
    ensures Owned(Do(w, step), id)
  {
    var w' := Do(w, step);
    forall k ensures Holds(w', k, id) <==>
                       (Holds(w, k, id) && !LetsGo(step, k, id))
                       || (step.Begin? && k == step.worker && id in w.rows && w.rows[id].status == Queued)
    {
      HoldsStep(w, step, k, id);
    }
    if step.Back? || step.Drain? || step.Mark? || step.MarkFails? || step.SendRaises? || step.Die? {
      assert LetsGo(step, step.worker, id) ==> !step.Die? ==> Holds(w, step.worker, id);
      assert Holds(w, step.worker, id) ==> id in w.rows;
    }
    if id in w'.rows && w'.rows[id].status == Claimed && id !in w'.stranded {
      StillHeld(w, step, id);
    }
  }

  lemma StillHeld(w: World, step: Step, id: nat)
    requires Inv(w, id) && Can(w, step)
    requires var w' := Do(w, step); id in w'.rows && w'.rows[id].status == Claimed && id !in w'.stranded
    ensures exists k :: Holds(Do(w, step), k, id)
  {
    if step.Begin? && w.rows[id].status == Queued {
      HoldsStep(w, step, step.worker, id);
    } else {
      var k :| Holds(w, k, id);
      HoldsStep(w, step, k, id);
    }
  }

  lemma MailOkStep(w: World, step: Step, id: nat)
    requires Inv(w, id) && Can(w, step)
    ensures MailOk(Do(w, step), id)
  {
    var w' := Do(w, step);
    forall k | k in w'.workers && id in w'.workers[k].mailed
      ensures Holds(w', k, id) && id in w'.rows && w'.rows[id].service != Unknown
    {
      HoldsStep(w, step, k, id);
      assert k in w.workers && (id in w.workers[k].mailed || step == Send(k, id));
    }
  }

  /** The worker that mailed the row marks it, fails to, or dies. */
  predicate Unmails(w: World, step: Step, id: nat)
    requires Can(w, step)
  {
    (step.Mark? || step.MarkFails? || step.Die?) && LetsGo(step, step.worker, id) && id in w.workers[step.worker].mailed
  }

  /** Only the holder can mail a row, so at most one worker has. */
  lemma MailedStep(w: World, step: Step, id: nat)
    requires Inv(w, id) && Can(w, step)
    ensures Mailed(Do(w, step), id) <==>
              (step.Send? && step.id == id)
              || (Mailed(w, id) && !Unmails(w, step, id))
  {
    var w' := Do(w, step);
    if Mailed(w', id) {
      var k :| k in w'.workers && id in w'.workers[k].mailed;
      assert step == Send(k, id) || (k in w.workers && id in w.workers[k].mailed && Holds(w, k, id));
      assert (step.Mark? || step.MarkFails? || step.Die?) ==> k != step.worker || !LetsGo(step, k, id);
      if step.Mark? || step.MarkFails? || step.Die? {
        assert id in w.workers[step.worker].mailed ==> Holds(w, step.worker, id);
      }
    }
    if step.Send? && step.id == id {
      assert id in w'.workers[step.worker].mailed;
    } else if Mailed(w, id) && !Unmails(w, step, id) {
      var k :| k in w.workers && id in w.workers[k].mailed;
      assert Holds(w, k, id);
      assert k in w'.workers && id in w'.workers[k].mailed;
    }
  }

  lemma CountedStep(w: World, step: Step, id: nat)
    requires Inv(w, id) && Can(w, step) && Timely(w, step)
    ensures Counted(Do(w, step), id)
  {
    MailedStep(w, step, id);
    MarkedStep(w, step, id);
    if step.Send? && step.id == id {
      assert Holds(w, step.worker, id);
      assert forall k :: k in w.workers && id in w.workers[k].mailed ==> Holds(w, k, id);
    }
  }

  lemma MarkedStep(w: World, step: Step, id: nat)
    requires Inv(w, id) && Can(w, step)
    ensures MarkedSent(Do(w, step), id) <==> MarkedSent(w, id) || (step.Mark? && step.id == id)
  {
    if step.Back? || step.Mark? || step.MarkFails? || step.SendRaises? {
      assert id in w.workers[step.worker].mailed ==> Holds(w, step.worker, id);
      assert Holds(w, step.worker, id) ==> id in w.rows && w.rows[id].status == Claimed;
    }
  }

  lemma InvStep(w: World, step: Step, id: nat)
    requires Inv(w, id) && Can(w, step) && Timely(w, step)
    ensures Inv(Do(w, step), id)
  {
    OwnedStep(w, step, id);
    MailOkStep(w, step, id);
    CountedStep(w, step, id);
  }

  lemma {:induction false} InvRun(w: World, steps: seq<Step>, w': World, id: nat)
    requires Inv(w, id) && Runs(w, steps, w')
    ensures Inv(w', id)
    decreases |steps|
  {
    if steps != [] {
      InvStep(w, steps[0], id);
      InvRun(Do(w, steps[0]), steps[1..], w', id);
    }
  }

  /** Nothing goes out for a row that is not there or that says nothing of its service. */
  predicate Unmailed(w: World, id: nat) {
    id !in w.rows || w.rows[id].service == Unknown ==> w.emails[id] == 0 && w.lost[id] == 0
  }

  lemma UnmailedStep(w: World, step: Step, id: nat)
    requires Inv(w, id) && Unmailed(w, id) && Can(w, step)
    ensures Unmailed(Do(w, step), id)
  {
  }

  lemma {:induction false} UnmailedRun(w: World, steps: seq<Step>, w': World, id: nat)
    requires Inv(w, id) && Unmailed(w, id) && Runs(w, steps, w')
    ensures Unmailed(w', id)
    decreases |steps|
  {
    if steps != [] {
      InvStep(w, steps[0], id);
      UnmailedStep(w, steps[0], id);
      UnmailedRun(Do(w, steps[0]), steps[1..], w', id);
    }
  }

  // ---- the promises ---------------------------------------------------------------------------

  const EMPTY: World := World(map[], map[], {}, multiset{}, multiset{})

  /** No row is held by two workers. */
  lemma NoRowHeldTwice(steps: seq<Step>, w: World, k: nat, l: nat, id: nat)
    requires Runs(EMPTY, steps, w) && Holds(w, k, id) && Holds(w, l, id)
    ensures k == l && id in w.rows && w.rows[id].status == Claimed
  {
    InvRun(EMPTY, steps, w, id);
  }

  /** No row's email goes out twice, except once more for every time one went out and its row was not marked. */
  lemma EmailsSent(steps: seq<Step>, w: World, id: nat)
    requires Runs(EMPTY, steps, w)
    ensures w.emails[id] == w.lost[id] + if Mailed(w, id) || MarkedSent(w, id) then 1 else 0
  {
    InvRun(EMPTY, steps, w, id);
  }

  /** A row is marked only after a send, or because its service is unknown; and for such a row nothing ever goes out. */
  lemma DoneMeansSent(steps: seq<Step>, w: World, id: nat)
    requires Runs(EMPTY, steps, w) && id in w.rows
    ensures w.rows[id].service == Unknown ==> w.emails[id] == 0
    ensures w.rows[id].service != Unknown && w.rows[id].status == Done ==> w.emails[id] >= 1
  {
    InvRun(EMPTY, steps, w, id);
    UnmailedRun(EMPTY, steps, w, id);
    assert Mailed(w, id) ==> exists k :: Holds(w, k, id);
  }

  /** With no pass under way, only rows that a dead pass stranded are still claimed. */
  lemma ClaimedMeansStranded(steps: seq<Step>, w: World, id: nat)
    requires Runs(EMPTY, steps, w) && w.workers == map[] && id in w.rows
    ensures w.rows[id].status == Claimed <==> id in w.stranded
  {
    InvRun(EMPTY, steps, w, id);
    assert forall k :: !Holds(w, k, id);
  }

  /** The steps that let an email go out without its row being marked. */
  predicate LosesMail(step: Step) {
    step.Die? || step.MarkFails? || step.SendRaises?
  }

  /** Without a death there is nothing to strand; no mail is lost while sends are answered and marks accepted. */
  lemma {:induction false} QuietRun(w: World, steps: seq<Step>, w': World)
    requires Runs(w, steps, w') && w.stranded == {} && w.lost == multiset{}
    requires forall i :: 0 <= i < |steps| ==> !LosesMail(steps[i])
    ensures w'.stranded == {} && w'.lost == multiset{}
    decreases |steps|
  {
    if steps != [] {
      QuietRun(Do(w, steps[0]), steps[1..], w');
    }
  }

  /** So then no row ever gets two emails. */
  lemma AtMostOneEmail(steps: seq<Step>, w: World, id: nat)
    requires Runs(EMPTY, steps, w)
    requires forall i :: 0 <= i < |steps| ==> !LosesMail(steps[i])
    ensures w.emails[id] <= 1 && (w.workers == map[] && id in w.rows ==> w.rows[id].status != Claimed)
  {
    QuietRun(EMPTY, steps, w);
    EmailsSent(steps, w, id);
    if w.workers == map[] && id in w.rows {
      ClaimedMeansStranded(steps, w, id);
    }
  }

  /**
    After a crash of every pass, reconcile queues exactly the claims older than the grace, and leaves the rest alone.
    */
  lemma ReconcileFrees(steps: seq<Step>, w: World, now: int, id: nat)
    requires Runs(EMPTY, steps, w) && w.workers == map[] && id in w.rows
    ensures var w', row := Do(w, Reconcile(now)), w.rows[id];
            && Timely(w, Reconcile(now)) && id in w'.rows
            && w'.rows[id] ==
                 if id in w.stranded && (row.claimedAt.None? || now - row.claimedAt.value > 3_600_000_000) then
                   Row(row.service, Queued, None)
                 else row
  {
    ClaimedMeansStranded(steps, w, id);
  }

  /**
    In any reachable state in which a pass still holds a claim older than the grace, its row of a known service not yet
    mailed, reconcile is not timely: run it, and the next pass and this one both mail the row, with nothing lost.
    */
  lemma UntimelyReconcileMailsTwice(steps: seq<Step>, w: World, k: nat, l: nat, id: nat, now: int)
    requires Runs(EMPTY, steps, w) && Holds(w, k, id) && id in w.rows && l !in w.workers
    requires IsStranded(w.rows[id], now) && w.rows[id].service != Unknown && id !in w.workers[k].mailed
    ensures !Timely(w, Reconcile(now))
    ensures var w2 := Do(Do(w, Reconcile(now)), Begin(l, now));
            && Can(w2, Send(k, id)) && Can(Do(w2, Send(k, id)), Send(l, id))
            && var w4 := Do(Do(w2, Send(k, id)), Send(l, id));
               w4.emails[id] == w.emails[id] + 2 && w4.lost == w.lost
  {
  }

  /**
    A send whose answer is lost mails the row again on the next pass, though nobody died and every mark was accepted.
    */
  lemma UnansweredSendMailsTwice(steps: seq<Step>, w: World, k: nat, l: nat, id: nat, now: int)
    requires Runs(EMPTY, steps, w) && Holds(w, k, id) && id in w.rows && l !in w.workers
    requires w.rows[id].service != Unknown && id !in w.workers[k].mailed
    ensures var w2 := Do(Do(w, SendRaises(k, id)), Begin(l, now));
            && Can(w2, Send(l, id)) && Can(Do(w2, Send(l, id)), Mark(l, id))
            && var w4 := Do(Do(w2, Send(l, id)), Mark(l, id));
               w4.emails[id] == w.emails[id] + 2 && w4.rows[id].status == Done
  {
  }
}
