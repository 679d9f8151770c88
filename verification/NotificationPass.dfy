/** One `check_download_notifications` pass over the table, statement by statement. */
module NotificationPass {
  import opened Wrappers
  import opened Notifications

  const POLL_INTERVAL: int := 60_000_000

  /** What Radarr or Sonarr says about a row, if asked. */
  datatype Probe = Ready | NotReady | Unreachable

  /** The in-memory retry record of a row. */
  datatype Retry = Retry(attempts: nat, at: int)

  datatype Availability = Available(ready: bool) | ArrUnreachable | UnknownService

  /** How a send ends. No answer may come back though the email is out: the send raises all the same. */
  datatype Sending = Delivered | Undelivered | Unanswered

  /** What the outside world answers during a pass. */
  datatype Weather = Weather(configured: bool, probe: nat -> Probe, sending: nat -> Sending, marks: nat -> bool)

  predicate IsBackedOff(backoff: map<nat, Retry>, id: nat, now: int) {
    id in backoff && now < backoff[id].at
  }

  /** Whether a pass that holds the row sends its email. */
  predicate Mails(row: Row, id: nat, weather: Weather) {
    row.service != Unknown && weather.probe(id) == Ready && !weather.sending(id).Undelivered?
  }

  /** Whether the row is marked after that. */
  predicate Marks(id: nat, weather: Weather) {
    weather.sending(id).Delivered? && weather.marks(id)
  }

  /** Whether a pass that finds these rows queued gets to this one, and whether it sends its email. */
  predicate ProcessedBy(rows: Rows, id: nat, weather: Weather, backoff: map<nat, Retry>, now: int) {
    weather.configured && id in rows && rows[id].status == Queued && (id in backoff ==> backoff[id].at <= now)
  }

  predicate MailedBy(rows: Rows, id: nat, weather: Weather, backoff: map<nat, Retry>, now: int) {
    ProcessedBy(rows, id, weather, backoff, now) && Mails(rows[id], id, weather)
  }

  /** Whether processing these rows, one after the other, does. */
  predicate MailedAmong(rows: Rows, ids: seq<nat>, id: nat, weather: Weather) {
    id in ids && id in rows && Mails(rows[id], id, weather)
  }

  /** The row's email went out once more or not at all, and counts as lost exactly if the row was not marked after. */
  ghost predicate Posted(before: World, after: World, id: nat, out: bool, weather: Weather) {
    && after.emails[id] == before.emails[id] + (if out then 1 else 0)
    && after.lost[id] == before.lost[id] + (if out && !Marks(id, weather) then 1 else 0)
  }

  ghost predicate AllPosted(before: World, after: World, rows: Rows, ids: seq<nat>, weather: Weather) {
    forall id: nat :: Posted(before, after, id, MailedAmong(rows, ids, id, weather), weather)
  }

  /** How a pass leaves a row it holds and processes: done, or back in the queue. */
  function Settled(row: Row, id: nat, weather: Weather): Row {
    if row.service == Unknown || (Mails(row, id, weather) && Marks(id, weather)) then row.(status := Done)
    else row.(status := Queued, claimedAt := None)
  }

  /** The failures counted for a row. */
  function Failures(backoff: map<nat, Retry>, id: nat): nat {
    if id in backoff then backoff[id].attempts else 0
  }

  /**
    The retry records after a row was processed: a failure of the lookup, the send or the mark counts one up and waits
    by the new count; a download still running waits a minute and counts nothing; a row delivered and marked is
    forgotten; one of an unknown service leaves no record.
    */
  function RetryAfter(before: map<nat, Retry>, row: Row, id: nat, weather: Weather, now: int, delay: nat -> int)
    : map<nat, Retry>
  {
    var failures := Failures(before, id);
    if row.service == Unknown then before
    else if weather.probe(id).NotReady? then before[id := Retry(failures, now + 60_000_000)]
    else if weather.probe(id).Ready? && Marks(id, weather) then before - {id}
    else before[id := Retry(failures + 1, now + delay(failures + 1))]
  }

  function RecordOf(backoff: map<nat, Retry>, id: nat): Option<Retry> {
    if id in backoff then Some(backoff[id]) else None
  }

  /** What processing some of the rows leaves of each record. */
  ghost predicate RecordsAfter(before: map<nat, Retry>, after: map<nat, Retry>, rows: Rows, ids: seq<nat>,
                               weather: Weather, now: int, delay: nat -> int) {
    forall id: nat :: RecordOf(after, id) ==
      if id in ids && id in rows then RecordOf(RetryAfter(before, rows[id], id, weather, now, delay), id)
      else RecordOf(before, id)
  }

  lemma OneMoreRecord(start: map<nat, Retry>, before: map<nat, Retry>, rows: Rows, ids: seq<nat>, i: nat,
                      weather: Weather, now: int, delay: nat -> int)
    requires i < |ids| && NoRepeats(ids) && ids[i] in rows
    requires RecordsAfter(start, before, rows, ids[..i], weather, now, delay)
    ensures RecordsAfter(start, RetryAfter(before, rows[ids[i]], ids[i], weather, now, delay), rows, ids[..i + 1],
                         weather, now, delay)
  {
    OneMore(ids, i);
    var after, done := RetryAfter(before, rows[ids[i]], ids[i], weather, now, delay), ids[..i + 1];
    assert RecordOf(before, ids[i]) == RecordOf(start, ids[i]);
    forall id: nat
      ensures RecordOf(after, id) ==
              if id in done && id in rows then RecordOf(RetryAfter(start, rows[id], id, weather, now, delay), id)
              else RecordOf(start, id)
    {
      assert id != ids[i] ==> RecordOf(after, id) == RecordOf(before, id);
    }
  }

  function SetOf(ids: seq<nat>): set<nat> {
    set id | id in ids
  }

  class NotificationQueue {
    var rows: Rows
    var backoff: map<nat, Retry>
    const delay: nat -> int
    ghost var world: World

    constructor (delay: nat -> int)
      ensures Valid() && world == EMPTY && rows == map[] && backoff == map[] && this.delay == delay
    {
      rows, backoff, world := map[], map[], EMPTY;
      this.delay := delay;
    }

    ghost predicate Valid()
      reads this
    {
      world.rows == rows && forall id: nat :: Inv(world, id)
    }

    /** The pass holds the row and has not mailed it. */
    ghost predicate InHand(k: nat, id: nat)
      reads this
    {
      Holds(world, k, id) && id in rows && id !in world.workers[k].mailed
    }

    /** The protocol step that a statement performs; the invariant survives every one of them. */
    ghost method Take(step: Step)
      requires (forall id: nat :: Inv(world, id)) && Can(world, step) && Timely(world, step)
      modifies this`world
      ensures world == Do(old(world), step) && forall id: nat :: Inv(world, id)
    {
      forall id: nat ensures Inv(Do(world, step), id) {
        InvStep(world, step, id);
      }
      world := Do(world, step);
    }

    method RecordDownloadNotification(id: nat, service: Service)
      requires Valid() && id !in rows
      modifies this`rows, this`world
      ensures Valid() && rows == old(rows)[id := Row(service, Queued, None)] &&
              world == Do(old(world), Record(id, service))
    {
      Take(Record(id, service));
      rows := rows[id := Row(service, Queued, None)];
    }

    /** UPDATE ... WHERE notified=0 RETURNING, committed. */
    method ClaimPending(ghost k: nat, now: int) returns (claimed: seq<nat>)
      requires Valid() && k !in world.workers
      modifies this`rows, this`world
      ensures Valid() && world == Do(old(world), Begin(k, now))
      ensures NoRepeats(claimed) && SetOf(claimed) == QueuedRows(old(rows))
    {
      claimed := [];
      var left := QueuedRows(rows);
      while left != {}
        invariant left <= QueuedRows(rows) && NoRepeats(claimed)
        invariant forall id :: id in claimed <==> id in QueuedRows(rows) - left
        decreases left
      {
        var id :| id in left;
        assert id !in claimed;
        claimed := claimed + [id];
        left := left - {id};
      }
      Take(Begin(k, now));
      rows := Claim(rows, now);
    }

    method ReleaseClaims(ghost k: nat, ids: seq<nat>)
      requires Valid() && forall id :: id in ids ==> InHand(k, id)
      requires k in world.workers
      modifies this`rows, this`world
      ensures Can(old(world), Back(k, SetOf(ids)))
      ensures Valid() && world == Do(old(world), Back(k, SetOf(ids)))
    {
      Take(Back(k, SetOf(ids)));
      rows := Release(rows, SetOf(ids));
    }

    method RecordArrFailure(id: nat, now: int)
      modifies this`backoff
      ensures var failures := Failures(old(backoff), id) + 1;
              backoff == old(backoff)[id := Retry(failures, now + delay(failures))]
    {
      var attempts := (if id in backoff then backoff[id].attempts else 0) + 1;
      backoff := backoff[id := Retry(attempts, now + delay(attempts))];
    }

    /** Waits for the poll interval without counting as a failure. */
    method RecordPollAttempt(id: nat, now: int)
      modifies this`backoff
      ensures backoff == old(backoff)[id := Retry(Failures(old(backoff), id), now + 60_000_000)]
    {
      var attempts := if id in backoff then backoff[id].attempts else 0;
      backoff := backoff[id := Retry(attempts, now + POLL_INTERVAL)];
    }

    /** Releases the rows that are backed off and returns the others. */
    method PartitionRunnable(ghost k: nat, pending: seq<nat>, now: int) returns (runnable: seq<nat>)
      requires Valid() && k in world.workers && NoRepeats(pending) && forall id :: id in pending ==> InHand(k, id)
      modifies this`rows, this`world
      ensures Valid() && NoRepeats(runnable)
      ensures forall id :: id in runnable <==> id in pending && !IsBackedOff(backoff, id, now)
      ensures Can(old(world), Back(k, SetOf(pending) - SetOf(runnable)))
      ensures world == Do(old(world), Back(k, SetOf(pending) - SetOf(runnable)))
    {
      var deferred := [];
      runnable := [];
      for i := 0 to |pending|
        invariant NoRepeats(runnable)
        invariant forall id :: id in runnable <==> id in pending[..i] && !IsBackedOff(backoff, id, now)
        invariant forall id :: id in deferred <==> id in pending[..i] && IsBackedOff(backoff, id, now)
      {
        assert pending[..i + 1] == pending[..i] + [pending[i]];
        assert pending[i] !in pending[..i] && pending[i] in pending;
        if IsBackedOff(backoff, pending[i], now) {
          deferred := deferred + [pending[i]];
        } else {
          runnable := runnable + [pending[i]];
        }
      }
      assert pending[..|pending|] == pending;
      assert SetOf(deferred) == SetOf(pending) - SetOf(runnable);
      ReleaseClaims(k, deferred);
    }
  
    /** Asks the row's service. An unreachable one gets its claim released, an unknown one its row drained. */
    method CheckArrAvailability(ghost k: nat, id: nat, weather: Weather, now: int) returns (answer: Availability)
      requires Valid() && InHand(k, id)
      modifies this`rows, this`world, this`backoff
      ensures Valid()
      ensures answer.Available? ==>
                && old(rows)[id].service != Unknown && weather.probe(id) != Unreachable
                && answer.ready == (weather.probe(id) == Ready)
                && world == old(world) && backoff == old(backoff)
      ensures answer.UnknownService? ==>
                old(rows)[id].service == Unknown && world == Do(old(world), Drain(k, id)) && backoff == old(backoff)
      ensures answer.ArrUnreachable? ==>
                && old(rows)[id].service != Unknown && weather.probe(id) == Unreachable
                && Can(old(world), Back(k, {id})) && world == Do(old(world), Back(k, {id}))
                && backoff == RetryAfter(old(backoff), old(rows)[id], id, weather, now, delay)
    {
      if rows[id].service == Unknown {
        Take(Drain(k, id));
        rows := Finish(rows, id);
        return UnknownService;
      }
      if weather.probe(id) == Unreachable {
        RecordArrFailure(id, now);
        assert SetOf([id]) == {id};
        ReleaseClaims(k, [id]);
        return ArrUnreachable;
      }
      return Available(weather.probe(id) == Ready);
    }

    /**
      Settles one held row: it leaves the worker's hands done or queued, mailed at most once, and no other row is
      touched.
      */
    method ProcessOne(ghost k: nat, id: nat, weather: Weather, now: int)
      requires Valid() && InHand(k, id)
      modifies this`rows, this`world, this`backoff
      ensures Valid() && rows == old(rows)[id := Settled(old(rows)[id], id, weather)]
      ensures world.workers == old(world).workers[k := Drop(old(world).workers[k], {id})]
      ensures world.emails == old(world).emails + if Mails(old(rows)[id], id, weather) then multiset{id} else multiset{}
      ensures world.lost == old(world).lost +
                if Mails(old(rows)[id], id, weather) && !Marks(id, weather) then multiset{id} else multiset{}
      ensures world.stranded == old(world).stranded
      ensures backoff == RetryAfter(old(backoff), old(rows)[id], id, weather, now, delay)
    {
      var answer := CheckArrAvailability(k, id, weather, now);
      if !answer.Available? {
        return;
      }
      if !answer.ready {
        RecordPollAttempt(id, now);
        assert SetOf([id]) == {id};
        ReleaseClaims(k, [id]);
        return;
      }
      SendAndMark(k, id, weather, now);
    }

    /** A failure of either step releases the claim, though the email may already be out. */
    method SendAndMark(ghost k: nat, id: nat, weather: Weather, now: int)
      requires Valid() && InHand(k, id) && rows[id].service != Unknown && weather.probe(id) == Ready
      modifies this`rows, this`world, this`backoff
      ensures Valid() && rows == old(rows)[id := Settled(old(rows)[id], id, weather)]
      ensures world.workers == old(world).workers[k := Drop(old(world).workers[k], {id})]
      ensures world.emails == old(world).emails +
                if Mails(old(rows)[id], id, weather) then multiset{id} else multiset{}
      ensures world.lost == old(world).lost +
                if Mails(old(rows)[id], id, weather) && !Marks(id, weather) then multiset{id} else multiset{}
      ensures world.stranded == old(world).stranded
      ensures backoff == RetryAfter(old(backoff), old(rows)[id], id, weather, now, delay)
    {
      SingleRelease(rows, id);
      if !weather.sending(id).Delivered? {
        RecordArrFailure(id, now);
        ReleaseAfterRaise(k, id, weather.sending(id).Unanswered?);
        return;
      }
      SentThenDropped(world.workers[k], id);
      Take(Send(k, id));
      MarkNotified(k, id, weather.marks(id), now);
    }

    /** The handler's release, which cannot tell whether the email is out. */
    method ReleaseAfterRaise(ghost k: nat, id: nat, ghost out: bool)
      requires Valid() && InHand(k, id) && rows[id].service != Unknown
      modifies this`rows, this`world
      ensures Can(old(world), Back(k, {id})) && Can(old(world), SendRaises(k, id))
      ensures Valid() && world == Do(old(world), if out then SendRaises(k, id) else Back(k, {id}))
    {
      Take(if out then SendRaises(k, id) else Back(k, {id}));
      rows := Release(rows, {id});
    }

    method MarkNotified(ghost k: nat, id: nat, marks: bool, now: int)
      requires Valid() && k in world.workers && id in world.workers[k].mailed && id in rows
      modifies this`rows, this`world, this`backoff
      ensures Valid() && world == Do(old(world), if marks then Mark(k, id) else MarkFails(k, id))
      ensures backoff == if marks then old(backoff) - {id}
                         else var failures := Failures(old(backoff), id) + 1;
                              old(backoff)[id := Retry(failures, now + delay(failures))]
    {
      if !marks {
        RecordArrFailure(id, now);
        Take(MarkFails(k, id));
        rows := Release(rows, {id});
        return;
      }
      Take(Mark(k, id));
      rows := Finish(rows, id);
      backoff := backoff - {id};
    }

    /**
      The whole pass, seen from before and after: every queued row is settled, or back in the queue if mail is not
      configured or the row is backed off; the rest of the table is untouched; each settled row was mailed at most once,
      and lost exactly where the row was not marked after.
      */
    method CheckDownloadNotifications(ghost k: nat, claimedAt: int, now: int, weather: Weather)
      requires Valid() && k !in world.workers
      modifies this`rows, this`world, this`backoff
      ensures Valid() && k !in world.workers
      ensures rows == map id | id in old(rows) ::
                if old(rows)[id].status == Queued then
                  After(old(rows)[id], id, weather, old(backoff), claimedAt, now) else old(rows)[id]
      ensures forall id: nat ::
                Posted(old(world), world, id, MailedBy(old(rows), id, weather, old(backoff), now), weather)
      ensures forall id: nat :: RecordOf(backoff, id) ==
                if ProcessedBy(old(rows), id, weather, old(backoff), now) then
                  RecordOf(RetryAfter(old(backoff), old(rows)[id], id, weather, now, delay), id)
                else RecordOf(old(backoff), id)
      ensures world.stranded == old(world).stranded
    {
      var pending := ClaimPending(k, claimedAt);
      forall id | id in pending ensures InHand(k, id) {
        assert id in SetOf(pending);
      }
      if weather.configured {
        WorkThrough(k, pending, weather, claimedAt, now, old(rows));
      } else {
        ReleasedAgain(rows, old(rows), weather, backoff, claimedAt, now);
        ReleaseClaims(k, pending);
        Take(End(k));
      }
    }

    /** With mail configured: the rows not backed off, one after the other. `found` is the table before the claim. */
    method WorkThrough(ghost k: nat, pending: seq<nat>, weather: Weather, claimedAt: int, now: int, ghost found: Rows)
      requires Valid() && k in world.workers && world.workers[k] == Worker(SetOf(pending), {}) && weather.configured
      requires NoRepeats(pending) && (forall id :: id in pending ==> InHand(k, id))
      requires rows == Claim(found, claimedAt) && SetOf(pending) == QueuedRows(found)
      modifies this`rows, this`world, this`backoff
      ensures Valid() && k !in world.workers && world.stranded == old(world).stranded
      ensures rows == AfterPass(found, weather, old(backoff), claimedAt, now)
      ensures forall id: nat ::
                Posted(old(world), world, id, MailedBy(found, id, weather, old(backoff), now), weather)
      ensures forall id: nat :: RecordOf(backoff, id) ==
                if ProcessedBy(found, id, weather, old(backoff), now) then
                  RecordOf(RetryAfter(old(backoff), found[id], id, weather, now, delay), id)
                else RecordOf(old(backoff), id)
    {
      var runnable := PartitionRunnable(k, pending, now);
      assert SetOf(pending) - (SetOf(pending) - SetOf(runnable)) == SetOf(runnable);
      assert forall id :: id in pending <==> id in SetOf(pending);
      PassRows(found, runnable, weather, backoff, claimedAt, now);
      ghost var held, allowed := rows, backoff;
      ProcessAll(k, runnable, weather, now);
      PassPosted(old(world), world, found, held, runnable, weather, allowed, now);
      PassRecorded(allowed, backoff, found, held, runnable, weather, now, delay);
      Take(End(k));
    }

    method ProcessAll(ghost k: nat, runnable: seq<nat>, weather: Weather, now: int)
      requires Valid() && k in world.workers && world.workers[k] == Worker(SetOf(runnable), {}) && NoRepeats(runnable)
      modifies this`rows, this`world, this`backoff
      ensures Valid() && k in world.workers && world.workers[k] == Worker({}, {})
      ensures rows == SettleAll(old(rows), runnable, weather)
      ensures AllPosted(old(world), world, old(rows), runnable, weather)
      ensures RecordsAfter(old(backoff), backoff, old(rows), runnable, weather, now, delay)
      ensures world.stranded == old(world).stranded
    {
      for i := 0 to |runnable|
        invariant Valid() && k in world.workers && world.workers[k] == Worker(SetOf(runnable[i..]), {})
        invariant rows == SettleAll(old(rows), runnable[..i], weather)
        invariant AllPosted(old(world), world, old(rows), runnable[..i], weather)
        invariant RecordsAfter(old(backoff), backoff, old(rows), runnable[..i], weather, now, delay)
        invariant world.stranded == old(world).stranded
      {
        OneMore(runnable, i);
        assert Holds(world, k, runnable[i]) && Inv(world, runnable[i]);
        SettleOneMore(old(rows), runnable, i, weather);
        ghost var before, records := world, backoff;
        ProcessOne(k, runnable[i], weather, now);
        PostedOneMore(old(world), before, world, old(rows), runnable, i, weather);
        OneMoreRecord(old(backoff), records, old(rows), runnable, i, weather, now, delay);
      }
      assert runnable[..|runnable|] == runnable;
    }
  }

  lemma SentThenDropped(worker: Worker, id: nat)
    ensures Drop(worker.(mailed := worker.mailed + {id}), {id}) == Drop(worker, {id})
  {
  }

  lemma SingleRelease(rows: Rows, id: nat)
    requires id in rows
    ensures Release(rows, {id}) == rows[id := rows[id].(status := Queued, claimedAt := None)]
  {
  }

  lemma ReleasedAgain(claimed: Rows, rows: Rows, weather: Weather, backoff: map<nat, Retry>, claimedAt: int, now: int)
    requires !weather.configured && claimed == Claim(rows, claimedAt)
    ensures Release(claimed, QueuedRows(rows)) == AfterPass(rows, weather, backoff, claimedAt, now)
  {
  }

  lemma PassRows(rows: Rows, runnable: seq<nat>, weather: Weather, backoff: map<nat, Retry>, claimedAt: int, now: int)
    requires weather.configured
    requires forall id :: id in runnable <==> id in QueuedRows(rows) && !IsBackedOff(backoff, id, now)
    ensures SettleAll(Release(Claim(rows, claimedAt), QueuedRows(rows) - SetOf(runnable)), runnable, weather)
            == AfterPass(rows, weather, backoff, claimedAt, now)
  {
  }

  lemma SettleOneMore(rows: Rows, ids: seq<nat>, i: nat, weather: Weather)
    requires i < |ids| && NoRepeats(ids)
    ensures ids[i] in rows ==>
              SettleAll(rows, ids[..i], weather)[ids[i] := Settled(rows[ids[i]], ids[i], weather)] ==
                  SettleAll(rows, ids[..i + 1], weather)
    ensures ids[i] in rows ==> SettleAll(rows, ids[..i], weather)[ids[i]] == rows[ids[i]]
  {
    OneMore(ids, i);
  }

  lemma PostedOneMore(start: World, before: World, after: World, rows: Rows, ids: seq<nat>, i: nat, weather: Weather)
    requires i < |ids| && NoRepeats(ids) && ids[i] in rows && AllPosted(start, before, rows, ids[..i], weather)
    requires var out := Mails(rows[ids[i]], ids[i], weather);
             && after.emails == before.emails + (if out then multiset{ids[i]} else multiset{})
             && after.lost == before.lost + (if out && !Marks(ids[i], weather) then multiset{ids[i]} else multiset{})
    ensures AllPosted(start, after, rows, ids[..i + 1], weather)
  {
    OneMore(ids, i);
    var done := ids[..i + 1];
    forall id: nat ensures Posted(start, after, id, MailedAmong(rows, done, id, weather), weather) {
      assert Posted(start, before, id, MailedAmong(rows, ids[..i], id, weather), weather);
    }
  }

  /** The rows a pass processes are those it was to mail. */
  lemma PassPosted(before: World, after: World, rows: Rows, held: Rows, runnable: seq<nat>, weather: Weather,
                   backoff: map<nat, Retry>, now: int)
    requires weather.configured && held.Keys == rows.Keys
    requires forall id :: id in rows ==> held[id].service == rows[id].service
    requires forall id :: id in runnable <==> id in QueuedRows(rows) && !IsBackedOff(backoff, id, now)
    requires AllPosted(before, after, held, runnable, weather)
    ensures forall id: nat :: Posted(before, after, id, MailedBy(rows, id, weather, backoff, now), weather)
  {
    forall id: nat ensures Posted(before, after, id, MailedBy(rows, id, weather, backoff, now), weather) {
      assert Posted(before, after, id, MailedAmong(held, runnable, id, weather), weather);
    }
  }

  lemma PassRecorded(before: map<nat, Retry>, after: map<nat, Retry>, rows: Rows, held: Rows, runnable: seq<nat>,
                     weather: Weather, now: int, delay: nat -> int)
    requires weather.configured && held.Keys == rows.Keys
    requires forall id :: id in rows ==> held[id].service == rows[id].service
    requires forall id :: id in runnable <==> id in QueuedRows(rows) && !IsBackedOff(before, id, now)
    requires RecordsAfter(before, after, held, runnable, weather, now, delay)
    ensures forall id: nat :: RecordOf(after, id) ==
              if ProcessedBy(rows, id, weather, before, now) then
                RecordOf(RetryAfter(before, rows[id], id, weather, now, delay), id)
              else RecordOf(before, id)
  {
  }

  lemma OneMore(ids: seq<nat>, i: nat)
    requires i < |ids| && NoRepeats(ids)
    ensures ids[i] in SetOf(ids[i..]) && SetOf(ids[i + 1..]) == SetOf(ids[i..]) - {ids[i]}
    ensures ids[i] !in ids[..i] && forall id :: id in ids[..i + 1] <==> id in ids[..i] || id == ids[i]
  {
    assert ids[i..] == [ids[i]] + ids[i + 1..];
    assert ids[..i + 1] == ids[..i] + [ids[i]];
  }

  function SettleAll(rows: Rows, runnable: seq<nat>, weather: Weather): Rows {
    map id | id in rows :: if id in runnable then Settled(rows[id], id, weather) else rows[id]
  }

  function AfterPass(rows: Rows, weather: Weather, backoff: map<nat, Retry>, claimedAt: int, now: int): Rows {
    map id | id in rows ::
      if rows[id].status == Queued then After(rows[id], id, weather, backoff, claimedAt, now) else rows[id]
  }

  /** How a pass that claimed the row leaves it. */
  function After(row: Row, id: nat, weather: Weather, backoff: map<nat, Retry>, claimedAt: int, now: int): Row {
    if !weather.configured || (id in backoff && now < backoff[id].at) then row.(status := Queued, claimedAt := None)
    else Settled(row.(status := Claimed, claimedAt := Some(claimedAt)), id, weather)
  }
}
