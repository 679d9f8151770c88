/** The persistent login lockout: counter, decay, escalating locks. Instants are microseconds. */
module Lockout {
  import opened Wrappers

  const MINUTE: int := 60_000_000
  const DAY: int := 24 * 60 * MINUTE

  /** A `login_failures` row. */
  datatype Row = Row(count: nat, first: Option<int>, until: Option<int>)

  /** `_window_for_count`: lock minutes for a failure count. */
  function Window(count: int): Option<int> {
    if count >= 15 then Some(24 * 60)
    else if count >= 10 then Some(60)
    else if count >= 5 then Some(15)
    else None
  }

  predicate LockedAt(row: Option<Row>, now: int) {
    row.Some? && row.value.until.Some? && row.value.until.value > now
  }

  /** An unlocked streak older than a day. */
  predicate Stale(row: Row, now: int) {
    row.first.Some? && now - row.first.value > DAY && !LockedAt(Some(row), now)
  }

  /** What one failed attempt makes of a user's row. */
  function Failed(row: Option<Row>, now: int): Row {
    if row.None? then Row(1, Some(now), None)
    else if Stale(row.value, now) then Row(1, Some(now), None)
    else
      var r := row.value;
      var count, first := r.count + 1, Some(r.first.GetOr(now));
      if Window(count).Some? && (!LockedAt(row, now) || Window(count) != Window(r.count))
      then Row(count, first, Some(now + Window(count).value * MINUTE))
      else Row(count, first, r.until)
  }

  class LoginLockout {
    var rows: map<string, Row>

    constructor ()
      ensures rows == map[]
    {
      rows := map[];
    }

    function RowFor(username: string): Option<Row>
      reads this
    {
      if username in rows then Some(rows[username]) else None
    }

    method IsLockedOut(username: string, now: int) returns (locked: bool)
      ensures locked == (username != "" && LockedAt(RowFor(username), now))
    {
      if username == "" || username !in rows || rows[username].until.None? {
        return false;
      }
      locked := !(rows[username].until.value <= now);
    }

    /** The UPSERT: inserts at one or bumps the counter, and reads the row back. */
    method UpdateFailureRow(username: string, now: int) returns (row: Row)
      modifies this
      ensures rows == old(rows)[username := row]
      ensures row == if username in old(rows) then old(rows)[username].(count := old(rows)[username].count + 1)
              else Row(1, Some(now), None)
    {
      row := if username in rows then rows[username].(count := rows[username].count + 1) else Row(1, Some(now), None);
      rows := rows[username := row];
    }

    method ApplyDecay(username: string, now: int, count: nat, first: Option<int>, locked: bool)
      returns (count': nat, first': Option<int>)
      modifies this
      ensures if first.Some? && now - first.value > DAY && !locked then
                count' == 1 && first' == Some(now) && rows == old(rows)[username := Row(1, Some(now), None)]
              else count' == count && first' == first && rows == old(rows)
    {
      count', first' := count, first;
      if first.Some? && now - first.value > DAY && !locked {
        count', first' := 1, Some(now);
        rows := rows[username := Row(1, Some(now), None)];
      }
    }

    /** Backfills a missing first_failure_at, as legacy rows may have. */
    method EnsureFirstFailure(username: string, now: int, first: Option<int>)
      requires username in rows
      modifies this
      ensures rows == if first.None? then old(rows)[username := old(rows)[username].(first := Some(now))] else old(rows)
    {
      if first.None? {
        rows := rows[username := rows[username].(first := Some(now))];
      }
    }

    /** Locks when a threshold applies, except inside a lock of the same band. */
    method ApplyLockout(username: string, now: int, count: nat, locked: bool) returns (minutes: Option<int>)
      requires username in rows
      modifies this
      ensures minutes == Window(count)
      ensures var promote := !locked || Window(count - 1).None? ||
              (minutes.Some? && minutes.value > Window(count - 1).value);
              rows == if minutes.Some? && promote then
                        old(rows)[username := old(rows)[username].(until := Some(now + minutes.value * MINUTE))]
                      else old(rows)
    {
      minutes := Window(count);
      if minutes.Some? {
        var previous := Window(count - 1);
        if !locked || previous.None? || minutes.value > previous.value {
          rows := rows[username := rows[username].(until := Some(now + minutes.value * MINUTE))];
        }
      }
    }

    /** One failed login: the four steps in one transaction, other users untouched. */
    method RecordFailure(username: string, now: int) returns (minutes: Option<int>)
      modifies this
      ensures username == "" ==> rows == old(rows) && minutes == None
      ensures username != "" ==>
                && rows == old(rows)[username := Failed(old(RowFor(username)), now)]
                && minutes == Window(Failed(old(RowFor(username)), now).count)
    {
      if username == "" {
        return None;
      }
      var row := UpdateFailureRow(username, now);
      var locked := row.until.Some? && row.until.value > now;
      var count, first := ApplyDecay(username, now, row.count, row.first, locked);
      EnsureFirstFailure(username, now, first);
      minutes := ApplyLockout(username, now, count, locked);
    }

    method RecordSuccess(username: string)
      modifies this
      ensures rows == if username == "" then old(rows) else old(rows) - {username}
    {
      if username != "" {
        rows := rows - {username};
      }
    }

    method AdminUnlock(username: string) returns (had: bool)
      modifies this
      ensures rows == if username == "" then old(rows) else old(rows) - {username}
      ensures had == (username != "" && username in old(rows))
    {
      if username == "" {
        return false;
      }
      had := username in rows;
      rows := rows - {username};
    }
  }

  // ---- runs ------------------------------------------------------------------------

  /** A failure, or something that clears the row (a successful login or an admin unlock). */
  datatype Event = Failure(at: int) | Cleared(at: int)

  ghost predicate Ordered(events: seq<Event>) {
    forall i, j :: 0 <= i < j < |events| ==> events[i].at <= events[j].at
  }

  function After(events: seq<Event>): Option<Row> {
    if events == [] then None
    else match events[|events| - 1]
      case Failure(at) => Some(Failed(After(events[..|events| - 1]), at))
      case Cleared(_) => None
  }

  /** The failures since the row was last cleared, oldest first. */
  function SinceClear(events: seq<Event>): (ts: seq<int>)
    ensures forall i :: 0 <= i < |ts| ==> exists j :: 0 <= j < |events| && events[j].at == ts[i]
    ensures |events| > 0 && |ts| > 0 ==> ts[|ts| - 1] == events[|events| - 1].at
  {
    if events == [] then []
    else match events[|events| - 1]
      case Failure(at) => SinceClear(events[..|events| - 1]) + [at]
      case Cleared(_) => []
  }

  /** How many of the instants are `t` or later. */
  function CountFrom(ts: seq<int>, t: int): nat {
    if ts == [] then 0
    else CountFrom(ts[..|ts| - 1], t) + if ts[|ts| - 1] >= t then 1 else 0
  }

  lemma {:induction false} CountNone(ts: seq<int>, t: int)
    requires forall i :: 0 <= i < |ts| ==> ts[i] < t
    ensures CountFrom(ts, t) == 0
  {
    if ts != [] {
      CountNone(ts[..|ts| - 1], t);
    }
  }

  /** A row as it can come about, given the failures since it was last cleared. */
  ghost predicate Earned(row: Row, ts: seq<int>) {
    && ts != [] && (forall i :: 0 <= i < |ts| ==> ts[i] <= ts[|ts| - 1])
    && row.first.Some? && row.first.value in ts
    && row.count == CountFrom(ts, row.first.value)
    && (row.until.Some? <==> row.count >= 5)
    // The lock was taken by a failure of this streak, for the window of the present count.
    && (row.count >= 5 ==> row.first.value <= LockTaken(row) && LockTaken(row) in ts)
    // A streak over a day old survives only under a lock.
    && (ts[|ts| - 1] - row.first.value <= DAY || LockedAt(Some(row), ts[|ts| - 1]))
  }

  function LockTaken(row: Row): int
    requires row.until.Some? && row.count >= 5
  {
    row.until.value - Window(row.count).value * MINUTE
  }

  lemma EarnedStep(row: Row, ts: seq<int>, at: int)
    requires Earned(row, ts) && at >= ts[|ts| - 1]
    ensures Earned(Failed(Some(row), at), ts + [at])
  {
    var ts', row' := ts + [at], Failed(Some(row), at);
    assert ts'[..|ts|] == ts;
    assert forall t :: t in ts ==> t in ts';
    assert ts'[|ts|] == at && at in ts';
    if Stale(row, at) {
      assert ts[|ts| - 1] < at;
      CountNone(ts, at);
    }
  }

  lemma {:induction false} EveryRowEarned(events: seq<Event>)
    requires Ordered(events)
    ensures After(events).None? <==> SinceClear(events) == []
    ensures After(events).Some? ==> Earned(After(events).value, SinceClear(events))
  {
    if events != [] && events[|events| - 1].Failure? {
      var before, at := events[..|events| - 1], events[|events| - 1].at;
      EveryRowEarned(before);
      if After(before).Some? {
        EarnedStep(After(before).value, SinceClear(before), at);
      } else {
        assert [at][..0] == [] && CountFrom([at], at) == 1;
      }
    }
  }

  /**
    The counter is the number of failures since first_failure_at, in every state that failures and clears can reach.
    */
  lemma CountIsFailuresSinceFirst(events: seq<Event>)
    requires Ordered(events) && After(events).Some?
    ensures var row := After(events).value;
            row.first.Some? && row.count == CountFrom(SinceClear(events), row.first.value) &&
                row.first.value in SinceClear(events)
  {
    EveryRowEarned(events);
  }

  lemma EarnedBefore(events: seq<Event>, at: int)
    requires Ordered(events + [Failure(at)]) && After(events).Some?
    ensures var ts := SinceClear(events); Earned(After(events).value, ts) && at >= ts[|ts| - 1]
  {
    var all := events + [Failure(at)];
    assert forall i :: 0 <= i < |events| ==> all[i] == events[i];
    EveryRowEarned(events);
    assert all[|events| - 1].at <= all[|events|].at;
  }

  // ---- whatever order the clock readings commit in ------------------------------------------

  /** The row counts failure `k` since the clear and all after it, and one of them took its lock. */
  ghost predicate CountsFrom(row: Row, ts: seq<int>, k: nat) {
    && k < |ts| && row.first == Some(ts[k]) && row.count == |ts| - k
    && (row.until.Some? <==> row.count >= 5)
    && (row.count >= 5 ==> LockTaken(row) in ts)
  }

  lemma OneMoreCounted(row: Row, ts: seq<int>, k: nat, at: int)
    requires CountsFrom(row, ts, k)
    ensures CountsFrom(Failed(Some(row), at), ts + [at], if Stale(row, at) then |ts| else k)
  {
    assert (ts + [at])[|ts|] == at && (ts + [at])[k] == ts[k];
    if row.count >= 5 {
      assert LockTaken(row) in ts + [at];
    }
  }

  /**
    The clock is read before the wait for the write lock, so failures may commit in another order than their readings:
    the count is right all the same.
    */
  lemma {:induction false} CountIsStreak(events: seq<Event>) returns (k: nat)
    ensures After(events).None? <==> SinceClear(events) == []
    ensures After(events).Some? ==> CountsFrom(After(events).value, SinceClear(events), k)
  {
    k := 0;
    if events != [] && events[|events| - 1].Failure? {
      var before, at := events[..|events| - 1], events[|events| - 1].at;
      k := CountIsStreak(before);
      if After(before).Some? {
        OneMoreCounted(After(before).value, SinceClear(before), k, at);
        k := if Stale(After(before).value, at) then |SinceClear(before)| else k;
      } else {
        k := 0;
      }
    }
  }

  /**
    A failure moves a running lock nearer exactly if it promotes the lock and read the clock so long before the failure
    that took the lock that even the longer window ends sooner.
    */
  lemma LockShortenedExactly(events: seq<Event>, at: int)
    requires LockedAt(After(events), at)
    ensures var row, until := After(events).value, Failed(After(events), at).until;
            && row.count >= 5 && LockTaken(row) in SinceClear(events) && until.Some?
            && (until.value < row.until.value <==>
                  || (row.count == 9 && at < LockTaken(row) - 45 * MINUTE)
                  || (row.count == 14 && at < LockTaken(row) - 1380 * MINUTE))
  {
    var k := CountIsStreak(events);
  }

  /** So a failure that lags by 45 minutes or less behind those already counted never shortens a running lock. */
  lemma LockNeverShortened(events: seq<Event>, at: int)
    requires LockedAt(After(events), at)
    requires forall i :: 0 <= i < |events| && events[i].Failure? ==> events[i].at - 45 * MINUTE <= at
    ensures var until := Failed(After(events), at).until;
            until.Some? && until.value >= After(events).value.until.value
  {
    LockShortenedExactly(events, at);
    FailuresOnly(events);
  }

  lemma {:induction false} FailuresOnly(events: seq<Event>)
    ensures forall t :: t in SinceClear(events) ==> exists i :: 0 <= i < |events| && events[i] == Failure(t)
  {
    if events != [] {
      var before := events[..|events| - 1];
      FailuresOnly(before);
      forall t | t in SinceClear(events) ensures exists i :: 0 <= i < |events| && events[i] == Failure(t) {
        if t in SinceClear(before) && events[|events| - 1].Failure? {
          var i :| 0 <= i < |before| && before[i] == Failure(t);
          assert events[i] == Failure(t);
        } else {
          assert events[|events| - 1] == Failure(t);
        }
      }
    }
  }

  /** The failures of the streak up to the lock all fell at the instant of the first. */
  ghost predicate OneInstant(row: Row, ts: seq<int>)
    requires row.first.Some? && row.until.Some? && row.count >= 5
  {
    forall t :: t in ts && row.first.value <= t <= LockTaken(row) ==> t == row.first.value
  }

  /**
    Once a day-long lock has run out, the next failure restarts the streak unlocked: except at expiry to the microsecond
    after a streak of one instant.
    */
  lemma DayLockEndsStreak(events: seq<Event>, at: int)
    requires Ordered(events + [Failure(at)]) && After(events).Some? && After(events).value.count >= 15
    requires !LockedAt(After(events), at)
    ensures var row, next := After(events).value, Failed(After(events), at);
            && row.first.Some? && row.until.Some?
            && (next == Row(1, Some(at), None) <==> !(at == row.until.value && OneInstant(row, SinceClear(events))))
            && (next != Row(1, Some(at), None) ==> next == Row(row.count + 1, row.first, Some(at + 86_400_000_000)))
  {
    EarnedBefore(events, at);
    ExpiredDayLock(After(events).value, SinceClear(events), at);
  }

  lemma ExpiredDayLock(row: Row, ts: seq<int>, at: int)
    requires Earned(row, ts) && row.count >= 15 && !LockedAt(Some(row), at)
    ensures Failed(Some(row), at) == Row(1, Some(at), None) <==> !(at == row.until.value && OneInstant(row, ts))
    ensures Failed(Some(row), at) != Row(1, Some(at), None) ==>
              Failed(Some(row), at) == Row(row.count + 1, row.first, Some(at + DAY))
  {
    assert LockTaken(row) == row.until.value - DAY;
    if OneInstant(row, ts) {
      assert LockTaken(row) == row.first.value;
    } else {
      var t :| t in ts && row.first.value <= t <= LockTaken(row) && t != row.first.value;
    }
  }

  // ---- how long failures alone can keep an account locked ------------------------------

  /** The row after failures at the given instants, oldest first. */
  function Failures(row: Option<Row>, ts: seq<int>): Option<Row> {
    if ts == [] then row else Some(Failed(Failures(row, ts[..|ts| - 1]), ts[|ts| - 1]))
  }

  /** Failure `i - 1` leaves a lock, and failure `i`, if there is one, finds it. */
  predicate FoundLocked(row: Option<Row>, ts: seq<int>, i: nat)
    requires 0 < i <= |ts|
  {
    var after := Failures(row, ts[..i]);
    LockedAt(after, ts[i - 1]) && (i < |ts| ==> LockedAt(after, ts[i]))
  }

  /**
    Unlocked before the first failure, locked from then on: at every reading at which a failure comes, in whatever order
    they commit.
    */
  ghost predicate HeldLocked(row: Option<Row>, ts: seq<int>) {
    ts != [] && !LockedAt(row, ts[0]) && forall i :: 0 < i <= |ts| ==> FoundLocked(row, ts, i)
  }

  /** The longest the lock can have been stretched to by the time the count stands in each band. */
  function Stretch(count: nat): int {
    if count >= 15 then 1515 * MINUTE - 2 else if count >= 10 then 75 * MINUTE - 1 else 15 * MINUTE
  }

  lemma StretchStart(row: Option<Row>, at: int)
    requires !LockedAt(row, at) && LockedAt(Some(Failed(row, at)), at)
    ensures Failed(row, at).count >= 5 && Failed(row, at).until.value <= at + Stretch(Failed(row, at).count)
  {
  }

  lemma StretchStep(row: Row, start: int, at: int)
    requires LockedAt(Some(row), at) && row.count >= 5 && row.until.value <= start + Stretch(row.count)
    ensures Failed(Some(row), at).count >= 5 && Failed(Some(row), at).until.Some?
    ensures Failed(Some(row), at).until.value <= start + Stretch(Failed(Some(row), at).count)
  {
  }

  /**
    Whatever state they start from and however they are timed, failures alone keep an account locked for less than
    15 + 60 + 1440 minutes from the failure that locked it; to the microsecond, at most two less.
    */
  lemma {:induction false} ContinuousLockBounded(row: Option<Row>, ts: seq<int>)
    requires HeldLocked(row, ts)
    ensures var r := Failures(row, ts).value;
            r.until.Some? && r.count >= 5 && r.until.value <= ts[0] + Stretch(r.count) <= ts[0] + 90_900_000_000 - 2
  {
    var n := |ts| - 1;
    assert ts[..n + 1] == ts && FoundLocked(row, ts, n + 1);
    if n == 0 {
      assert ts[..0] == [];
      StretchStart(row, ts[0]);
    } else {
      var before := ts[..n];
      forall i | 0 < i <= n ensures FoundLocked(row, before, i) {
        assert before[..i] == ts[..i] && FoundLocked(row, ts, i);
      }
      ContinuousLockBounded(row, before);
      assert FoundLocked(row, ts, n);
      StretchStep(Failures(row, before).value, ts[0], ts[n]);
    }
  }

  lemma FourFailures()
    ensures After([Failure(0), Failure(0), Failure(0), Failure(0)]) == Some(Row(4, Some(0), None))
  {
    var one := [Failure(0)];
    var two := one + one;
    var three := two + one;
    assert one[..0] == [] && After(one) == Some(Row(1, Some(0), None));
    assert two[..1] == one && After(two) == Some(Row(2, Some(0), None));
    assert three[..2] == two && After(three) == Some(Row(3, Some(0), None));
    assert (three + one)[..3] == three && three + one == [Failure(0), Failure(0), Failure(0), Failure(0)];
  }

  /** The fifth failure at once, five more just before its lock runs out, five more just before theirs does. */
  const WORST: seq<int> :=
    seq(11, k => if k == 0 then 0 else if k < 6 then 15 * MINUTE - 1 else 75 * MINUTE - 2)

  const FOUR: Option<Row> := Some(Row(4, Some(0), None))

  function WorstLock(i: nat): int {
    if i < 6 then 15 * MINUTE else if i < 11 then 75 * MINUTE - 1 else 1515 * MINUTE - 2
  }

  lemma {:induction false} WorstRow(i: nat)
    requires i <= 11
    ensures Failures(FOUR, WORST[..i]) == if i == 0 then FOUR else Some(Row(4 + i, Some(0), Some(WorstLock(i))))
  {
    if i > 0 {
      WorstRow(i - 1);
      assert WORST[..i][..i - 1] == WORST[..i - 1];
    }
  }

  /** The bound is met: fifteen failures, the tenth and fifteenth a microsecond before the lock they find runs out. */
  lemma ContinuousLockReached() returns (ts: seq<int>)
    ensures HeldLocked(FOUR, ts) && forall i, j :: 0 <= i < j < |ts| ==> ts[i] <= ts[j]
    ensures After([Failure(0), Failure(0), Failure(0), Failure(0)]) == FOUR
    ensures Failures(FOUR, ts).value.until == Some(ts[0] + 90_900_000_000 - 2)
  {
    FourFailures();
    ts := WORST;
    forall i | 0 < i <= |ts| ensures FoundLocked(FOUR, ts, i) {
      WorstRow(i);
    }
    WorstRow(11);
    assert ts[..11] == ts;
  }
}
