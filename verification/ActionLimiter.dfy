/** The per-actor limiter: a burst window and a sliding day, kept in two pruned stores. */
module ActionLimiter {
  import opened SlidingWindow

  const DAY_SECONDS: real := 86_400.0
  const PRUNE_EVERY: nat := 512

  class ActionRateLimiter {
    const maxInWindow: int
    const window: real
    const maxPerDay: int
    var attempts: map<string, seq<real>>
    var daily: map<string, seq<real>>
    var callsSincePrune: nat
    ghost var log: map<string, seq<real>>   // every accepted call, never pruned
    ghost var clock: real

    constructor (maxInWindow: int, window: real, maxPerDay: int)
      ensures Valid() && log == map[]
      ensures this.maxInWindow == maxInWindow && this.window == window && this.maxPerDay == maxPerDay
    {
      this.maxInWindow, this.window, this.maxPerDay := maxInWindow, window, maxPerDay;
      attempts, daily, callsSincePrune := map[], map[], 0;
      log := map[];
      clock := 0.0;
    }

    /** Both stores hold what matters of the full log, and the full log keeps to both caps. */
    ghost predicate Valid()
      reads this
    {
      && LogPaced(log, maxInWindow, window, false)
      && (maxPerDay > 0 ==> LogPaced(log, maxPerDay, DAY_SECONDS, true))
      && StoreOk(attempts, log, clock, window, false)
      && (if maxPerDay > 0 then StoreOk(daily, log, clock, DAY_SECONDS, true) else daily == map[])
      && (forall actor :: actor in daily ==> daily[actor] != []) && callsSincePrune < PRUNE_EVERY
    }

    /**
      Accepts exactly when a limiter that never drops anything would: fewer than the cap of the actor's accepted calls
      lie less than the window back, and fewer than the daily cap a day back or less.
      */
    method Check(actor: string, now: real) returns (ok: bool)
      requires Valid() && now >= clock
      modifies this
      ensures Valid() && clock == now
      ensures var accepted := Get(old(log), actor);
              ok == (|set i | 0 <= i < |accepted| && now - accepted[i] < window| < maxInWindow &&
                     (maxPerDay > 0 ==> |set i | 0 <= i < |accepted| && now - accepted[i] <= 86_400.0| < maxPerDay))
      ensures log == if ok then old(log)[actor := Get(old(log), actor) + [now]] else old(log)
    {
      ghost var accepted := Get(log, actor);
      RecentCounts(accepted, now, window);
      RecentCounts(accepted, now, DAY_SECONDS);
      StoreWaits(attempts, log, clock, now, window, false);
      if maxPerDay > 0 {
        StoreWaits(daily, log, clock, now, DAY_SECONDS, true);
      }
      clock := now;
      if maxPerDay > 0 {
        var count := TrimDay(actor, now);
        if count >= maxPerDay {
          return false;
        }
      }
      var recent := FilterBurst(actor, now);
      if |recent| >= maxInWindow {
        RefuseBurst(actor, now, recent);
        return false;
      }
      LogStaysPaced(log, actor, now, maxInWindow, window, false);
      if maxPerDay > 0 {
        LogStaysPaced(log, actor, now, maxPerDay, DAY_SECONDS, true);
        RecordDay(actor, now);
      }
      RecordBurst(actor, now, recent);
      log := log[actor := accepted + [now]];
      ok := true;
    }

    /** The actor's stored calls that are still inside the burst window: as many as in the full log. */
    method FilterBurst(actor: string, now: real) returns (recent: seq<real>)
      requires StoreOk(attempts, log, now, window, false)
      ensures |recent| == |Recent(Get(log, actor), now, window, false)|
      ensures Covers(recent, Get(log, actor), now, window, false)
    {
      recent := Recent(Get(attempts, actor), now, window, false);
      assert ActorOk(Get(attempts, actor), Get(log, actor), now, window, false);
      CoveringStoreAnswers(Get(attempts, actor), Get(log, actor), now, now, window, false);
    }

    method RefuseBurst(actor: string, now: real, recent: seq<real>)
      requires StoreOk(attempts, log, now, window, false) && Covers(recent, Get(log, actor), now, window, false)
      modifies this`attempts
      ensures attempts == old(attempts)[actor := recent] && StoreOk(attempts, log, now, window, false)
    {
      StoreSet(attempts, log, actor, recent, now, window, false);
      attempts := attempts[actor := recent];
    }

    method RecordBurst(actor: string, now: real, recent: seq<real>)
      requires StoreOk(attempts, log, now, window, false) && Covers(recent, Get(log, actor), now, window, false)
      modifies this`attempts
      ensures attempts == old(attempts)[actor := recent + [now]]
      ensures StoreOk(attempts, log[actor := Get(log, actor) + [now]], now, window, false)
    {
      StoreRecord(attempts, log, actor, recent, now, window, false);
      attempts := attempts[actor := recent + [now]];
    }

    /** Drops what has left the actor's day, and counts the rest. */
    method TrimDay(actor: string, now: real) returns (count: nat)
      requires maxPerDay > 0 && StoreOk(daily, log, now, DAY_SECONDS, true)
      requires forall actor :: actor in daily ==> daily[actor] != []
      modifies this`daily
      ensures count == |Recent(Get(log, actor), now, DAY_SECONDS, true)|
      ensures daily == if count > 0 then old(daily)[actor := Recent(Get(log, actor), now, DAY_SECONDS, true)]
                       else old(daily) - {actor}
      ensures StoreOk(daily, log, now, DAY_SECONDS, true)
      ensures forall actor :: actor in daily ==> daily[actor] != []
    {
      assert ActorOk(Get(daily, actor), Get(log, actor), now, DAY_SECONDS, true);
      var dayLog := PopExpired(Get(daily, actor), now, Get(log, actor));
      StoreSet(daily, log, actor, dayLog, now, DAY_SECONDS, true);
      count := |dayLog|;
      if dayLog != [] {
        daily := daily[actor := dayLog];
      } else {
        daily := daily - {actor};
      }
    }

    /** Records an accepted call in the actor's day, pruning everyone's every so often. */
    method RecordDay(actor: string, now: real)
      requires maxPerDay > 0 && StoreOk(daily, log, now, DAY_SECONDS, true)
      requires (forall actor :: actor in daily ==> daily[actor] != []) && callsSincePrune < PRUNE_EVERY
      modifies this`daily, this`callsSincePrune
      ensures callsSincePrune == if old(callsSincePrune) < 511 then old(callsSincePrune) + 1 else 0
      ensures if callsSincePrune != 0 then daily == old(daily)[actor := Get(old(daily), actor) + [now]]
              else forall a :: a in daily ==> WithinADay(daily[a], now)
      ensures StoreOk(daily, log[actor := Get(log, actor) + [now]], now, DAY_SECONDS, true)
      ensures forall actor :: actor in daily ==> daily[actor] != []
    {
      ghost var log' := log[actor := Get(log, actor) + [now]];
      assert ActorOk(Get(daily, actor), Get(log, actor), now, DAY_SECONDS, true);
      StoreRecord(daily, log, actor, Get(daily, actor), now, DAY_SECONDS, true);
      daily := daily[actor := Get(daily, actor) + [now]];
      callsSincePrune := callsSincePrune + 1;
      if callsSincePrune >= PRUNE_EVERY {
        callsSincePrune := 0;
        PruneDaily(now, log');
      }
    }

    /** The `popleft` loop. */
    method PopExpired(dayLog: seq<real>, now: real, ghost accepted: seq<real>) returns (kept: seq<real>)
      requires Ordered(accepted) && Covers(dayLog, accepted, now, DAY_SECONDS, true)
      ensures kept == Recent(accepted, now, DAY_SECONDS, true) && Covers(kept, accepted, now, DAY_SECONDS, true)
    {
      kept := dayLog;
      var cutoff := now - DAY_SECONDS;
      while kept != [] && kept[0] < cutoff
        invariant Covers(kept, accepted, now, DAY_SECONDS, true)
      {
        kept := kept[1..];
      }
      CoveringStoreAnswers(kept, accepted, now, now, DAY_SECONDS, true);
      NothingExpired(kept, now, DAY_SECONDS, true);
    }

    /** Trims every actor's day and drops the actors with nothing left. */
    method PruneDaily(now: real, ghost log: map<string, seq<real>>)
      requires maxPerDay > 0 && StoreOk(daily, log, now, DAY_SECONDS, true)
      modifies this`daily
      ensures StoreOk(daily, log, now, DAY_SECONDS, true)
      ensures forall actor :: actor in daily ==> daily[actor] != [] && WithinADay(daily[actor], now)
    {
      var left := daily.Keys;
      while left != {}
        invariant left <= daily.Keys
        invariant StoreOk(daily, log, now, DAY_SECONDS, true)
        invariant forall actor :: actor in daily && actor !in left ==>
                    daily[actor] != [] && WithinADay(daily[actor], now)
        decreases left
      {
        var actor :| actor in left;
        assert ActorOk(Get(daily, actor), Get(log, actor), now, DAY_SECONDS, true);
        var kept := PopExpired(daily[actor], now, Get(log, actor));
        RecentIsInside(Get(log, actor), now);
        StoreSet(daily, log, actor, kept, now, DAY_SECONDS, true);
        daily := if kept == [] then daily - {actor} else daily[actor := kept];
        left := left - {actor};
      }
    }

    method Reset()
      modifies this
      ensures Valid() && log == map[] && attempts == map[] && daily == map[] && callsSincePrune == 0
    {
      attempts, daily, callsSincePrune := map[], map[], 0;
      log := map[];
    }
  }

  predicate WithinADay(times: seq<real>, now: real) {
    forall t :: t in times ==> now - t <= 86_400.0
  }

  lemma {:induction false} RecentIsInside(log: seq<real>, now: real)
    ensures WithinADay(Recent(log, now, DAY_SECONDS, true), now)
  {
    if log != [] {
      RecentIsInside(log[..|log| - 1], now);
    }
  }

  /** One actor's store against the actor's full log. */
  ghost predicate ActorOk(stored: seq<real>, log: seq<real>, clock: real, window: real, closed: bool) {
    && Ordered(log) && (forall i :: 0 <= i < |log| ==> log[i] <= clock)
    && Covers(stored, log, clock, window, closed)
  }

  ghost predicate StoreOk(store: map<string, seq<real>>, log: map<string, seq<real>>, clock: real, window: real,
                          closed: bool) {
    forall actor :: ActorOk(Get(store, actor), Get(log, actor), clock, window, closed)
  }

  /** Every actor's full log keeps to the cap: see `EveryWindowCapped`. */
  ghost predicate LogPaced(log: map<string, seq<real>>, cap: int, window: real, closed: bool) {
    forall actor :: actor in log ==> Paced(log[actor], cap, window, closed)
  }

  lemma LogStaysPaced(log: map<string, seq<real>>, actor: string, now: real, cap: int, window: real, closed: bool)
    requires LogPaced(log, cap, window, closed) && |Recent(Get(log, actor), now, window, closed)| < cap
    ensures LogPaced(log[actor := Get(log, actor) + [now]], cap, window, closed)
  {
    PacedAppend(Get(log, actor), now, cap, window, closed);
  }

  lemma StoreWaits(store: map<string, seq<real>>, log: map<string, seq<real>>, clock: real, now: real, window: real,
                   closed: bool)
    requires StoreOk(store, log, clock, window, closed) && clock <= now
    ensures StoreOk(store, log, now, window, closed)
  {
    forall actor ensures ActorOk(Get(store, actor), Get(log, actor), now, window, closed) {
      assert ActorOk(Get(store, actor), Get(log, actor), clock, window, closed);
    }
  }

  lemma StoreSet(store: map<string, seq<real>>, log: map<string, seq<real>>, actor: string, kept: seq<real>, now: real,
                 window: real, closed: bool)
    requires StoreOk(store, log, now, window, closed) && Covers(kept, Get(log, actor), now, window, closed)
    ensures StoreOk(store[actor := kept], log, now, window, closed)
    ensures kept == [] ==> StoreOk(store - {actor}, log, now, window, closed)
  {
    forall a ensures ActorOk(Get(store[actor := kept], a), Get(log, a), now, window, closed)
             ensures kept == [] ==> ActorOk(Get(store - {actor}, a), Get(log, a), now, window, closed)
    {
      assert ActorOk(Get(store, a), Get(log, a), now, window, closed);
    }
  }

  lemma StoreRecord(store: map<string, seq<real>>, log: map<string, seq<real>>, actor: string, kept: seq<real>,
                    now: real, window: real, closed: bool)
    requires StoreOk(store, log, now, window, closed) && Covers(kept, Get(log, actor), now, window, closed)
    ensures StoreOk(store[actor := kept + [now]], log[actor := Get(log, actor) + [now]], now, window, closed)
  {
    var store', log' := store[actor := kept + [now]], log[actor := Get(log, actor) + [now]];
    forall a ensures ActorOk(Get(store', a), Get(log', a), now, window, closed) {
      assert ActorOk(Get(store, a), Get(log, a), now, window, closed);
      if a == actor {
        StoreAppend(kept, Get(log, actor), now, window, closed);
      }
    }
  }

  /** With the oldest entry still inside, everything is. */
  lemma {:induction false} NothingExpired(stored: seq<real>, now: real, window: real, closed: bool)
    requires Ordered(stored) && (stored != [] ==> !Out(stored[0], now, window, closed))
    ensures Recent(stored, now, window, closed) == stored
  {
    if |stored| > 0 {
      var n := |stored| - 1;
      if n > 0 {
        NothingExpired(stored[..n], now, window, closed);
      } else {
        assert stored[..0] == [];
      }
      assert stored == stored[..n] + [stored[n]];
    }
  }

  lemma StoreAppend(stored: seq<real>, log: seq<real>, now: real, window: real, closed: bool)
    requires Covers(stored, log, now, window, closed) && Ordered(log) && (forall i :: 0 <= i < |log| ==> log[i] <= now)
    ensures ActorOk(stored + [now], log + [now], now, window, closed)
  {
    var all := log + [now];
    assert all[|all| - |stored + [now]|..] == log[|log| - |stored|..] + [now];
  }
}
