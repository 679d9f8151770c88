/** Sliding windows over a log of accepted calls. */
module SlidingWindow {
  /**
    Whether an entry has left the window by `now`: strict comparison keeps the far edge out, a closed window keeps it
    in.
    */
  predicate Out(t: real, now: real, window: real, closed: bool) {
    if closed then now - t > window else now - t >= window
  }

  /** A bucket's stored log, empty if there is none. */
  function Get<K>(m: map<K, seq<real>>, k: K): seq<real> {
    if k in m then m[k] else []
  }

  ghost predicate Ordered(log: seq<real>) {
    forall i, j :: 0 <= i < j < |log| ==> log[i] <= log[j]
  }

  /** The entries still inside the window. */
  function Recent(log: seq<real>, now: real, window: real, closed: bool): (r: seq<real>)
    ensures |r| <= |log|
  {
    if log == [] then []
    else Recent(log[..|log| - 1], now, window, closed) +
         if Out(log[|log| - 1], now, window, closed) then [] else [log[|log| - 1]]
  }

  /** How many that is, in seconds and by index: an open window leaves its far edge out, a closed one keeps it. */
  lemma RecentCounts(log: seq<real>, now: real, window: real)
    ensures |Recent(log, now, window, false)| == |set i | 0 <= i < |log| && now - log[i] < window|
    ensures |Recent(log, now, window, true)| == |set i | 0 <= i < |log| && now - log[i] <= window|
  {
    CountedByIndex(log, now, window, false);
    CountedByIndex(log, now, window, true);
    assert Inside(log, now, window, false) == set i | 0 <= i < |log| && now - log[i] < window;
    assert Inside(log, now, window, true) == set i | 0 <= i < |log| && now - log[i] <= window;
  }

  function Inside(log: seq<real>, now: real, window: real, closed: bool): set<int> {
    set i | 0 <= i < |log| && !Out(log[i], now, window, closed)
  }

  lemma {:induction false} CountedByIndex(log: seq<real>, now: real, window: real, closed: bool)
    ensures |Recent(log, now, window, closed)| == |Inside(log, now, window, closed)|
  {
    if log != [] {
      var n := |log| - 1;
      CountedByIndex(log[..n], now, window, closed);
      InsideOneMore(log, now, window, closed);
    }
  }

  lemma InsideOneMore(log: seq<real>, now: real, window: real, closed: bool)
    requires log != []
    ensures var n := |log| - 1;
            var before := Inside(log[..n], now, window, closed);
            n !in before && Inside(log, now, window, closed) ==
                            if Out(log[n], now, window, closed) then before else before + {n}
  {
  }

  /** `stored` is the log with nothing but expired entries missing from its front. */
  ghost predicate Covers(stored: seq<real>, log: seq<real>, now: real, window: real, closed: bool) {
    && |stored| <= |log|
    && (forall i :: 0 <= i < |stored| ==> stored[i] == log[|log| - |stored| + i])
    && forall i :: 0 <= i < |log| - |stored| ==> Out(log[i], now, window, closed)
  }

  /** On an ordered log the entries inside the window are a suffix. */
  lemma {:induction false} RecentCovers(log: seq<real>, now: real, window: real, closed: bool)
    requires Ordered(log)
    ensures Covers(Recent(log, now, window, closed), log, now, window, closed)
    ensures forall i :: 0 <= i < |Recent(log, now, window, closed)| ==>
              !Out(Recent(log, now, window, closed)[i], now, window, closed)
  {
    if log != [] {
      var n := |log| - 1;
      RecentCovers(log[..n], now, window, closed);
      var before, r := Recent(log[..n], now, window, closed), Recent(log, now, window, closed);
      if Out(log[n], now, window, closed) {
        RecentOfExpired(log[..n], now, window, closed);
      } else {
        assert log[|log| - |r|..] == log[..n][n - |before|..] + [log[n]];
      }
    }
  }

  /**
    A covering store answers every later window question as the whole log would, and filtering it keeps it covering.
    */
  lemma CoveringStoreAnswers(stored: seq<real>, log: seq<real>, earlier: real, now: real, window: real, closed: bool)
    requires Covers(stored, log, earlier, window, closed) && Ordered(log) && earlier <= now
    ensures Recent(stored, now, window, closed) == Recent(log, now, window, closed)
    ensures Covers(Recent(stored, now, window, closed), log, now, window, closed)
    ensures Covers(stored, log, now, window, closed)
  {
    RecentCovers(log, now, window, closed);
    var k := |log| - |stored|;
    assert stored == log[k..];
    RecentOfSuffix(log, k, now, window, closed);
  }

  /** Expired entries at the front make no difference. */
  lemma {:induction false} RecentOfSuffix(log: seq<real>, k: nat, now: real, window: real, closed: bool)
    requires k <= |log| && forall i :: 0 <= i < k ==> Out(log[i], now, window, closed)
    ensures Recent(log[k..], now, window, closed) == Recent(log, now, window, closed)
  {
    if k == |log| {
      RecentOfExpired(log, now, window, closed);
    } else {
      var n := |log| - 1;
      RecentOfSuffix(log[..n], k, now, window, closed);
      assert log[k..][..n - k] == log[..n][k..];
    }
  }

  lemma {:induction false} RecentOfExpired(log: seq<real>, now: real, window: real, closed: bool)
    requires forall i :: 0 <= i < |log| ==> Out(log[i], now, window, closed)
    ensures Recent(log, now, window, closed) == []
  {
    if log != [] {
      RecentOfExpired(log[..|log| - 1], now, window, closed);
    }
  }

  /** Every call in the log found room in its window when it was accepted. */
  ghost predicate Paced(log: seq<real>, cap: int, window: real, closed: bool) {
    forall i :: 0 <= i < |log| ==> |Recent(log[..i], log[i], window, closed)| < cap
  }

  lemma PacedAppend(log: seq<real>, now: real, cap: int, window: real, closed: bool)
    requires Paced(log, cap, window, closed) && |Recent(log, now, window, closed)| < cap
    ensures Paced(log + [now], cap, window, closed)
  {
    var all := log + [now];
    forall i | 0 <= i < |all| ensures |Recent(all[..i], all[i], window, closed)| < cap {
      assert all[..i] == log[..i];
    }
    assert all[..|log|] == log && log[..|log|] == log;
  }

  /** Then no window of that many seconds, wherever it is laid over the log, holds more calls than the cap. */
  lemma EveryWindowCapped(log: seq<real>, cap: int, window: real, closed: bool, i: nat, j: nat)
    requires Ordered(log) && Paced(log, cap, window, closed)
    requires i <= j < |log| && (log[j] - log[i] < window || (closed && log[j] - log[i] == window))
    ensures j - i + 1 <= cap
  {
    var r := Recent(log[..j], log[j], window, closed);
    RecentCovers(log[..j], log[j], window, closed);
    assert |r| < cap;
    assert i < j ==> log[..j][i] == log[i];
  }
}
