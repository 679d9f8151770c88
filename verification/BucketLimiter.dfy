/** The per-network-prefix limiter: a bounded dictionary of buckets in recency order, pruned and LRU-evicted. */
module BucketLimiter {
  import opened SlidingWindow

  const MAX_BUCKETS: nat := 10_000
  const PRUNE_EVERY: nat := 256

  /** An IP address as its bits, or text that is none. */
  datatype Address = V4(bits: nat) | V6(bits: nat) | Unparsed(text: string)

  type Bucket = string

  /** How a network's number is written out, with its prefix length. */
  datatype Printer = Printer(net4: nat -> string, net6: nat -> string)

  /** Collapses an address to its /24 or /64; text that is no address is its own bucket. */
  function BucketKey(ip: Address, printer: Printer): Bucket {
    match ip
    case V4(bits) => printer.net4(bits / 0x100)
    case V6(bits) => printer.net6(bits / 0x1_0000_0000_0000_0000)
    case Unparsed(text) => text
  }

  /** One check as history records it. */
  datatype Call = Call(key: Bucket, at: real, ok: bool)

  type Store = map<Bucket, seq<real>>

  // ---- the ideal: the whole history -----------------------------------------------

  /** The instants at which calls of a bucket were accepted. */
  function Accepted(history: seq<Call>, key: Bucket): seq<real> {
    if history == [] then []
    else
      var last := history[|history| - 1];
      Accepted(history[..|history| - 1], key) + if last.key == key && last.ok then [last.at] else []
  }

  /** When a bucket was last checked; -1 if it never was. */
  function LastCheck(history: seq<Call>, key: Bucket): (i: int)
    ensures -1 <= i < |history|
  {
    if history == [] then -1
    else if history[|history| - 1].key == key then |history| - 1
    else LastCheck(history[..|history| - 1], key)
  }

  function KeysBetween(history: seq<Call>, from: nat, to: nat): set<Bucket>
    requires from <= to <= |history|
  {
    set l | from <= l < to :: history[l].key
  }

  /**
    Between two checks of the bucket, or since its last, at least 10,000 distinct other buckets were checked, and
    the check before that is still inside the window.
    */
  ghost predicate CrowdedOut(history: seq<Call>, key: Bucket, now: real, window: real) {
    exists i, j :: Gap(history, key, i, j) && !Out(history[i].at, now, window, false)
  }

  /** Only calls up to the check before such a gap can have been lost. */
  ghost predicate LostBy(history: seq<Call>, key: Bucket, t: real) {
    exists i, j :: Gap(history, key, i, j) && t <= history[i].at
  }

  ghost predicate Gap(history: seq<Call>, key: Bucket, i: int, j: int) {
    && 0 <= i < j <= |history| && history[i].key == key
    && (forall l :: i < l < j ==> history[l].key != key)
    && |KeysBetween(history, i + 1, j)| >= 10_000
  }

  lemma KeysKept(history: seq<Call>, call: Call, from: nat, to: nat)
    requires from <= to <= |history|
    ensures KeysBetween(history + [call], from, to) == KeysBetween(history, from, to)
  {
    var now, before := KeysBetween(history + [call], from, to), KeysBetween(history, from, to);
    forall k ensures k in now <==> k in before {
      if k in now {
        var l :| from <= l < to && (history + [call])[l].key == k;
        assert history[l].key == k;
      }
      if k in before {
        var l :| from <= l < to && history[l].key == k;
        assert (history + [call])[l].key == k;
      }
    }
  }

  lemma GapForGood(history: seq<Call>, call: Call, key: Bucket, i: int, j: int)
    requires Gap(history, key, i, j)
    ensures Gap(history + [call], key, i, j)
  {
    KeysKept(history, call, i + 1, j);
  }

  lemma LostForGood(history: seq<Call>, call: Call, key: Bucket, t: real)
    requires LostBy(history, key, t)
    ensures LostBy(history + [call], key, t)
  {
    var i, j :| Gap(history, key, i, j) && t <= history[i].at;
    GapForGood(history, call, key, i, j);
  }

  ghost predicate CallsOrdered(history: seq<Call>, clock: real) {
    && (forall i, j :: 0 <= i < j < |history| ==> history[i].at <= history[j].at)
    && (forall i :: 0 <= i < |history| ==> history[i].at <= clock)
  }

  // ---- the dictionary ------------------------------------------------------------------

  /** `order` lists the dictionary's keys, least recently checked first. */
  ghost predicate InRecencyOrder(order: seq<Bucket>, attempts: Store, history: seq<Call>) {
    && (forall k :: k in attempts <==> k in order)
    && Ascending(order, history)
  }

  ghost predicate Ascending(order: seq<Bucket>, history: seq<Call>) {
    && (forall i :: 0 <= i < |order| ==> LastCheck(history, order[i]) >= 0)
    && (forall i, j :: 0 <= i < j < |order| ==> LastCheck(history, order[i]) < LastCheck(history, order[j]))
  }

  function Without(order: seq<Bucket>, key: Bucket): (r: seq<Bucket>)
    ensures forall k :: k in r <==> k in order && k != key
    ensures |r| <= |order| && (key in order ==> |r| < |order|)
  {
    if order == [] then []
    else
      Without(order[..|order| - 1], key) +
      if order[|order| - 1] == key then [] else [order[|order| - 1]]
  }

  /** `stored` is the log with nothing missing but entries at its front that have expired or were lost in a gap. */
  ghost predicate Kept(stored: seq<real>, log: seq<real>, history: seq<Call>, key: Bucket, now: real, window: real) {
    && |stored| <= |log|
    && (forall i :: 0 <= i < |stored| ==> stored[i] == log[|log| - |stored| + i])
    && forall i :: 0 <= i < |log| - |stored| ==> Out(log[i], now, window, false) || LostBy(history, key, log[i])
  }

  ghost predicate BucketsOk(attempts: Store, history: seq<Call>, clock: real, window: real) {
    forall k :: Kept(Get(attempts, k), Accepted(history, k), history, k, clock, window)
  }

  /** Each accepted call of a bucket not crowded out at the time found room in its window. */
  ghost predicate CallsPaced(history: seq<Call>, maxAttempts: int, window: real) {
    forall l :: 0 <= l < |history| ==> CallPaced(history[..l], history[l], maxAttempts, window)
  }

  ghost predicate CallPaced(before: seq<Call>, call: Call, maxAttempts: int, window: real) {
    call.ok && !CrowdedOut(before, call.key, call.at, window) ==>
      InWindow(Accepted(before, call.key), call.at, window) < maxAttempts
  }

  /** How many calls are less than the window back. */
  function InWindow(calls: seq<real>, now: real, window: real): nat {
    |set i | 0 <= i < |calls| && now - calls[i] < window|
  }

  /** A limiter that admits nothing holds only empty buckets, no more than it was called since it last pruned. */
  ghost predicate Bounded(maxAttempts: int, order: seq<Bucket>, attempts: Store, calls: nat) {
    && |order| <= MAX_BUCKETS
    && (maxAttempts <= 0 ==> |order| <= calls && forall k :: k in attempts ==> attempts[k] == [])
  }

  function MaxOf(times: seq<real>): (m: real)
    requires times != []
    ensures m in times && forall i :: 0 <= i < |times| ==> times[i] <= m
  {
    if |times| == 1 then times[0]
    else
      var m := MaxOf(times[..|times| - 1]);
      if m < times[|times| - 1] then times[|times| - 1] else m
  }

  /** A bucket with nothing inside the window. */
  predicate IsStale(times: seq<real>, now: real, window: real) {
    times == [] || now - MaxOf(times) >= window
  }

  class RateLimiter {
    const maxAttempts: int
    const window: real
    const printer: Printer
    var order: seq<Bucket>                    // the OrderedDict's order, oldest first
    var attempts: Store
    var callsSincePrune: nat
    ghost var history: seq<Call>
    ghost var clock: real

    constructor (maxAttempts: int, window: real, printer: Printer)
      ensures Valid() && history == []
      ensures this.maxAttempts == maxAttempts && this.window == window && this.printer == printer
    {
      this.maxAttempts, this.window, this.printer := maxAttempts, window, printer;
      order, attempts, callsSincePrune := [], map[], 0;
      history, clock := [], 0.0;
    }

    ghost predicate Valid()
      reads this
    {
      && CallsOrdered(history, clock)
      && InRecencyOrder(order, attempts, history)
      && BucketsOk(attempts, history, clock, window)
      && CallsPaced(history, maxAttempts, window)
      && Bounded(maxAttempts, order, attempts, callsSincePrune) && callsSincePrune < PRUNE_EVERY
    }

    /**
      Never more than 10,000 buckets, in recency order. The answer is that of a log nothing was ever dropped from,
      unless 10,000 distinct other buckets were checked between two checks of this one, or since its last, and the
      earlier of the two is not yet a window ago.
      */
    method Check(ip: Address, now: real) returns (ok: bool)
      requires Valid() && now >= clock
      modifies this
      ensures Valid() && clock == now && history == old(history) + [Call(BucketKey(ip, printer), now, ok)]
      ensures |order| <= 10_000 && forall k :: k in attempts ==> k in order
      ensures !CrowdedOut(old(history), BucketKey(ip, printer), now, window) ==>
                var accepted := Accepted(old(history), BucketKey(ip, printer));
                ok == (|set i | 0 <= i < |accepted| && now - accepted[i] < window| < maxAttempts)
    {
      var key := BucketKey(ip, printer);
      var recent := Recent(Get(attempts, key), now, window, false);
      BucketAnswers(attempts, history, key, clock, now, window);
      ok := |recent| < maxAttempts;
      OneMorePaced(history, Call(key, now, ok), maxAttempts, window);
      Enter(key, recent, now, ok);
    }

    /** Enters the call, evicting and pruning as the dictionary asks. */
    method Enter(key: Bucket, recent: seq<real>, now: real, ok: bool)
      requires Valid() && now >= clock && ok == (|recent| < maxAttempts)
      requires Kept(recent, Accepted(history, key), history, key, now, window)
      requires CallsPaced(history + [Call(key, now, ok)], maxAttempts, window)
      requires key !in attempts || maxAttempts <= 0 ==> recent == []
      modifies this
      ensures Valid() && clock == now && history == old(history) + [Call(key, now, ok)]
    {
      BucketsWait(attempts, history, Call(key, now, ok), clock, window);
      if ok && key !in attempts && |order| >= MAX_BUCKETS {
        EvictOldest(Call(key, now, ok));
      }
      BoundedPut(maxAttempts, order, attempts, callsSincePrune, key, if ok then recent + [now] else recent);
      Put(key, recent, now, ok);
      MaybePrune(now);
    }

    /** Assigns the bucket, with the call added if it was accepted, and moves it to the end. */
    method Put(key: Bucket, recent: seq<real>, now: real, ok: bool)
      requires CallsOrdered(history, clock) && now >= clock && InRecencyOrder(order, attempts, history)
      requires BucketsOkAfter(attempts, history, Call(key, now, ok), clock, window)
      requires Kept(recent, Accepted(history, key), history, key, now, window)
      modifies this`order, this`attempts, this`history, this`clock
      ensures order == Without(old(order), key) + [key]
      ensures attempts == old(attempts)[key := if ok then recent + [now] else recent]
      ensures history == old(history) + [Call(key, now, ok)] && clock == now
      ensures CallsOrdered(history, clock) && InRecencyOrder(order, attempts, history) &&
              BucketsOk(attempts, history, clock, window)
    {
      var times := if ok then recent + [now] else recent;
      ghost var call := Call(key, now, ok);
      MovedToEnd(order, attempts, history, call, times);
      BucketsPut(attempts, history, call, recent, clock, window);
      order := Without(order, key) + [key];
      attempts := attempts[key := times];
      history := history + [call];
      clock := now;
    }

    /** Pops the least recently checked bucket: since its last check the dictionary has seen MAX_BUCKETS others. */
    method EvictOldest(ghost call: Call)
      requires CallsOrdered(history, clock)
      requires InRecencyOrder(order, attempts, history) && |order| == MAX_BUCKETS && call.key !in attempts
      requires BucketsOkAfter(attempts, history, call, clock, window)
      modifies this`order, this`attempts
      ensures order == old(order)[1..] && attempts == old(attempts) - {old(order)[0]}
      ensures InRecencyOrder(order, attempts, history) && BucketsOkAfter(attempts, history, call, clock, window)
      ensures Gap(history + [call], old(order)[0], LastCheck(history, old(order)[0]), |history| + 1)
    {
      OldestIsCrowdedOut(order, attempts, history, call);
      OldestPopped(order, attempts, history);
      CrowdedBucketDropped(attempts, history, call, order[0], clock, window);
      attempts := attempts - {order[0]};
      order := order[1..];
    }

    /** Every PRUNE_EVERY calls, drops the buckets with nothing left inside the window. */
    method MaybePrune(now: real)
      requires callsSincePrune < PRUNE_EVERY && Bounded(maxAttempts, order, attempts, callsSincePrune + 1)
      requires InRecencyOrder(order, attempts, history) && BucketsOk(attempts, history, now, window)
      modifies this`order, this`attempts, this`callsSincePrune
      ensures InRecencyOrder(order, attempts, history) && BucketsOk(attempts, history, now, window)
      ensures callsSincePrune == if old(callsSincePrune) < 255 then old(callsSincePrune) + 1 else 0
      ensures callsSincePrune != 0 ==> order == old(order) && attempts == old(attempts)
      ensures callsSincePrune == 0 ==>
                && (forall k :: k in attempts ==> k in old(attempts) && attempts[k] == old(attempts)[k])
                && (forall k :: k in old(attempts) ==>
                      (k in attempts <==> exists t :: t in old(attempts)[k] && now - t < window))
      ensures Bounded(maxAttempts, order, attempts, callsSincePrune)
    {
      callsSincePrune := callsSincePrune + 1;
      if callsSincePrune < PRUNE_EVERY {
        return;
      }
      callsSincePrune := 0;
      PruneStale(order, now);
      forall k | k in old(attempts)
        ensures !IsStale(old(attempts)[k], now, window) <==> exists t :: t in old(attempts)[k] && now - t < window
      {
        StaleMeans(old(attempts)[k], now, window);
      }
      assert order != [] ==> order[0] in attempts;
    }

    method PruneStale(keys: seq<Bucket>, now: real)
      requires InRecencyOrder(order, attempts, history) && BucketsOk(attempts, history, now, window) && keys == order
      modifies this`order, this`attempts
      ensures InRecencyOrder(order, attempts, history) && BucketsOk(attempts, history, now, window)
      ensures attempts == map k | k in old(attempts) && !IsStale(old(attempts)[k], now, window) :: old(attempts)[k]
      ensures |order| <= |old(order)|
    {
      var i := 0;
      while i < |keys|
        invariant 0 <= i <= |keys| && |order| <= |old(order)|
        invariant InRecencyOrder(order, attempts, history) && BucketsOk(attempts, history, now, window)
        invariant forall k :: k in attempts ==> k in old(attempts) && attempts[k] == old(attempts)[k]
        invariant forall k :: k in old(attempts) && k !in attempts ==> IsStale(old(attempts)[k], now, window)
        invariant forall j :: 0 <= j < i && keys[j] in attempts ==> !IsStale(attempts[keys[j]], now, window)
      {
        if keys[i] in attempts && IsStale(attempts[keys[i]], now, window) {
          Pop(keys[i], now);
        }
        i := i + 1;
      }
    }

    method Pop(key: Bucket, now: real)
      requires InRecencyOrder(order, attempts, history) && BucketsOk(attempts, history, now, window)
      requires key in attempts && IsStale(attempts[key], now, window)
      modifies this`order, this`attempts
      ensures InRecencyOrder(order, attempts, history) && BucketsOk(attempts, history, now, window)
      ensures attempts == old(attempts) - {key} && |order| < |old(order)|
    {
      StaleDropped(attempts, history, key, now, window);
      DroppedKeepsOrder(order, attempts, history, key);
      order := Without(order, key);
      attempts := attempts - {key};
    }

    method Reset()
      modifies this
      ensures Valid() && history == [] && order == [] && attempts == map[]
    {
      order, attempts, callsSincePrune := [], map[], 0;
      history, clock := [], 0.0;
    }
  }

  /** The buckets before a call is entered, what it crowds out being given up for lost. */
  ghost predicate BucketsOkAfter(attempts: Store, history: seq<Call>, call: Call, clock: real, window: real) {
    forall k :: Kept(Get(attempts, k), Accepted(history, k), history + [call], k, clock, window)
  }

  /** A bucket is stale exactly if it holds nothing less than the window old. */
  lemma StaleMeans(times: seq<real>, now: real, window: real)
    ensures IsStale(times, now, window) <==> forall t :: t in times ==> now - t >= window
  {
  }

  lemma BoundedPut(maxAttempts: int, order: seq<Bucket>, attempts: Store, calls: nat, key: Bucket, times: seq<real>)
    requires Bounded(maxAttempts, order, attempts, calls) && calls < PRUNE_EVERY
    requires maxAttempts <= 0 || key in order || |order| < MAX_BUCKETS
    requires maxAttempts <= 0 ==> times == []
    ensures Bounded(maxAttempts, Without(order, key) + [key], attempts[key := times], calls + 1)
  {
  }

  // ---- the ideal log ------------------------------------------------------------------

  lemma {:induction false} AcceptedOrdered(history: seq<Call>, key: Bucket, clock: real)
    requires CallsOrdered(history, clock)
    ensures Ordered(Accepted(history, key)) && forall i :: 0 <= i < |Accepted(history, key)| ==>
              Accepted(history, key)[i] <= clock
  {
    if history != [] {
      var n := |history| - 1;
      AcceptedOrdered(history[..n], key, history[n].at);
    }
  }

  lemma AcceptedAppend(history: seq<Call>, call: Call, key: Bucket)
    ensures Accepted(history + [call], key) ==
            if call.key == key && call.ok then Accepted(history, key) + [call.at] else Accepted(history, key)
  {
    assert (history + [call])[..|history|] == history;
  }

  lemma {:induction false} AcceptedByLastCheck(history: seq<Call>, key: Bucket, clock: real)
    requires CallsOrdered(history, clock)
    ensures Accepted(history, key) != [] ==> LastCheck(history, key) >= 0
    ensures forall i :: 0 <= i < |Accepted(history, key)| ==>
              Accepted(history, key)[i] <= history[LastCheck(history, key)].at
  {
    if history != [] {
      var n := |history| - 1;
      AcceptedByLastCheck(history[..n], key, history[n].at);
      AcceptedOrdered(history[..n], key, history[n].at);
    }
  }

  /** A store with nothing lost inside the window covers the log, and so does what is recent of it. */
  lemma KeptCovers(stored: seq<real>, log: seq<real>, history: seq<Call>, key: Bucket, clock: real, now: real,
                   window: real)
    requires Kept(stored, log, history, key, clock, window) && clock <= now && !CrowdedOut(history, key, now, window)
    ensures Covers(stored, log, now, window, false)
  {
    forall i | 0 <= i < |log| - |stored| ensures Out(log[i], now, window, false) {
      if LostBy(history, key, log[i]) {
        var m, j :| Gap(history, key, m, j) && log[i] <= history[m].at;
      }
    }
  }

  lemma RecentKept(stored: seq<real>, log: seq<real>, history: seq<Call>, key: Bucket, clock: real, now: real,
                   window: real)
    requires Kept(stored, log, history, key, clock, window) && clock <= now && Ordered(log)
    ensures Kept(Recent(stored, now, window, false), log, history, key, now, window)
  {
    var k := |log| - |stored|;
    assert Ordered(stored) by {
      assert forall i :: 0 <= i < |stored| ==> stored[i] == log[k + i];
    }
    RecentCovers(stored, now, window, false);
    var recent := Recent(stored, now, window, false);
    forall i | 0 <= i < |log| - |recent| ensures Out(log[i], now, window, false) || LostBy(history, key, log[i]) {
      if i >= k {
        assert stored[i - k] == log[i];
      }
    }
  }

  /** A bucket not crowded out answers for its whole history. */
  lemma BucketAnswers(attempts: Store, history: seq<Call>, key: Bucket, clock: real, now: real, window: real)
    requires CallsOrdered(history, clock) && clock <= now && BucketsOk(attempts, history, clock, window)
    ensures var recent := Recent(Get(attempts, key), now, window, false);
            && Kept(recent, Accepted(history, key), history, key, now, window)
            && (!CrowdedOut(history, key, now, window) ==> |recent| == InWindow(Accepted(history, key), now, window))
  {
    var stored, log := Get(attempts, key), Accepted(history, key);
    AcceptedOrdered(history, key, clock);
    RecentKept(stored, log, history, key, clock, now, window);
    if !CrowdedOut(history, key, now, window) {
      KeptCovers(stored, log, history, key, clock, now, window);
      CoveringStoreAnswers(stored, log, now, now, window, false);
      RecentCounts(log, now, window);
    }
  }

  lemma OneMorePaced(history: seq<Call>, call: Call, maxAttempts: int, window: real)
    requires CallsPaced(history, maxAttempts, window) && CallPaced(history, call, maxAttempts, window)
    ensures CallsPaced(history + [call], maxAttempts, window)
  {
    var all := history + [call];
    forall l | 0 <= l < |all| ensures CallPaced(all[..l], all[l], maxAttempts, window) {
      assert all[..l] == if l < |history| then history[..l] else history;
    }
  }

  /** So the window that ends with such a call holds no more calls than the cap, itself included. */
  lemma WindowCapped(history: seq<Call>, l: nat, maxAttempts: int, window: real)
    requires CallsPaced(history, maxAttempts, window) && l < |history|
    requires history[l].ok && !CrowdedOut(history[..l], history[l].key, history[l].at, window)
    ensures var calls := Accepted(history[..l + 1], history[l].key);
            |set i | 0 <= i < |calls| && history[l].at - calls[i] < window| <= maxAttempts
  {
    var before, call := history[..l], history[l];
    assert CallPaced(before, call, maxAttempts, window);
    assert history[..l + 1] == before + [call];
    AcceptedAppend(before, call, call.key);
    var log := Accepted(before, call.key);
    assert (log + [call.at])[..|log|] == log;
    RecentCounts(log, call.at, window);
    RecentCounts(log + [call.at], call.at, window);
  }

  lemma {:induction false} BucketPaced(history: seq<Call>, key: Bucket, maxAttempts: int, window: real)
    requires CallsPaced(history, maxAttempts, window) && forall i, j :: !Gap(history, key, i, j)
    ensures Paced(Accepted(history, key), maxAttempts, window, false)
  {
    if history != [] {
      var n := |history| - 1;
      var before, call := history[..n], history[n];
      assert before + [call] == history;
      forall i, j ensures !Gap(before, key, i, j) {
        if Gap(before, key, i, j) {
          GapForGood(before, call, key, i, j);
        }
      }
      forall l | 0 <= l < n ensures CallPaced(before[..l], before[l], maxAttempts, window) {
        assert before[..l] == history[..l] && CallPaced(history[..l], history[l], maxAttempts, window);
      }
      BucketPaced(before, key, maxAttempts, window);
      assert CallPaced(history[..n], history[n], maxAttempts, window);
      if call.key == key && call.ok {
        assert !CrowdedOut(before, key, call.at, window);
        RecentCounts(Accepted(before, key), call.at, window);
        PacedAppend(Accepted(before, key), call.at, maxAttempts, window, false);
        assert Accepted(history, key) == Accepted(before, key) + [call.at];
      } else {
        assert Accepted(history, key) == Accepted(before, key);
      }
    }
  }

  /** And a bucket that never saw such a gap keeps to its cap in every stretch of that many seconds. */
  lemma BucketsStayPaced(history: seq<Call>, key: Bucket, clock: real, maxAttempts: int, window: real, i: nat, j: nat)
    requires CallsPaced(history, maxAttempts, window) && CallsOrdered(history, clock)
    requires forall m, n :: !Gap(history, key, m, n)
    requires i <= j < |Accepted(history, key)| && Accepted(history, key)[j] - Accepted(history, key)[i] < window
    ensures j - i + 1 <= maxAttempts
  {
    AcceptedOrdered(history, key, clock);
    BucketPaced(history, key, maxAttempts, window);
    EveryWindowCapped(Accepted(history, key), maxAttempts, window, false, i, j);
  }

  lemma BucketsWait(attempts: Store, history: seq<Call>, call: Call, clock: real, window: real)
    requires BucketsOk(attempts, history, clock, window)
    ensures BucketsOkAfter(attempts, history, call, clock, window)
  {
    forall k ensures Kept(Get(attempts, k), Accepted(history, k), history + [call], k, clock, window) {
      KeptOn(Get(attempts, k), Accepted(history, k), history, call, k, clock, clock, window);
    }
  }

  /** What was kept stays kept while time passes and calls are entered. */
  lemma KeptOn(stored: seq<real>, log: seq<real>, history: seq<Call>, call: Call, key: Bucket, clock: real, now: real,
               window: real)
    requires Kept(stored, log, history, key, clock, window) && clock <= now
    ensures Kept(stored, log, history + [call], key, now, window)
  {
    forall i | 0 <= i < |log| - |stored|
      ensures Out(log[i], now, window, false) || LostBy(history + [call], key, log[i])
    {
      if LostBy(history, key, log[i]) {
        LostForGood(history, call, key, log[i]);
      }
    }
  }

  lemma BucketsPut(attempts: Store, history: seq<Call>, call: Call, recent: seq<real>, clock: real, window: real)
    requires call.at >= clock && BucketsOkAfter(attempts, history, call, clock, window)
    requires Kept(recent, Accepted(history, call.key), history, call.key, call.at, window)
    ensures var times := if call.ok then recent + [call.at] else recent;
            BucketsOk(attempts[call.key := times], history + [call], call.at, window)
  {
    var times := if call.ok then recent + [call.at] else recent;
    var after, all := attempts[call.key := times], history + [call];
    forall k ensures Kept(Get(after, k), Accepted(all, k), all, k, call.at, window) {
      AcceptedAppend(history, call, k);
      if k == call.key {
        KeptOn(recent, Accepted(history, k), history, call, k, call.at, call.at, window);
        KeptAppend(recent, Accepted(history, k), all, k, call.at, window);
      } else {
        assert Kept(Get(attempts, k), Accepted(history, k), all, k, clock, window);
        KeptLater(Get(attempts, k), Accepted(history, k), all, k, clock, call.at, window);
      }
    }
  }

  lemma KeptAppend(stored: seq<real>, log: seq<real>, history: seq<Call>, key: Bucket, now: real, window: real)
    requires Kept(stored, log, history, key, now, window)
    ensures Kept(stored + [now], log + [now], history, key, now, window)
  {
    var k := |log| - |stored|;
    assert forall i :: 0 <= i < k ==> (log + [now])[i] == log[i];
  }

  lemma KeptLater(stored: seq<real>, log: seq<real>, history: seq<Call>, key: Bucket, clock: real, now: real,
                  window: real)
    requires Kept(stored, log, history, key, clock, window) && clock <= now
    ensures Kept(stored, log, history, key, now, window)
  {
  }

  /** What a gap lost may be forgotten: the whole bucket, as it was last checked before the gap. */
  lemma CrowdedBucketDropped(attempts: Store, history: seq<Call>, call: Call, key: Bucket, clock: real, window: real)
    requires BucketsOkAfter(attempts, history, call, clock, window) && CallsOrdered(history, clock)
    requires Gap(history + [call], key, LastCheck(history, key), |history| + 1)
    ensures BucketsOkAfter(attempts - {key}, history, call, clock, window)
  {
    var log, all := Accepted(history, key), history + [call];
    AcceptedByLastCheck(history, key, clock);
    forall i | 0 <= i < |log| ensures LostBy(all, key, log[i]) {
      assert log[i] <= all[LastCheck(history, key)].at;
    }
    forall k ensures Kept(Get(attempts - {key}, k), Accepted(history, k), all, k, clock, window) {
      assert k != key ==> Get(attempts - {key}, k) == Get(attempts, k);
    }
  }

  /** A stale bucket can go: all it ever accepted has left the window or is lost already. */
  lemma StaleDropped(attempts: Store, history: seq<Call>, key: Bucket, now: real, window: real)
    requires BucketsOk(attempts, history, now, window) && key in attempts && IsStale(attempts[key], now, window)
    ensures BucketsOk(attempts - {key}, history, now, window)
  {
    forall k ensures Kept(Get(attempts - {key}, k), Accepted(history, k), history, k, now, window) {
      assert Kept(Get(attempts, k), Accepted(history, k), history, k, now, window);
      if k == key {
        StaleIsExpired(attempts[key], Accepted(history, key), history, key, now, window);
      }
    }
  }

  lemma StaleIsExpired(stored: seq<real>, accepted: seq<real>, history: seq<Call>, key: Bucket, now: real, window: real)
    requires IsStale(stored, now, window) && Kept(stored, accepted, history, key, now, window)
    ensures Kept([], accepted, history, key, now, window)
  {
    var k := |accepted| - |stored|;
    forall i | 0 <= i < |accepted| ensures Out(accepted[i], now, window, false) || LostBy(history, key, accepted[i]) {
      if i >= k {
        assert stored[i - k] == accepted[i];
      }
    }
  }

  // ---- recency ----------------------------------------------------------------------------

  lemma LastCheckAppend(history: seq<Call>, call: Call, key: Bucket)
    ensures LastCheck(history + [call], key) == if key == call.key then |history| else LastCheck(history, key)
  {
    assert (history + [call])[..|history|] == history;
  }

  lemma {:induction false} LastCheckMeaning(history: seq<Call>, key: Bucket)
    ensures var i := LastCheck(history, key);
            (i >= 0 ==> history[i].key == key) && forall j :: i < j < |history| ==> history[j].key != key
  {
    if history != [] && history[|history| - 1].key != key {
      LastCheckMeaning(history[..|history| - 1], key);
    }
  }

  lemma {:induction false} WithoutAscends(order: seq<Bucket>, history: seq<Call>, key: Bucket)
    requires Ascending(order, history)
    ensures Ascending(Without(order, key), history)
  {
    if order != [] {
      var n := |order| - 1;
      assert order[..n] <= order;
      WithoutAscends(order[..n], history, key);
      var r := Without(order[..n], key);
      forall i | 0 <= i < |r| ensures LastCheck(history, r[i]) < LastCheck(history, order[n]) {
        assert r[i] in r;
        var j :| 0 <= j < n && order[j] == r[i];
      }
      AscendAppend(r, history, order[n]);
    }
  }

  lemma AscendAppend(order: seq<Bucket>, history: seq<Call>, last: Bucket)
    requires Ascending(order, history) && LastCheck(history, last) >= 0
    requires forall i :: 0 <= i < |order| ==> LastCheck(history, order[i]) < LastCheck(history, last)
    ensures Ascending(order + [last], history)
  {
  }

  lemma DroppedKeepsOrder(order: seq<Bucket>, attempts: Store, history: seq<Call>, key: Bucket)
    requires InRecencyOrder(order, attempts, history)
    ensures InRecencyOrder(Without(order, key), attempts - {key}, history)
  {
    WithoutAscends(order, history, key);
  }

  lemma OldestPopped(order: seq<Bucket>, attempts: Store, history: seq<Call>)
    requires InRecencyOrder(order, attempts, history) && order != []
    ensures InRecencyOrder(order[1..], attempts - {order[0]}, history)
  {
    forall k ensures k in order[1..] <==> k in order && k != order[0] {
      if k in order && k != order[0] {
        var i :| 0 <= i < |order| && order[i] == k;
        assert order[1..][i - 1] == k;
      }
    }
  }

  lemma MovedToEnd(order: seq<Bucket>, attempts: Store, history: seq<Call>, call: Call, times: seq<real>)
    requires InRecencyOrder(order, attempts, history)
    ensures InRecencyOrder(Without(order, call.key) + [call.key], attempts[call.key := times], history + [call])
  {
    WithoutAscends(order, history, call.key);
    var r := Without(order, call.key);
    forall i | 0 <= i < |r| ensures LastCheck(history + [call], r[i]) == LastCheck(history, r[i]) < |history| {
      assert r[i] in r;
      LastCheckAppend(history, call, r[i]);
    }
    LastCheckAppend(history, call, call.key);
  }

  function KeySet(order: seq<Bucket>): set<Bucket> {
    set k | k in order
  }

  lemma {:induction false} AscendingCard(order: seq<Bucket>, history: seq<Call>)
    requires Ascending(order, history)
    ensures |KeySet(order)| == |order|
  {
    if order != [] {
      var n := |order| - 1;
      AscendingCard(order[..n], history);
      assert KeySet(order) == KeySet(order[..n]) + {order[n]};
      assert order[n] !in order[..n];
    }
  }

  lemma {:induction false} SubsetCard(a: set<Bucket>, b: set<Bucket>)
    requires a <= b
    ensures |a| <= |b|
  {
    if a != {} {
      var x :| x in a;
      SubsetCard(a - {x}, b - {x});
    }
  }

  /** When a new bucket finds the dictionary full, everything in it but the oldest was checked since the oldest was. */
  lemma OldestIsCrowdedOut(order: seq<Bucket>, attempts: Store, history: seq<Call>, call: Call)
    requires InRecencyOrder(order, attempts, history) && |order| == MAX_BUCKETS && call.key !in attempts
    ensures Gap(history + [call], order[0], LastCheck(history, order[0]), |history| + 1)
  {
    assert order[0] in order && call.key !in order;
    OldestGap(order, history, call);
  }

  lemma OldestGap(order: seq<Bucket>, history: seq<Call>, call: Call)
    requires Ascending(order, history) && |order| == MAX_BUCKETS && call.key !in order
    ensures Gap(history + [call], order[0], LastCheck(history, order[0]), |history| + 1)
  {
    assert order[0] in order;
    OthersBetween(order, history, call);
    SilentSince(history, call, order[0]);
    assert Gap(history + [call], order[0], LastCheck(history, order[0]), |history| + 1);
  }

  lemma OthersBetween(order: seq<Bucket>, history: seq<Call>, call: Call)
    requires Ascending(order, history) && order != [] && call.key !in order
    ensures var i, all := LastCheck(history, order[0]), history + [call];
            |order| <= |KeysBetween(all, i + 1, |all|)|
  {
    var i, all := LastCheck(history, order[0]), history + [call];
    var others, between := KeySet(order[1..]) + {call.key}, KeysBetween(all, i + 1, |all|);
    forall k | k in others ensures k in between {
      if k in order[1..] {
        NewerIsBetween(order, history, call, k);
      } else {
        assert all[|history|].key == k;
      }
    }
    SubsetCard(others, between);
    OthersCard(order, history, call.key);
  }

  lemma OthersCard(order: seq<Bucket>, history: seq<Call>, key: Bucket)
    requires Ascending(order, history) && order != [] && key !in order
    ensures |KeySet(order[1..]) + {key}| == |order|
  {
    assert Ascending(order[1..], history);
    AscendingCard(order[1..], history);
    assert key !in order[1..];
  }

  lemma SilentSince(history: seq<Call>, call: Call, key: Bucket)
    requires key != call.key && LastCheck(history, key) >= 0
    ensures var i, all := LastCheck(history, key), history + [call];
            all[i].key == key && forall l :: i < l < |all| ==> all[l].key != key
  {
    LastCheckMeaning(history, key);
  }

  lemma NewerIsBetween(order: seq<Bucket>, history: seq<Call>, call: Call, k: Bucket)
    requires Ascending(order, history) && order != [] && k in order[1..]
    ensures var i, all := LastCheck(history, order[0]), history + [call];
            k in KeysBetween(all, i + 1, |all|)
  {
    var j :| 0 <= j < |order[1..]| && order[1..][j] == k;
    assert order[j + 1] == k;
    var l := LastCheck(history, k);
    LastCheckMeaning(history, k);
    assert (history + [call])[l].key == k;
  }
}
