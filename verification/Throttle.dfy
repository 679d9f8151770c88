/** The search throttle's shared state and the two critical sections that change it. Times are epoch seconds. */
module Throttle {
  import opened Wrappers
  import opened Backoff

  type Id = string

  datatype Service = Radarr | Sonarr

  /** The jitter seed encodes the item and its last trigger. */
  type SearchBackoff = ExponentialBackoff<(Id, real)>

  ghost predicate IsSearchBackoff(b: SearchBackoff) {
    Valid(b) && b.base == 120.0 && b.max == 86_400.0 && b.jitter == 0.1
  }

  /** No second search of another item on one service within this many seconds. */
  const FANOUT: real := 900.0

  /** The least delay there is. */
  const SHORTEST: real := 108.0

  /** The in-process dictionaries. */
  datatype Memory = Memory(
    last: map<Id, real>, count: map<Id, int>, tokens: map<Id, nat>, byArr: map<Service, (real, Id)>)

  const COLD: Memory := Memory(map[], map[], map[], map[])

  /** A row of `arr_search_throttle`. */
  datatype Saved = Saved(epoch: real, count: int)

  type Table = map<Id, Saved>

  datatype Request = Request(dl: Id, service: Service, now: real)

  function Last(m: Memory, dl: Id): real {
    if dl in m.last then m.last[dl] else 0.0
  }

  function Count(m: Memory, dl: Id): int {
    if dl in m.count then m.count[dl] else 0
  }

  function FanoutStamp(m: Memory, service: Service): (real, Id) {
    if service in m.byArr then m.byArr[service] else (0.0, "")
  }

  /** Zeros when there is no row or the database cannot be read. */
  function Load(db: Table, dl: Id, readable: bool): Saved {
    if readable && dl in db then db[dl] else Saved(0.0, 0)
  }

  // ---- phase 1 ----------------------------------------------------------------------

  predicate FanoutBlocks(m: Memory, request: Request) {
    var (epoch, dl) := FanoutStamp(m, request.service);
    dl != request.dl && request.now - epoch < FANOUT
  }

  /** Takes over what the row remembers and memory does not. */
  function Warm(m: Memory, dl: Id, saved: Saved): Memory {
    var last := if Last(m, dl) == 0.0 && saved.epoch > 0.0 then m.last[dl := saved.epoch] else m.last;
    var count := if saved.count > Count(m, dl) then m.count[dl := saved.count] else m.count;
    m.(last := last, count := count)
  }

  function GateDelay(m: Memory, dl: Id, backoff: SearchBackoff): Option<real> {
    Delay(backoff, Count(m, dl), Some((dl, Last(m, dl))))
  }

  datatype Gate = Skip | Raise | Open

  /** Whether the attempt may go ahead, and the state it leaves: reserved if so. */
  function Reserve(m: Memory, request: Request, saved: Saved, token: nat, backoff: SearchBackoff): (Gate, Memory) {
    if FanoutBlocks(m, request) then (Skip, m)
    else
      var warm := Warm(m, request.dl, saved);
      match GateDelay(warm, request.dl, backoff)
      case None => (Raise, warm)
      case Some(delay) =>
        if request.now - Last(warm, request.dl) < delay then (Skip, warm)
        else (Open, warm.(last := warm.last[request.dl := request.now], tokens := warm.tokens[request.dl := token]))
  }

  // ---- phase 3 -------------------------------------------------------------------------

  predicate Owns(m: Memory, dl: Id, token: nat) {
    dl in m.tokens && m.tokens[dl] == token
  }

  function Settle(m: Memory, request: Request, token: nat, previousCount: int, previousLast: real,
                  triggered: bool): Memory {
    if triggered then
      m.(count := m.count[request.dl := previousCount + 1],
         byArr := m.byArr[request.service := (request.now, request.dl)],
         tokens := if Owns(m, request.dl, token) then m.tokens - {request.dl} else m.tokens)
    else if Owns(m, request.dl, token) then
      m.(last := if previousLast > 0.0 then m.last[request.dl := previousLast] else m.last - {request.dl},
         tokens := m.tokens - {request.dl})
    else m
  }

  /** A row read on a cold cache fills in what is still missing, and never lowers a count. */
  function Refreshed(m: Memory, dl: Id, row: Saved): Memory {
    if row.epoch == 0.0 && row.count == 0 then m
    else
      m.(last := if dl !in m.last then m.last[dl := row.epoch] else m.last,
         count := if row.count > Count(m, dl) then m.count[dl := row.count] else m.count)
  }

  /** Two memories that agree on an item. */
  predicate SameFor(m: Memory, m': Memory, dl: Id) {
    && Count(m', dl) == Count(m, dl) && Last(m', dl) == Last(m, dl) && (dl in m'.last <==> dl in m.last)
    && (dl in m'.tokens <==> dl in m.tokens) && (dl in m.tokens ==> m'.tokens[dl] == m.tokens[dl])
  }

  lemma ReserveElsewhere(m: Memory, request: Request, saved: Saved, token: nat, backoff: SearchBackoff, dl: Id)
    requires request.dl != dl
    ensures SameFor(m, Reserve(m, request, saved, token, backoff).1, dl)
  {
  }

  lemma SettleElsewhere(m: Memory, request: Request, token: nat, previousCount: int, previousLast: real,
                        triggered: bool, dl: Id)
    requires request.dl != dl
    ensures SameFor(m, Settle(m, request, token, previousCount, previousLast, triggered), dl)
  {
  }

  // ---- pacing ----------------------------------------------------------------------------

  /** The least wait after k searches of an item: nine tenths of the doubling delay, which stops at a day. */
  function MinGap(k: nat): real
    requires k >= 1
  {
    Low(Least(120.0 * Pow2(k - 1), 86_400.0), 0.1)
  }

  /** Search k + 1 comes no sooner than that after search k, but for the given slack. */
  ghost predicate Paced(times: seq<real>, slack: real) {
    forall k :: 1 <= k < |times| ==> times[k] - times[k - 1] >= MinGap(k) - slack
  }

  lemma GateKeepsGap(m: Memory, dl: Id, backoff: SearchBackoff)
    requires IsSearchBackoff(backoff) && GateDelay(m, dl, backoff).Some?
    ensures GateDelay(m, dl, backoff).value >= SHORTEST
    ensures Count(m, dl) >= 1 ==> GateDelay(m, dl, backoff).value >= MinGap(Count(m, dl))
  {
    DelayBounds(backoff, Count(m, dl), Some((dl, Last(m, dl))));
    assert Low(120.0, 0.1) == 108.0;
  }

  lemma MinGapMonotone(j: nat, k: nat)
    requires 1 <= j <= k
    ensures MinGap(j) <= MinGap(k)
  {
    Pow2Monotone(j - 1, k - 1);
    CappedMonotone(120.0, 86_400.0, Pow2(j - 1), Pow2(k - 1));
    LowMonotone(Least(120.0 * Pow2(j - 1), 86_400.0), Least(120.0 * Pow2(k - 1), 86_400.0), 0.1);
  }

  lemma MinGapValue(k: nat)
    requires k >= 1
    ensures k <= 10 ==> MinGap(k) == 108.0 * Pow2(k - 1)
    ensures k >= 11 ==> MinGap(k) == 77_760.0
  {
    if k <= 10 {
      Pow2Monotone(k - 1, 9);
      PowersOfTwo();
    } else {
      Pow2Monotone(10, k - 1);
      PowersOfTwo();
    }
  }

  lemma PowersOfTwo()
    ensures Pow2(9) == 512.0 && Pow2(10) == 1024.0
  {
    assert Pow2(3) == 8.0;
    assert Pow2(6) == 8.0 * Pow2(3);
  }

  /** So the n-th search comes at least 108 * (2^(n-1) - 1) seconds after the first. */
  lemma {:induction false} SearchesSpreadOut(times: seq<real>, n: nat, slack: real)
    requires Paced(times, slack) && 1 <= n <= |times| && n <= 11
    ensures times[n - 1] - times[0] >= 108.0 * (Pow2(n - 1) - 1.0) - (n - 1) as real * slack
  {
    if n > 1 {
      SearchesSpreadOut(times, n - 1, slack);
      assert (n - 1) as real * slack == (n - 2) as real * slack + slack;
      MinGapValue(n - 1);
      assert times[n - 1] - times[n - 2] >= MinGap(n - 1) - slack;
      assert Pow2(n - 1) == 2.0 * Pow2(n - 2);
    }
  }

  /** From the eleventh on, they are 77,760 seconds apart. */
  lemma {:induction false} SearchesStayApart(times: seq<real>, n: nat, slack: real)
    requires Paced(times, slack) && 11 <= n <= |times|
    ensures times[n - 1] - times[0] >= 108.0 * 1023.0 + 77_760.0 * (n - 11) as real - (n - 1) as real * slack
  {
    if n == 11 {
      SearchesSpreadOut(times, n, slack);
      PowersOfTwo();
    } else {
      SearchesStayApart(times, n - 1, slack);
      assert (n - 1) as real * slack == (n - 2) as real * slack + slack;
      MinGapValue(n - 1);
      assert times[n - 1] - times[n - 2] >= MinGap(n - 1) - slack;
    }
  }

  /** What a service's log keeps: its successes, and what makes the process forget the last of them. */
  datatype Event = Fire(at: real, dl: Id) | Cleared | Restarted

  /** A change of item never comes within the window, unless the window was forgotten in between. */
  ghost predicate Spaced(log: seq<Event>) {
    forall k :: 1 <= k < |log| && log[k - 1].Fire? && log[k].Fire? ==>
      log[k - 1].at <= log[k].at && (log[k - 1].dl != log[k].dl ==> log[k].at - log[k - 1].at >= FANOUT)
  }

  lemma {:induction false} SpacedOrdered(log: seq<Event>, i: nat, j: nat)
    requires Spaced(log) && i <= j < |log|
    requires forall k :: i <= k <= j ==> log[k].Fire?
    ensures log[i].at <= log[j].at
    ensures log[i].dl != log[j].dl ==> log[j].at - log[i].at >= FANOUT
  {
    if i < j {
      SpacedOrdered(log, i, j - 1);
    }
  }

  /** So two items searched on a service less than FANOUT seconds apart have a clear or a restart between them. */
  lemma OneItemPerWindow(log: seq<Event>, i: nat, j: nat)
    requires Spaced(log) && i < j < |log| && log[i].Fire? && log[j].Fire?
    requires log[i].dl != log[j].dl && log[j].at - log[i].at < FANOUT
    ensures exists k :: i < k < j && (log[k].Cleared? || log[k].Restarted?)
  {
    if forall k :: i < k < j ==> log[k].Fire? {
      SpacedOrdered(log, i, j);
    }
  }
}
