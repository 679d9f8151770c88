/** The sweep that triggers searches, run by one worker at a time, with restarts. */
module SearchTrigger {
  import opened Wrappers
  import opened Backoff
  import opened Throttle

  const STALE: real := 300.0

  /** A queue entry after coercion: fields of the wrong type have become 0 or "". */
  datatype Item = Item(kind: string, dl: Id, arrId: int, addedAt: real, isUpcoming: bool)

  /** The guards that need no lock. */
  function ParseTriggerInputs(item: Item, matchedNzb: bool, keySet: bool, now: real): Option<Request> {
    if item.isUpcoming || matchedNzb || !keySet || item.arrId == 0 then None
    else if now - item.addedAt < STALE then None
    else if item.kind != "movie" && item.kind != "series" then None
    else Some(Request(item.dl, if item.kind == "movie" then Radarr else Sonarr, now))
  }

  // ---- what memory and the table know of an item ---------------------------------------------

  function Final(h: seq<real>): real {
    if h == [] then 0.0 else h[|h| - 1]
  }

  /** `stored` is what a clock reading comes back as from its text form, which keeps whole microseconds. */
  ghost predicate StoresWell(stored: real -> real, slack: real) {
    slack >= 0.0 && forall t: real :: t > 0.0 ==> stored(t) > 0.0 && t - slack <= stored(t) <= t + slack
  }

  ghost predicate MemoryKnows(m: Memory, dl: Id, h: seq<real>, stored: real -> real) {
    && Count(m, dl) == |h|
    && (dl in m.last <==> h != [])
    && (Last(m, dl) == Final(h) || (h != [] && Last(m, dl) == stored(Final(h))))
  }

  ghost predicate RowKnows(db: Table, dl: Id, h: seq<real>, stored: real -> real) {
    h != [] ==> dl in db && db[dl] == Saved(stored(Final(h)), |h|)
  }

  predicate Blank(m: Memory, dl: Id) {
    Count(m, dl) == 0 && dl !in m.last
  }

  /** A row may lag behind, but knows of nothing that did not happen. */
  predicate RowSober(db: Table, dl: Id, h: seq<real>) {
    dl in db ==> db[dl].count <= |h| && (db[dl] != Saved(0.0, 0) ==> h != [])
  }

  /** Memory knows the item's successes, or nothing and the row does; while every save succeeds, the row does anyway. */
  ghost predicate ItemOk(m: Memory, db: Table, dl: Id, h: seq<real>, stored: real -> real, slack: real, clock: real,
                         durable: bool) {
    && Paced(h, slack) && (forall i :: 0 <= i < |h| ==> 0.0 < h[i] <= clock)
    && RowSober(db, dl, h)
    && (MemoryKnows(m, dl, h, stored) || (Blank(m, dl) && RowKnows(db, dl, h, stored)))
    && (durable ==> RowKnows(db, dl, h, stored))
  }

  /** What the process should remember of a service: its last success, unless that was forgotten since. */
  function Latest(log: seq<Event>): (real, Id) {
    if log != [] && log[|log| - 1].Fire? then (log[|log| - 1].at, log[|log| - 1].dl) else (0.0, "")
  }

  ghost predicate ServiceOk(m: Memory, service: Service, log: seq<Event>, clock: real) {
    && Spaced(log)
    && FanoutStamp(m, service) == Latest(log) && Latest(log).0 <= clock
  }

  /** A readable row makes up for what memory has forgotten. */
  lemma Warmed(m: Memory, db: Table, dl: Id, h: seq<real>, stored: real -> real, slack: real, clock: real,
               durable: bool, readable: bool)
    requires StoresWell(stored, slack) && ItemOk(m, db, dl, h, stored, slack, clock, durable)
    requires readable || MemoryKnows(m, dl, h, stored)
    ensures MemoryKnows(Warm(m, dl, Load(db, dl, readable)), dl, h, stored)
  {
    assert h != [] ==> 0.0 < h[|h| - 1];
  }

  /** So an open gate means the gap was kept. */
  lemma OpenGateKeepsGap(m: Memory, dl: Id, h: seq<real>, stored: real -> real, slack: real, clock: real, now: real,
                         backoff: SearchBackoff)
    requires IsSearchBackoff(backoff) && StoresWell(stored, slack) && MemoryKnows(m, dl, h, stored)
    requires Paced(h, slack) && (forall i :: 0 <= i < |h| ==> 0.0 < h[i] <= clock)
    requires GateDelay(m, dl, backoff).Some? && now - Last(m, dl) >= GateDelay(m, dl, backoff).value
    ensures Paced(h + [now], slack)
  {
    GateKeepsGap(m, dl, backoff);
    assert h != [] ==> 0.0 < h[|h| - 1];
  }

  /** A failed attempt leaves what was known of the item, and nothing else, in memory. */
  lemma FailureForgetsNothing(m: Memory, request: Request, token: nat, h: seq<real>, stored: real -> real, slack: real)
    requires StoresWell(stored, slack) && MemoryKnows(m, request.dl, h, stored) && m.tokens == map[]
    requires forall i :: 0 <= i < |h| ==> 0.0 < h[i]
    ensures var taken := m.(last := m.last[request.dl := request.now], tokens := m.tokens[request.dl := token]);
            var left := Settle(taken, request, token, Count(m, request.dl), Last(m, request.dl), false);
            MemoryKnows(left, request.dl, h, stored) && left.tokens == map[] && left.byArr == m.byArr
  {
    assert h != [] ==> 0.0 < h[|h| - 1];
  }

  lemma SuccessRemembered(m: Memory, request: Request, token: nat, h: seq<real>, stored: real -> real)
    requires MemoryKnows(m, request.dl, h, stored) && m.tokens == map[]
    ensures var taken := m.(last := m.last[request.dl := request.now], tokens := m.tokens[request.dl := token]);
            var left := Settle(taken, request, token, Count(m, request.dl), Last(m, request.dl), true);
            && MemoryKnows(left, request.dl, h + [request.now], stored) && left.tokens == map[]
            && left.byArr == m.byArr[request.service := (request.now, request.dl)]
  {
  }

  /** The whole of an attempt that got through the gate. */
  function Attempted(m: Memory, request: Request, saved: Saved, token: nat, triggered: bool): Memory {
    var warm := Warm(m, request.dl, saved);
    Settle(warm.(last := warm.last[request.dl := request.now], tokens := warm.tokens[request.dl := token]),
           request, token, Count(warm, request.dl), Last(warm, request.dl), triggered)
  }

  lemma OtherItemOk(m: Memory, m': Memory, db: Table, db': Table, dl: Id, h: seq<real>,
                    stored: real -> real, slack: real, clock: real, clock': real, durable: bool)
    requires ItemOk(m, db, dl, h, stored, slack, clock, durable) && clock <= clock' && SameFor(m, m', dl)
    requires (dl in db' <==> dl in db) && (dl in db ==> db'[dl] == db[dl])
    ensures ItemOk(m', db', dl, h, stored, slack, clock', durable)
  {
  }

  lemma AttemptElsewhere(m: Memory, request: Request, saved: Saved, token: nat, triggered: bool, dl: Id)
    requires request.dl != dl
    ensures SameFor(m, Attempted(m, request, saved, token, triggered), dl)
  {
  }

  lemma OwnItemOk(m: Memory, db: Table, db': Table, request: Request, saved: Saved, token: nat, triggered: bool,
                  saves: bool, h: seq<real>,
                  stored: real -> real, slack: real, clock: real, clock': real, durable: bool, backoff: SearchBackoff)
    requires IsSearchBackoff(backoff) && StoresWell(stored, slack) && m.tokens == map[]
    requires ItemOk(m, db, request.dl, h, stored, slack, clock, durable)
    requires MemoryKnows(Warm(m, request.dl, saved), request.dl, h, stored)
    requires Reserve(m, request, saved, token, backoff).0.Open? && clock <= clock' && 0.0 < request.now <= clock'
    requires db' == if triggered && saves then db[request.dl := Saved(stored(request.now), |h| + 1)] else db
    ensures ItemOk(Attempted(m, request, saved, token, triggered), db', request.dl,
                   if triggered then h + [request.now] else h, stored, slack, clock', durable && (triggered ==> saves))
  {
    var warm := Warm(m, request.dl, saved);
    if triggered {
      OpenGateKeepsGap(warm, request.dl, h, stored, slack, clock, request.now, backoff);
      SuccessRemembered(warm, request, token, h, stored);
    } else {
      FailureForgetsNothing(warm, request, token, h, stored, slack);
    }
  }

  lemma SkippedItemOk(m: Memory, db: Table, request: Request, saved: Saved, token: nat, h: seq<real>,
                      stored: real -> real, slack: real, clock: real, durable: bool, backoff: SearchBackoff)
    requires ItemOk(m, db, request.dl, h, stored, slack, clock, durable)
    requires MemoryKnows(Warm(m, request.dl, saved), request.dl, h, stored)
    requires !Reserve(m, request, saved, token, backoff).0.Open?
    ensures ItemOk(Reserve(m, request, saved, token, backoff).1, db, request.dl, h, stored, slack, clock, durable)
  {
  }

  /** An attempt the cap let through may change the item only once the window is over. */
  lemma CapKeepsSpacing(m: Memory, request: Request, log: seq<Event>, clock: real)
    requires ServiceOk(m, request.service, log, clock) && !FanoutBlocks(m, request) && clock <= request.now
    ensures Spaced(log + [Fire(request.now, request.dl)])
  {
  }

  function HistoryOf(history: map<Id, seq<real>>, dl: Id): seq<real> {
    if dl in history then history[dl] else []
  }

  ghost predicate ItemsOk(m: Memory, db: Table, history: map<Id, seq<real>>, stored: real -> real, slack: real,
                          clock: real, durable: bool) {
    forall dl: Id :: ItemOk(m, db, dl, HistoryOf(history, dl), stored, slack, clock, durable)
  }

  function LogOf(log: map<Service, seq<Event>>, service: Service): seq<Event> {
    if service in log then log[service] else []
  }

  ghost predicate ServicesOk(m: Memory, log: map<Service, seq<Event>>, clock: real) {
    forall service: Service :: ServiceOk(m, service, LogOf(log, service), clock)
  }

  lemma SkippedItems(m: Memory, db: Table, request: Request, saved: Saved, token: nat, history: map<Id, seq<real>>,
                     stored: real -> real, slack: real, clock: real, durable: bool, backoff: SearchBackoff)
    requires ItemsOk(m, db, history, stored, slack, clock, durable)
    requires MemoryKnows(Warm(m, request.dl, saved), request.dl, HistoryOf(history, request.dl), stored)
    requires !Reserve(m, request, saved, token, backoff).0.Open?
    ensures ItemsOk(Reserve(m, request, saved, token, backoff).1, db, history, stored, slack, clock, durable)
  {
    var m' := Reserve(m, request, saved, token, backoff).1;
    forall dl ensures ItemOk(m', db, dl, HistoryOf(history, dl), stored, slack, clock, durable) {
      if dl == request.dl {
        SkippedItemOk(m, db, request, saved, token, HistoryOf(history, dl), stored, slack, clock, durable, backoff);
      } else {
        ReserveElsewhere(m, request, saved, token, backoff, dl);
        OtherItemOk(m, m', db, db, dl, HistoryOf(history, dl), stored, slack, clock, clock, durable);
      }
    }
  }

  lemma AttemptedItems(m: Memory, db: Table, db': Table, request: Request, saved: Saved, token: nat, triggered: bool,
                       saves: bool,
                       history: map<Id, seq<real>>, stored: real -> real, slack: real, clock: real, clock': real,
                       durable: bool, backoff: SearchBackoff)
    requires IsSearchBackoff(backoff) && StoresWell(stored, slack) && m.tokens == map[]
    requires ItemsOk(m, db, history, stored, slack, clock, durable)
    requires MemoryKnows(Warm(m, request.dl, saved), request.dl, HistoryOf(history, request.dl), stored)
    requires Reserve(m, request, saved, token, backoff).0.Open? && clock <= clock' && 0.0 < request.now <= clock'
    requires db' == if triggered && saves then db[request.dl := Saved(stored(request.now),
                                                                      |HistoryOf(history, request.dl)| + 1)] else db
    ensures ItemsOk(Attempted(m, request, saved, token, triggered), db', Recorded(history, request, triggered),
                    stored, slack, clock', durable && (triggered ==> saves))
  {
    var m' := Attempted(m, request, saved, token, triggered);
    forall dl
      ensures ItemOk(m', db', dl, HistoryOf(Recorded(history, request, triggered), dl), stored, slack, clock',
                     durable && (triggered ==> saves))
    {
      if dl == request.dl {
        OwnItemOk(m, db, db', request, saved, token, triggered, saves, HistoryOf(history, dl), stored, slack, clock,
                  clock', durable, backoff);
      } else {
        AttemptElsewhere(m, request, saved, token, triggered, dl);
        OtherItemOk(m, m', db, db', dl, HistoryOf(history, dl), stored, slack, clock, clock', durable);
      }
    }
  }

  function Recorded(history: map<Id, seq<real>>, request: Request, triggered: bool): map<Id, seq<real>> {
    if triggered then history[request.dl := HistoryOf(history, request.dl) + [request.now]] else history
  }

  function Logged(log: map<Service, seq<Event>>, request: Request, triggered: bool): map<Service, seq<Event>> {
    if triggered then log[request.service := LogOf(log, request.service) + [Fire(request.now, request.dl)]] else log
  }

  lemma SkippedServices(m: Memory, request: Request, saved: Saved, token: nat, backoff: SearchBackoff,
                        log: map<Service, seq<Event>>, clock: real)
    requires ServicesOk(m, log, clock) && !Reserve(m, request, saved, token, backoff).0.Open?
    ensures ServicesOk(Reserve(m, request, saved, token, backoff).1, log, clock)
    ensures Reserve(m, request, saved, token, backoff).1.tokens == m.tokens
  {
    var m' := Reserve(m, request, saved, token, backoff).1;
    forall s: Service ensures ServiceOk(m', s, LogOf(log, s), clock) {
      assert ServiceOk(m, s, LogOf(log, s), clock);
    }
  }

  /** What settling makes of a reservation just taken. */
  function SettledAfter(m: Memory, request: Request, saved: Saved, token: nat, triggered: bool,
                        backoff: SearchBackoff): Memory {
    var warm := Warm(m, request.dl, saved);
    Settle(Reserve(m, request, saved, token, backoff).1, request, token,
           Count(warm, request.dl), Last(warm, request.dl), triggered)
  }

  lemma OpenMeans(m: Memory, request: Request, saved: Saved, token: nat, triggered: bool, backoff: SearchBackoff)
    requires Reserve(m, request, saved, token, backoff).0.Open? && m.tokens == map[]
    ensures !FanoutBlocks(m, request) && Attempted(m, request, saved, token, triggered).tokens == map[]
    ensures Attempted(m, request, saved, token, triggered) == SettledAfter(m, request, saved, token, triggered, backoff)
  {
  }

  lemma AttemptedServices(m: Memory, request: Request, saved: Saved, token: nat, triggered: bool,
                          log: map<Service, seq<Event>>, clock: real, clock': real)
    requires ServicesOk(m, log, clock) && !FanoutBlocks(m, request) && clock <= request.now <= clock'
    ensures ServicesOk(Attempted(m, request, saved, token, triggered), Logged(log, request, triggered), clock')
  {
    var m' := Attempted(m, request, saved, token, triggered);
    CapKeepsSpacing(m, request, LogOf(log, request.service), clock);
    forall s: Service ensures ServiceOk(m', s, LogOf(Logged(log, request, triggered), s), clock') {
      assert ServiceOk(m, s, LogOf(log, s), clock);
    }
  }

  lemma Concluded(m: Memory, m': Memory, db: Table, db': Table, request: Request, saved: Saved, token: nat,
                  triggered: bool, saves: bool,
                  history: map<Id, seq<real>>, log: map<Service, seq<Event>>, intact: bool,
                  stored: real -> real, slack: real, clock: real, clock': real, durable: bool, backoff: SearchBackoff)
    requires IsSearchBackoff(backoff) && StoresWell(stored, slack) && m.tokens == map[]
    requires Reserve(m, request, saved, token, backoff).0.Open? && 0.0 < request.now == clock <= clock'
    requires m' == SettledAfter(m, request, saved, token, triggered, backoff)
    requires db' == TableAfter(m, db, request, Answers(saved, triggered, saves), stored)
    requires ServicesOk(m, log, clock)
    requires intact ==> ItemsOk(m, db, history, stored, slack, clock, durable)
    requires intact ==> MemoryKnows(Warm(m, request.dl, saved), request.dl, HistoryOf(history, request.dl), stored)
    ensures m' == Attempted(m, request, saved, token, triggered)
    ensures m'.tokens == map[] && ServicesOk(m', Logged(log, request, triggered), clock')
    ensures intact ==>
              ItemsOk(m', db', Recorded(history, request, triggered), stored, slack, clock',
                      durable && (triggered ==> saves))
  {
    OpenMeans(m, request, saved, token, triggered, backoff);
    AttemptedServices(m, request, saved, token, triggered, log, clock, clock');
    if intact {
      AttemptedItems(m, db, db', request, saved, token, triggered, saves, history, stored, slack, clock, clock',
                     durable, backoff);
    }
  }

  lemma InfoOk(m: Memory, db: Table, history: map<Id, seq<real>>, dl: Id, stored: real -> real, slack: real,
               clock: real, durable: bool)
    requires StoresWell(stored, slack) && ItemsOk(m, db, history, stored, slack, clock, durable)
    ensures var h := HistoryOf(history, dl);
            && (Count(m, dl) > 0 || Last(m, dl) > 0.0 ==> MemoryKnows(m, dl, h, stored))
            && (!(Count(m, dl) > 0 || Last(m, dl) > 0.0) ==>
                Blank(m, dl) && RowKnows(db, dl, h, stored) && RowSober(db, dl, h))
  {
    var h := HistoryOf(history, dl);
    assert ItemOk(m, db, dl, h, stored, slack, clock, durable);
    assert h != [] ==> 0.0 < h[|h| - 1];
  }

  lemma RefreshedItems(m: Memory, db: Table, history: map<Id, seq<real>>, dl: Id, readable: bool,
                       stored: real -> real, slack: real, clock: real, durable: bool)
    requires StoresWell(stored, slack) && ItemsOk(m, db, history, stored, slack, clock, durable) && Blank(m, dl)
    ensures ItemsOk(Refreshed(m, dl, Load(db, dl, readable)), db, history, stored, slack, clock, durable)
  {
    var m' := Refreshed(m, dl, Load(db, dl, readable));
    forall d ensures ItemOk(m', db, d, HistoryOf(history, d), stored, slack, clock, durable) {
      assert ItemOk(m, db, d, HistoryOf(history, d), stored, slack, clock, durable);
    }
  }

  lemma RefreshedServices(m: Memory, dl: Id, row: Saved, log: map<Service, seq<Event>>, clock: real)
    requires ServicesOk(m, log, clock)
    ensures ServicesOk(Refreshed(m, dl, row), log, clock) && Refreshed(m, dl, row).tokens == m.tokens
  {
    forall s: Service ensures ServiceOk(Refreshed(m, dl, row), s, LogOf(log, s), clock) {
      assert ServiceOk(m, s, LogOf(log, s), clock);
    }
  }

  /** `clear_throttle` on memory: with a service, that service's window opens too. */
  function Forgotten(m: Memory, dl: Id, service: Option<Service>): Memory {
    m.(last := m.last - {dl}, count := m.count - {dl},
       byArr := if service.Some? then m.byArr - {service.value} else m.byArr)
  }

  function LogCleared(log: map<Service, seq<Event>>, service: Option<Service>): map<Service, seq<Event>> {
    if service.Some? then log[service.value := LogOf(log, service.value) + [Cleared]] else log
  }

  function LogRestarted(log: map<Service, seq<Event>>): map<Service, seq<Event>> {
    map[Radarr := LogOf(log, Radarr) + [Restarted], Sonarr := LogOf(log, Sonarr) + [Restarted]]
  }

  /** What a clear forgets, and nothing else: the item, and with a service the service's window. */
  lemma ClearForgetsExactly(m: Memory, dl: Id, service: Option<Service>, d: Id, s: Service)
    ensures var c := Forgotten(m, dl, service);
            && Last(c, d) == (if d == dl then 0.0 else Last(m, d))
            && Count(c, d) == (if d == dl then 0 else Count(m, d))
            && FanoutStamp(c, s) == (if service == Some(s) then (0.0, "") else FanoutStamp(m, s))
            && c.tokens == m.tokens
  {
  }

  /** The books: a success joins its item's history and its service's log, a clear one log, a restart every log. */
  lemma BooksAreKept(history: map<Id, seq<real>>, log: map<Service, seq<Event>>, request: Request, triggered: bool,
                     service: Option<Service>, d: Id, s: Service)
    ensures HistoryOf(Recorded(history, request, triggered), d) ==
            HistoryOf(history, d) + if triggered && d == request.dl then [request.now] else []
    ensures LogOf(Logged(log, request, triggered), s) ==
            LogOf(log, s) + if triggered && s == request.service then [Fire(request.now, request.dl)] else []
    ensures LogOf(LogCleared(log, service), s) == LogOf(log, s) + if service == Some(s) then [Cleared] else []
    ensures LogOf(LogRestarted(log), s) == LogOf(log, s) + [Restarted]
  {
  }

  lemma ClearedServices(m: Memory, dl: Id, log: map<Service, seq<Event>>, service: Option<Service>, clock: real)
    requires ServicesOk(m, log, clock) && clock >= 0.0
    ensures ServicesOk(Forgotten(m, dl, service), LogCleared(log, service), clock)
  {
    forall s: Service ensures ServiceOk(Forgotten(m, dl, service), s, LogOf(LogCleared(log, service), s), clock) {
      assert ServiceOk(m, s, LogOf(log, s), clock);
    }
  }

  lemma RestartedServices(m: Memory, log: map<Service, seq<Event>>, clock: real)
    requires ServicesOk(m, log, clock) && clock >= 0.0
    ensures ServicesOk(COLD, LogRestarted(log), clock)
  {
    forall s: Service ensures ServiceOk(COLD, s, LogOf(LogRestarted(log), s), clock) {
      assert ServiceOk(m, s, LogOf(log, s), clock);
    }
  }

  lemma ClearedItems(m: Memory, m': Memory, db: Table, db': Table, history: map<Id, seq<real>>, dl: Id,
                     stored: real -> real, slack: real, clock: real, durable: bool)
    requires ItemsOk(m, db, history, stored, slack, clock, durable)
    requires m'.last == m.last - {dl} && m'.count == m.count - {dl} && db' == db - {dl}
    ensures ItemsOk(m', db', history - {dl}, stored, slack, clock, durable)
  {
    forall d ensures ItemOk(m', db', d, HistoryOf(history - {dl}, d), stored, slack, clock, durable) {
      assert ItemOk(m, db, d, HistoryOf(history, d), stored, slack, clock, durable);
    }
  }

  lemma ColdItems(m: Memory, db: Table, history: map<Id, seq<real>>, stored: real -> real, slack: real, clock: real,
                  durable: bool)
    requires ItemsOk(m, db, history, stored, slack, clock, durable)
    requires forall dl :: RowKnows(db, dl, HistoryOf(history, dl), stored)
    ensures ItemsOk(COLD, db, history, stored, slack, clock, durable)
  {
    forall d ensures ItemOk(COLD, db, d, HistoryOf(history, d), stored, slack, clock, durable) {
      assert ItemOk(m, db, d, HistoryOf(history, d), stored, slack, clock, durable);
    }
  }

  /** What the database and the network answered an attempt. */
  datatype Answers = Answers(saved: Saved, triggered: bool, saves: bool)

  /** The whole effect of an attempt on memory, from either side of the gate. */
  function MemoryAfter(m: Memory, request: Request, answers: Answers, token: nat, backoff: SearchBackoff): Memory {
    var (gate, taken) := Reserve(m, request, answers.saved, token, backoff);
    if gate.Open? then Attempted(m, request, answers.saved, token, answers.triggered) else taken
  }

  /** And on the table: a saved success, nothing else. */
  function TableAfter(m: Memory, db: Table, request: Request, answers: Answers, stored: real -> real): Table {
    if answers.triggered && answers.saves then
      db[request.dl := Saved(stored(request.now), Count(Warm(m, request.dl, answers.saved), request.dl) + 1)]
    else db
  }

  /** What the database and the network will say to an attempt, as far as it asks them. */
  datatype Weather = Weather(readable: bool, triggers: bool, raises: bool, saves: bool)

  /** What an attempt is answered: it calls only through an open gate. */
  function Answered(m: Memory, db: Table, request: Request, weather: Weather, token: nat,
                    backoff: SearchBackoff): Answers {
    var saved := Load(db, request.dl, weather.readable);
    Answers(saved, Reserve(m, request, saved, token, backoff).0.Open? && weather.triggers, weather.saves)
  }

  /**
    Whether the caller sees an exception: from a gate without a delay to compute, from the call, or, after a success,
    from the log line, which computes the next delay.
    */
  function Raised(m: Memory, request: Request, saved: Saved, weather: Weather, token: nat,
                  backoff: SearchBackoff): bool {
    match Reserve(m, request, saved, token, backoff).0
    case Skip => false
    case Raise => true
    case Open =>
      if weather.triggers then
        Delay(backoff, Count(Warm(m, request.dl, saved), request.dl) + 1, Some((request.dl, request.now))).None?
      else weather.raises
  }

  /** The second pass makes up exactly the missing series whose id no queued series with an id of its own has. */
  lemma {:induction false} SecondPassTakesExactly(missing: seq<(int, string)>, items: seq<Item>, item: Item)
    ensures item in PartialMissing(missing, Poked(items)) <==>
              exists i :: 0 <= i < |missing| &&
                item == Item("series", "sonarr:" + missing[i].1, missing[i].0, 0.0, false) &&
                forall k :: 0 <= k < |items| && items[k].kind == "series" && items[k].arrId == missing[i].0 ==>
                  items[k].arrId == 0
  {
    if missing != [] {
      var n := |missing| - 1;
      SecondPassTakesExactly(missing[..n], items, item);
      assert missing[n].0 in Poked(items) <==>
             exists k :: 0 <= k < |items| && items[k].kind == "series" && items[k].arrId == missing[n].0 &&
               items[k].arrId != 0;
      if i :| 0 <= i < n && item == Item("series", "sonarr:" + missing[i].1, missing[i].0, 0.0, false) &&
              forall k :: 0 <= k < |items| && items[k].kind == "series" && items[k].arrId == missing[i].0 ==>
                items[k].arrId == 0 {
        assert missing[..n][i] == missing[i];
      }
    }
  }

  /** An item looked at: the reading, memory and table found and left, and what happened in between. */
  datatype Visit = Visit(
    item: Item, at: real, weather: Weather, found: (Memory, Table), left: (Memory, Table), token: nat, raised: bool)

  /** What the outside world does to a sweep: at each visit in turn, and whether there is a Sonarr client. */
  datatype Plan = Plan(weather: nat -> Weather, abandons: nat -> bool, deletes: nat -> bool, client: bool)

  /** A sweep's plan and the settings it runs under. */
  datatype Sweep = Sweep(plan: Plan, keySet: bool, backoff: SearchBackoff, stored: real -> real)

  /** The visit left exactly what an attempt leaves. */
  predicate Looked(v: Visit, sweep: Sweep) {
    match ParseTriggerInputs(v.item, false, sweep.keySet, v.at)
    case None => v.left == v.found && !v.raised
    case Some(request) =>
      var answers := Answered(v.found.0, v.found.1, request, v.weather, v.token, sweep.backoff);
      && v.left.0 == MemoryAfter(v.found.0, request, answers, v.token, sweep.backoff)
      && v.left.1 == TableAfter(v.found.0, v.found.1, request, answers, sweep.stored)
      && v.raised == Raised(v.found.0, request, answers.saved, v.weather, v.token, sweep.backoff)
  }

  /** What follows a visit: what the attempt left, or that with the item abandoned. */
  function Following(v: Visit, abandons: bool, deletes: bool): (Memory, Table) {
    if abandons && !v.raised then
      (Forgotten(v.left.0, v.item.dl, Some(if v.item.kind == "movie" then Radarr else Sonarr)),
       if deletes then v.left.1 - {v.item.dl} else v.left.1)
    else v.left
  }

  /** The visits, from number `from` of the plan on, lead from one state to the other; at most the last one raised. */
  ghost predicate Leads(visits: seq<Visit>, start: (Memory, Table), end: (Memory, Table), from: nat, abandoning: bool,
                        sweep: Sweep) {
    if visits == [] then end == start
    else
      var n := |visits| - 1;
      var v := visits[n];
      && Leads(visits[..n], start, v.found, from, abandoning, sweep) && (n > 0 ==> !visits[n - 1].raised)
      && Looked(v, sweep) && v.weather == sweep.plan.weather(from + n)
      && end == Following(v, abandoning && sweep.plan.abandons(from + n), sweep.plan.deletes(from + n))
  }

  predicate LastRaised(visits: seq<Visit>) {
    visits != [] && visits[|visits| - 1].raised
  }

  function ItemsOf(visits: seq<Visit>): seq<Item> {
    seq(|visits|, i requires 0 <= i < |visits| => visits[i].item)
  }

  /** The series the first pass covered. */
  function Poked(items: seq<Item>): set<int> {
    set i | 0 <= i < |items| && items[i].kind == "series" && items[i].arrId != 0 :: items[i].arrId
  }

  /** The items the second pass makes up: every missing series the first pass did not cover. */
  function PartialMissing(missing: seq<(int, string)>, poked: set<int>): seq<Item> {
    if missing == [] then []
    else
      var (id, title) := missing[|missing| - 1];
      PartialMissing(missing[..|missing| - 1], poked) +
      if id in poked then [] else [Item("series", "sonarr:" + title, id, 0.0, false)]
  }

  lemma OneMoreMissing(missing: seq<(int, string)>, i: nat, poked: set<int>)
    requires i < |missing|
    ensures PartialMissing(missing[..i + 1], poked) == PartialMissing(missing[..i], poked) +
            if missing[i].0 in poked then [] else [Item("series", "sonarr:" + missing[i].1, missing[i].0, 0.0, false)]
  {
    assert missing[..i + 1][..i] == missing[..i];
  }

  lemma {:induction false} MissingPrefix(missing: seq<(int, string)>, i: nat, poked: set<int>)
    requires i <= |missing|
    ensures PartialMissing(missing[..i], poked) <= PartialMissing(missing, poked)
  {
    if i < |missing| {
      var n := |missing| - 1;
      MissingPrefix(missing[..n], i, poked);
      assert missing[..n][..i] == missing[..i];
    } else {
      assert missing[..i] == missing;
    }
  }

  /** One more visit on the trail, none before it having raised, leads on to what follows it. */
  lemma OneMoreVisit(trail: seq<Visit>, start: nat, v: Visit, state: (Memory, Table), end: (Memory, Table), from: nat,
                     abandoning: bool, sweep: Sweep)
    requires start <= |trail| && !LastRaised(trail[start..])
    requires Leads(trail[start..], state, v.found, from, abandoning, sweep) && Looked(v, sweep)
    requires var k := from + |trail| - start;
             && v.weather == sweep.plan.weather(k)
             && end == Following(v, abandoning && sweep.plan.abandons(k), sweep.plan.deletes(k))
    ensures var more := (trail + [v])[start..];
            && Leads(more, state, end, from, abandoning, sweep) && LastRaised(more) == v.raised
            && ItemsOf(more) == ItemsOf(trail[start..]) + [v.item]
  {
    var visits, more := trail[start..], (trail + [v])[start..];
    assert more == visits + [v] && more[..|visits|] == visits;
    assert |visits| > 0 ==> more[|visits| - 1] == visits[|visits| - 1];
  }

  lemma LaterVisits(a: seq<Visit>, b: seq<Visit>, c: seq<Visit>)
    requires a <= b <= c
    ensures ItemsOf(c[|a|..]) == ItemsOf(b[|a|..]) + ItemsOf(c[|b|..])
    ensures c[|a|..][..|b| - |a|] == b[|a|..] && c[|a|..][|b| - |a|..] == c[|b|..]
  {
    assert c[|a|..] == b[|a|..] + c[|b|..];
  }

  /** The last Sonarr search, of whatever item, is at least 900 seconds back. */
  predicate WindowOver(m: Memory, now: real) {
    now - FanoutStamp(m, Sonarr).0 >= 900.0
  }

  class SearchTrigger {
    var mem: Memory
    var db: Table
    var clock: real
    var nextToken: nat
    const backoff: SearchBackoff
    const stored: real -> real
    ghost const slack: real
    ghost var history: map<Id, seq<real>>        // each item's successes since it was last forgotten on purpose
    ghost var log: map<Service, seq<Event>>      // each service's successes, clears and restarts, in order
    ghost var trail: seq<Visit>                  // every item looked at, in order
    ghost var intact: bool                       // nothing that mattered was lost: see where it changes
    ghost var durable: bool                      // every save has succeeded

    constructor (backoff: SearchBackoff, stored: real -> real, ghost slack: real, clock: real)
      requires IsSearchBackoff(backoff) && StoresWell(stored, slack) && clock > 0.0
      ensures Valid() && intact && durable && history == map[] && log == map[] && trail == []
      ensures mem == COLD && db == map[] && this.clock == clock && this.slack == slack
    {
      this.backoff, this.stored, this.slack, this.clock := backoff, stored, slack, clock;
      mem, db, nextToken := COLD, map[], 0;
      history, log, trail, intact, durable := map[], map[], [], true, true;
    }

    /** No attempt is in flight; each service's window is kept, and, while nothing was lost, each item's pace. */
    ghost predicate Valid()
      reads this
    {
      && IsSearchBackoff(backoff) && StoresWell(stored, slack) && clock > 0.0 && mem.tokens == map[]
      && ServicesOk(mem, log, clock)
      && (intact ==> ItemsOk(mem, db, history, stored, slack, clock, durable))
    }

    /** Time passes; the clock never runs backwards here. */
    method Elapse()
      modifies this`clock
      ensures clock >= old(clock)
    {
      var reading: real := *;
      if reading > clock {
        clock := reading;
      }
    }

    method ReadClock() returns (now: real)
      requires Valid()
      modifies this`clock
      ensures Valid() && now == clock >= old(clock)
    {
      Elapse();
      now := clock;
    }

    /** Zeros when the database cannot be read. That is a loss if memory has forgotten the item too. */
    method LoadThrottle(dl: Id, readable: bool) returns (saved: Saved)
      requires Valid()
      modifies this`intact
      ensures Valid() && saved == Load(db, dl, readable)
      ensures intact == (old(intact) && (readable || MemoryKnows(mem, dl, HistoryOf(history, dl), stored)))
      ensures intact ==> MemoryKnows(Warm(mem, dl, saved), dl, HistoryOf(history, dl), stored)
    {
      saved := Load(db, dl, readable);
      intact := intact && (readable || MemoryKnows(mem, dl, HistoryOf(history, dl), stored));
      if intact {
        Warmed(mem, db, dl, HistoryOf(history, dl), stored, slack, clock, durable, readable);
      }
    }

    /** Phase 1: the fan-out cap, the warm-up, the gate, and the reservation. */
    method ReserveSlot(request: Request, saved: Saved)
      returns (gate: Gate, token: nat, previousCount: int, previousLast: real)
      modifies this`mem, this`nextToken
      ensures token == old(nextToken) && nextToken == token + 1
      ensures (gate, mem) == Reserve(old(mem), request, saved, token, backoff)
      ensures gate.Open? ==>
                var warm := Warm(old(mem), request.dl, saved);
                previousCount == Count(warm, request.dl) && previousLast == Last(warm, request.dl)
    {
      token := nextToken;
      nextToken := nextToken + 1;
      previousCount, previousLast := 0, 0.0;
      var dl := request.dl;
      var (arrEpoch, arrDl) := FanoutStamp(mem, request.service);
      if arrDl != dl && request.now - arrEpoch < FANOUT {
        return Skip, token, 0, 0.0;
      }
      ghost var warm := Warm(mem, dl, saved);
      var last, count := Last(mem, dl), Count(mem, dl);
      if last == 0.0 && saved.epoch > 0.0 {
        last := saved.epoch;
        mem := mem.(last := mem.last[dl := saved.epoch]);
      }
      if saved.count > count {
        count := saved.count;
        mem := mem.(count := mem.count[dl := saved.count]);
      }
      assert mem == warm;
      var delay := Delay(backoff, count, Some((dl, last)));
      if delay.None? {
        return Raise, token, 0, 0.0;
      }
      if request.now - last < delay.value {
        return Skip, token, 0, 0.0;
      }
      mem := mem.(last := mem.last[dl := request.now], tokens := mem.tokens[dl := token]);
      return Open, token, count, last;
    }

    /** Phase 3: keep the success or put the slot back. */
    method CommitOrRollback(request: Request, token: nat, previousCount: int, previousLast: real, triggered: bool)
      modifies this`mem
      ensures mem == Settle(old(mem), request, token, previousCount, previousLast, triggered)
    {
      var dl := request.dl;
      if triggered {
        mem := mem.(count := mem.count[dl := previousCount + 1],
                    byArr := mem.byArr[request.service := (request.now, dl)]);
        if Owns(mem, dl, token) {
          mem := mem.(tokens := mem.tokens - {dl});
        }
      } else if Owns(mem, dl, token) {
        if previousLast > 0.0 {
          mem := mem.(last := mem.last[dl := previousLast]);
        } else {
          mem := mem.(last := mem.last - {dl});
        }
        mem := mem.(tokens := mem.tokens - {dl});
      }
    }
  
    /** INSERT OR REPLACE; a failure is only logged. */
    method SaveTrigger(dl: Id, epoch: real, count: int, saves: bool)
      modifies this`db
      ensures db == if saves then old(db)[dl := Saved(stored(epoch), count)] else old(db)
    {
      if saves {
        db := db[dl := Saved(stored(epoch), count)];
      }
    }

    /**
      An attempt for one item: nothing if the guards refuse it at this clock reading, otherwise exactly the effect of
      the two critical sections under what the database and the network answer.
      */
    method MaybeTrigger(item: Item, matchedNzb: bool, keySet: bool, weather: Weather) returns (raised: bool, now: real)
      requires Valid()
      modifies this
      ensures Valid() && old(clock) <= now <= clock
      ensures trail == old(trail) + [Visit(item, now, weather, (old(mem), old(db)), (mem, db), old(nextToken), raised)]
      ensures var due := !item.isUpcoming && !matchedNzb && keySet && item.arrId != 0 && now - item.addedAt >= 300.0;
              var request := Request(item.dl, if item.kind == "movie" then Radarr else Sonarr, now);
              if !due || item.kind !in {"movie", "series"} then
                !raised && mem == old(mem) && db == old(db) && history == old(history) && log == old(log) &&
                    intact == old(intact)
              else
                var answers := Answered(old(mem), old(db), request, weather, old(nextToken), backoff);
                && mem == MemoryAfter(old(mem), request, answers, old(nextToken), backoff)
                && db == TableAfter(old(mem), old(db), request, answers, stored)
                && raised == Raised(old(mem), request, answers.saved, weather, old(nextToken), backoff)
                && history == Recorded(old(history), request, answers.triggered)
                && log == Logged(old(log), request, answers.triggered)
                && intact == (old(intact) &&
                              (weather.readable ||
                               MemoryKnows(old(mem), request.dl, HistoryOf(old(history), request.dl), stored)))
    {
      now := ReadClock();
      ghost var found, token := (mem, db), nextToken;
      raised := false;
      var inputs := ParseTriggerInputs(item, matchedNzb, keySet, now);
      if inputs.Some? {
        var saved := LoadThrottle(inputs.value.dl, weather.readable);
        raised := Attempt(inputs.value, saved, weather);
      }
      trail := trail + [Visit(item, now, weather, found, (mem, db), token, raised)];
    }

    method Attempt(request: Request, saved: Saved, weather: Weather) returns (raised: bool)
      requires Valid() && request.now == clock && saved == Load(db, request.dl, weather.readable)
      requires intact ==> MemoryKnows(Warm(mem, request.dl, saved), request.dl, HistoryOf(history, request.dl), stored)
      modifies this`mem, this`db, this`clock, this`nextToken, this`history, this`log, this`durable
      ensures Valid() && old(clock) <= clock
      ensures var answers := Answered(old(mem), old(db), request, weather, old(nextToken), backoff);
              && mem == MemoryAfter(old(mem), request, answers, old(nextToken), backoff)
              && db == TableAfter(old(mem), old(db), request, answers, stored)
              && raised == Raised(old(mem), request, saved, weather, old(nextToken), backoff)
              && history == Recorded(old(history), request, answers.triggered)
              && log == Logged(old(log), request, answers.triggered)
    {
      ghost var m := mem;
      var gate, token, previousCount, previousLast := ReserveSlot(request, saved);
      if gate.Open? {
        raised := CallAndSettle(request, saved, token, previousCount, previousLast, weather, m);
      } else {
        if intact {
          SkippedItems(m, db, request, saved, token, history, stored, slack, clock, durable, backoff);
        }
        SkippedServices(m, request, saved, token, backoff, log, clock);
        raised := gate.Raise?;
      }
    }

    /** Phases 2 and 3. The call may take any time; what it raises reaches the caller only after the slot is settled. */
    method CallAndSettle(request: Request, saved: Saved, token: nat, previousCount: int, previousLast: real,
                         weather: Weather, ghost m: Memory)
      returns (raised: bool)
      requires IsSearchBackoff(backoff) && StoresWell(stored, slack) && 0.0 < request.now == clock
      requires (Open, mem) == Reserve(m, request, saved, token, backoff) && m.tokens == map[]
      requires var warm := Warm(m, request.dl, saved);
               previousCount == Count(warm, request.dl) && previousLast == Last(warm, request.dl)
      requires ServicesOk(m, log, clock)
      requires intact ==> ItemsOk(m, db, history, stored, slack, clock, durable)
      requires intact ==> MemoryKnows(Warm(m, request.dl, saved), request.dl, HistoryOf(history, request.dl), stored)
      modifies this`mem, this`db, this`clock, this`history, this`log, this`durable
      ensures Valid() && old(clock) <= clock
      ensures mem == Attempted(m, request, saved, token, weather.triggers)
      ensures db == TableAfter(m, old(db), request, Answers(saved, weather.triggers, weather.saves), stored)
      ensures raised == Raised(m, request, saved, weather, token, backoff)
      ensures history == Recorded(old(history), request, weather.triggers)
      ensures log == Logged(old(log), request, weather.triggers)
    {
      var triggered;
      triggered, raised := CallArr(request, previousCount, weather);
      SettleAndSave(request, token, previousCount, previousLast, triggered, weather.saves);
      Conclude(m, old(db), old(clock), request, saved, token, triggered, weather.saves);
    }

    /** What the attempt that has just settled means for the books. */
    ghost method Conclude(m: Memory, before: Table, reading: real, request: Request, saved: Saved, token: nat,
                          triggered: bool, saves: bool)
      requires IsSearchBackoff(backoff) && StoresWell(stored, slack) && m.tokens == map[]
      requires Reserve(m, request, saved, token, backoff).0.Open? && 0.0 < request.now == reading <= clock
      requires mem == SettledAfter(m, request, saved, token, triggered, backoff)
      requires db == TableAfter(m, before, request, Answers(saved, triggered, saves), stored)
      requires ServicesOk(m, log, reading)
      requires intact ==> ItemsOk(m, before, history, stored, slack, reading, durable)
      requires intact ==> MemoryKnows(Warm(m, request.dl, saved), request.dl, HistoryOf(history, request.dl), stored)
      modifies this`history, this`log, this`durable
      ensures Valid() && mem == Attempted(m, request, saved, token, triggered)
      ensures history == Recorded(old(history), request, triggered) && log == Logged(old(log), request, triggered)
    {
      Concluded(m, mem, before, db, request, saved, token, triggered, saves, history, log, intact,
                stored, slack, reading, clock, durable, backoff);
      history := Recorded(history, request, triggered);
      log := Logged(log, request, triggered);
      durable := durable && (triggered ==> saves);
    }

    /** The network call: no client, a failure, caught or not, or a success whose log line may still raise. */
    method CallArr(request: Request, previousCount: int, weather: Weather) returns (triggered: bool, raised: bool)
      modifies this`clock
      ensures clock >= old(clock) && triggered == weather.triggers
      ensures raised == if triggered then Delay(backoff, previousCount + 1, Some((request.dl, request.now))).None?
                        else weather.raises
    {
      Elapse();
      triggered, raised := weather.triggers, weather.raises;
      if triggered {
        raised := Delay(backoff, previousCount + 1, Some((request.dl, request.now))).None?;
      }
    }

    method SettleAndSave(request: Request, token: nat, previousCount: int, previousLast: real, triggered: bool,
                         saves: bool)
      modifies this`mem, this`db
      ensures mem == Settle(old(mem), request, token, previousCount, previousLast, triggered)
      ensures db == if triggered && saves then old(db)[request.dl := Saved(stored(request.now), previousCount + 1)]
              else old(db)
    {
      CommitOrRollback(request, token, previousCount, previousLast, triggered);
      if triggered {
        SaveTrigger(request.dl, request.now, previousCount + 1, saves);
      }
    }

    // ---- inspection, clearing, restarting ---------------------------------------------------

    /**
      Memory first, then the row, which warms the cache. Both are exact while nothing was lost and the row can be read.
      */
    method GetSearchInfo(dl: Id, readable: bool) returns (count: int, last: real)
      requires Valid()
      modifies this`mem
      ensures Valid() && count == Count(mem, dl) && last == Last(mem, dl)
      ensures mem == if Count(old(mem), dl) > 0 || Last(old(mem), dl) > 0.0 then old(mem)
                     else Refreshed(old(mem), dl, Load(db, dl, readable))
      ensures intact && (readable || Count(old(mem), dl) > 0 || Last(old(mem), dl) > 0.0) ==>
                var h := HistoryOf(history, dl);
                count == |h| && (last == Final(h) || (h != [] && last == stored(Final(h))))
    {
      count, last := Count(mem, dl), Last(mem, dl);
      if intact {
        InfoOk(mem, db, history, dl, stored, slack, clock, durable);
      }
      if count > 0 || last > 0.0 {
        return;
      }
      var row := Load(db, dl, readable);
      if row.epoch == 0.0 && row.count == 0 {
        return;
      }
      ghost var before := mem;
      if dl !in mem.last {
        mem := mem.(last := mem.last[dl := row.epoch]);
      }
      if row.count > Count(mem, dl) {
        mem := mem.(count := mem.count[dl := row.count]);
      }
      assert mem == Refreshed(before, dl, row);
      if intact {
        RefreshedItems(before, db, history, dl, readable, stored, slack, clock, durable);
      }
      RefreshedServices(before, dl, row, log, clock);
      count, last := Count(mem, dl), Last(mem, dl);
    }

    /** Forgets the item; with a service, also opens that service's window. A row it cannot delete will come back. */
    method ClearThrottle(dl: Id, service: Option<Service>, deletes: bool)
      requires Valid()
      modifies this`mem, this`db, this`history, this`log, this`intact
      ensures Valid() && history == old(history) - {dl} && db == if deletes then old(db) - {dl} else old(db)
      ensures mem == Forgotten(old(mem), dl, service) && log == LogCleared(old(log), service)
      ensures intact == (old(intact) && (deletes || dl !in old(db)))
    {
      mem := mem.(last := mem.last - {dl}, count := mem.count - {dl});
      if service.Some? {
        mem := mem.(byArr := mem.byArr - {service.value});
      }
      intact := intact && (deletes || dl !in db);
      if deletes {
        db := db - {dl};
      }
      ClearedServices(old(mem), dl, log, service, clock);
      if intact {
        ClearedItems(old(mem), mem, old(db), db, history, dl, stored, slack, clock, durable);
      }
      history := history - {dl};
      log := LogCleared(log, service);
    }

    /** A new process remembers only the rows: nothing of the items' pace is lost if every save has succeeded. */
    method Restart()
      requires Valid()
      modifies this`mem, this`log, this`intact
      ensures Valid() && mem == COLD && log == LogRestarted(old(log))
      ensures old(intact) && durable ==> intact
    {
      mem := COLD;
      RestartedServices(old(mem), log, clock);
      log := LogRestarted(log);
      intact := intact && forall dl :: RowKnows(db, dl, HistoryOf(history, dl), stored);
      if intact {
        ColdItems(old(mem), db, history, stored, slack, clock, durable);
      }
    }

    // ---- the sweep ------------------------------------------------------------------------------

    /** A sweep's call of `MaybeTrigger`, and what the passes need to know of it. */
    method Poke(item: Item, keySet: bool, weather: Weather, ghost sweep: Sweep) returns (raised: bool, ghost v: Visit)
      requires Valid() && sweep.keySet == keySet && sweep.backoff == backoff && sweep.stored == stored
      modifies this
      ensures Valid() && old(clock) <= clock && (intact ==> old(intact))
      ensures trail == old(trail) + [v] && v.item == item && v.weather == weather && v.raised == raised
      ensures v.found == (old(mem), old(db)) && v.left == (mem, db) && old(clock) <= v.at <= clock && Looked(v, sweep)
      ensures item.kind == "series" ==> LogOf(log, Radarr) == LogOf(old(log), Radarr)
    {
      var at;
      raised, at := MaybeTrigger(item, false, keySet, weather);
      v := trail[|trail| - 1];
    }

    /**
      Both passes, for the given queue and the series Sonarr calls missing. Until an attempt raises, every queued item
      is looked at in order and cleared after if it is abandoned, which leads from the state before to one between the
      passes; and after them, exactly if there is a Sonarr client and its window is over by that state and the clock
      reading, every missing series the queue did not cover.
      */
    method TriggerPendingSearches(items: seq<Item>, missing: seq<(int, string)>, keySet: bool, plan: Plan)
      returns (raised: bool, now: real, ghost middle: (Memory, Table))
      requires Valid()
      modifies this
      ensures Valid() && old(clock) <= clock && (intact ==> old(intact)) && old(trail) <= trail
      ensures var visits, sweep := trail[|old(trail)|..], Sweep(plan, keySet, backoff, stored);
              && raised == LastRaised(visits)
              && if |visits| < |items| || (raised && |visits| == |items|) then
                   raised && ItemsOf(visits) == items[..|visits|] &&
                   Leads(visits, (old(mem), old(db)), (mem, db), 0, true, sweep)
                 else
                   var first, second := visits[..|items|], visits[|items|..];
                   var rest :=
                     if plan.client && WindowOver(middle.0, now) then PartialMissing(missing, Poked(items)) else [];
                   && old(clock) <= now <= clock
                   && ItemsOf(first) == items && Leads(first, (old(mem), old(db)), middle, 0, true, sweep)
                   && Leads(second, middle, (mem, db), |items|, false, sweep)
                   && ItemsOf(second) <= rest && (!raised ==> ItemsOf(second) == rest)
    {
      ghost var sweep := Sweep(plan, keySet, backoff, stored);
      now := clock;
      raised := FirstPass(items, keySet, plan, sweep);
      middle := (mem, db);
      if raised {
        return;
      }
      ghost var before := trail;
      raised, now := TriggerSonarrPartialMissing(items, missing, keySet, plan, sweep);
      LaterVisits(old(trail), before, trail);
    }

    method FirstPass(items: seq<Item>, keySet: bool, plan: Plan, ghost sweep: Sweep) returns (raised: bool)
      requires Valid() && sweep == Sweep(plan, keySet, backoff, stored)
      modifies this
      ensures Valid() && old(clock) <= clock && (intact ==> old(intact)) && old(trail) <= trail
      ensures var visits := trail[|old(trail)|..];
              && raised == LastRaised(visits) && |visits| <= |items| && ItemsOf(visits) == items[..|visits|]
              && Leads(visits, (old(mem), old(db)), (mem, db), 0, true, sweep) && (!raised ==> |visits| == |items|)
    {
      raised := false;
      for i := 0 to |items|
        invariant Valid() && old(clock) <= clock && (intact ==> old(intact)) && !raised
        invariant old(trail) <= trail && |trail| == |old(trail)| + i && !LastRaised(trail[|old(trail)|..])
        invariant ItemsOf(trail[|old(trail)|..]) == items[..i]
        invariant Leads(trail[|old(trail)|..], (old(mem), old(db)), (mem, db), 0, true, sweep)
      {
        raised := LookAt(items[i], keySet, plan.weather(i), plan.abandons(i), plan.deletes(i), true, 0, sweep,
                         old(trail), (old(mem), old(db)));
        assert items[..i + 1] == items[..i] + [items[i]];
        if raised {
          return;
        }
      }
    }

    /**
      One visit of a pass, and the clearing of its item if it is abandoned after; `start` and `state` are the trail and
      the state at the pass's beginning, `from` the number of its first visit in the plan.
      */
    method LookAt(item: Item, keySet: bool, weather: Weather, abandons: bool, deletes: bool, ghost abandoning: bool,
                  ghost from: nat, ghost sweep: Sweep, ghost start: seq<Visit>, ghost state: (Memory, Table))
      returns (raised: bool)
      requires Valid() && sweep.keySet == keySet && sweep.backoff == backoff && sweep.stored == stored
      requires start <= trail && !LastRaised(trail[|start|..])
      requires Leads(trail[|start|..], state, (mem, db), from, abandoning, sweep)
      requires var k := from + |trail| - |start|;
               && weather == sweep.plan.weather(k) && deletes == sweep.plan.deletes(k)
               && abandons == (abandoning && sweep.plan.abandons(k))
      modifies this
      ensures Valid() && old(clock) <= clock && (intact ==> old(intact))
      ensures old(trail) <= trail && |trail| == |old(trail)| + 1 && raised == LastRaised(trail[|start|..])
      ensures ItemsOf(trail[|start|..]) == ItemsOf(old(trail)[|start|..]) + [item]
      ensures Leads(trail[|start|..], state, (mem, db), from, abandoning, sweep)
      ensures item.kind == "series" ==> LogOf(log, Radarr) == LogOf(old(log), Radarr)
    {
      ghost var v;
      raised, v := Poke(item, keySet, weather, sweep);
      if !raised && abandons {
        ClearThrottle(item.dl, Some(if item.kind == "movie" then Radarr else Sonarr), deletes);
      }
      OneMoreVisit(old(trail), |start|, v, state, (mem, db), from, abandoning, sweep);
    }

    /**
      The second pass: with no Sonarr client, or while Sonarr's window runs at its clock reading, nothing at all;
      otherwise every missing series not already looked at, in order, until one raises. Never a Radarr search.
      */
    method TriggerSonarrPartialMissing(items: seq<Item>, missing: seq<(int, string)>, keySet: bool, plan: Plan,
                                       ghost sweep: Sweep)
      returns (raised: bool, now: real)
      requires Valid() && sweep == Sweep(plan, keySet, backoff, stored)
      modifies this
      ensures Valid() && old(clock) <= now <= clock && (intact ==> old(intact)) && old(trail) <= trail
      ensures LogOf(log, Radarr) == LogOf(old(log), Radarr)
      ensures var visits := trail[|old(trail)|..];
              && raised == LastRaised(visits)
              && Leads(visits, (old(mem), old(db)), (mem, db), |items|, false, sweep)
              && if plan.client && WindowOver(old(mem), now) then
                   var rest := PartialMissing(missing, Poked(items));
                   ItemsOf(visits) <= rest && (!raised ==> ItemsOf(visits) == rest)
                 else trail == old(trail) && mem == old(mem) && db == old(db) && log == old(log)
    {
      raised, now := false, clock;
      if !plan.client {
        return;
      }
      var alreadyPoked := Poked(items);
      now := ReadClock();
      if now - FanoutStamp(mem, Sonarr).0 < FANOUT {
        return;
      }
      raised := SweepMissing(missing, alreadyPoked, |items|, keySet, plan, sweep);
    }

    method SweepMissing(missing: seq<(int, string)>, alreadyPoked: set<int>, from: nat, keySet: bool, plan: Plan,
                        ghost sweep: Sweep)
      returns (raised: bool)
      requires Valid() && sweep == Sweep(plan, keySet, backoff, stored)
      modifies this
      ensures Valid() && old(clock) <= clock && (intact ==> old(intact)) && old(trail) <= trail
      ensures LogOf(log, Radarr) == LogOf(old(log), Radarr)
      ensures var visits, rest := trail[|old(trail)|..], PartialMissing(missing, alreadyPoked);
              && raised == LastRaised(visits) && Leads(visits, (old(mem), old(db)), (mem, db), from, false, sweep)
              && ItemsOf(visits) <= rest && (!raised ==> ItemsOf(visits) == rest)
    {
      raised := false;
      var looked := 0;
      for i := 0 to |missing|
        invariant Valid() && old(clock) <= clock && (intact ==> old(intact)) && old(trail) <= trail && !raised
        invariant LogOf(log, Radarr) == LogOf(old(log), Radarr)
        invariant |trail| == |old(trail)| + looked && !LastRaised(trail[|old(trail)|..])
        invariant ItemsOf(trail[|old(trail)|..]) == PartialMissing(missing[..i], alreadyPoked)
        invariant Leads(trail[|old(trail)|..], (old(mem), old(db)), (mem, db), from, false, sweep)
      {
        OneMoreMissing(missing, i, alreadyPoked);
        if missing[i].0 !in alreadyPoked {
          raised := LookAt(Item("series", "sonarr:" + missing[i].1, missing[i].0, 0.0, false), keySet,
                           plan.weather(from + looked), false, plan.deletes(from + looked), false, from, sweep,
                           old(trail), (old(mem), old(db)));
          looked := looked + 1;
          if raised {
            MissingPrefix(missing, i + 1, alreadyPoked);
            return;
          }
        }
      }
      assert missing[..|missing|] == missing;
    }

    // ---- the promises, in every state the methods can reach ---------------------------------------

    /**
      Over everything that ever happened, whichever pass it came from: two items searched on a service within the
      window have a clear of that service or a restart between them.
      */
    lemma WindowKept(service: Service, i: nat, j: nat)
      requires Valid() && i < j < |LogOf(log, service)|
      requires var events := LogOf(log, service);
               events[i].Fire? && events[j].Fire? && events[i].dl != events[j].dl &&
                   events[j].at - events[i].at < 900.0
      ensures var events := LogOf(log, service); exists k :: i < k < j && (events[k].Cleared? || events[k].Restarted?)
    {
      assert ServiceOk(mem, service, LogOf(log, service), clock);
      OneItemPerWindow(LogOf(log, service), i, j);
    }

    /** While nothing was lost, across restarts, the n-th success comes this long after the first. */
    lemma PaceKept(dl: Id, n: nat)
      requires Valid() && intact && 1 <= n <= |HistoryOf(history, dl)| && n <= 11
      ensures var h := HistoryOf(history, dl);
              h[n - 1] - h[0] >= 108.0 * (Pow2(n - 1) - 1.0) - (n - 1) as real * slack
    {
      assert ItemOk(mem, db, dl, HistoryOf(history, dl), stored, slack, clock, durable);
      SearchesSpreadOut(HistoryOf(history, dl), n, slack);
    }
  }

  // ---- two surprises in the window -------------------------------------------------------------

  /** The item's own backoff, memory completed from the row, lets it be searched. */
  predicate Due(m: Memory, request: Request, saved: Saved, backoff: SearchBackoff) {
    var warm := Warm(m, request.dl, saved);
    var delay := GateDelay(warm, request.dl, backoff);
    delay.Some? && request.now - Last(warm, request.dl) >= delay.value
  }

  /** While the second pass's early exit holds it back, an attempt would go ahead exactly for the item searched last. */
  lemma PrefilterHoldsBack(m: Memory, dl: Id, now: real, saved: Saved, token: nat, backoff: SearchBackoff)
    requires !WindowOver(m, now)
    ensures Reserve(m, Request(dl, Sonarr, now), saved, token, backoff).0.Open? <==>
              dl == FanoutStamp(m, Sonarr).1 && Due(m, Request(dl, Sonarr, now), saved, backoff)
  {
  }

  /** And it comes to that: a series searched once is due again long before the window is over. */
  lemma PrefilterHoldsBackADueSeries(dl: Id, at: real, now: real, answers: Answers, saved: Saved,
                                     backoff: SearchBackoff)
    requires IsSearchBackoff(backoff) && 900.0 <= at && at + 132.0 <= now < at + 900.0
    requires answers.saved == Saved(0.0, 0) && answers.triggered && saved in {Saved(0.0, 0), Saved(at, 1)}
    ensures var m := MemoryAfter(COLD, Request(dl, Sonarr, at), answers, 0, backoff);
            && Reserve(COLD, Request(dl, Sonarr, at), answers.saved, 0, backoff).0.Open?
            && !WindowOver(m, now) && Reserve(m, Request(dl, Sonarr, now), saved, 1, backoff).0.Open?
  {
  }

  /** Clearing any item with its service leaves every other item of that service to its own backoff alone. */
  lemma ClearReopensWindow(m: Memory, x: Id, y: Request, saved: Saved, token: nat, backoff: SearchBackoff)
    requires y.dl != x && y.now >= 900.0
    ensures var c := Forgotten(m, x, Some(y.service));
            !FanoutBlocks(c, y) && (Reserve(c, y, saved, token, backoff).0.Open? <==> Due(m, y, saved, backoff))
    ensures var (at, last) := FanoutStamp(m, y.service);
            Reserve(m, y, saved, token, backoff).0.Open? <==>
              (last == y.dl || y.now - at >= 900.0) && Due(m, y, saved, backoff)
  {
  }

  /** So a second item can follow the first at once: both are searched within the window of the first. */
  lemma TwoItemsInOneWindow(x: Request, y: Request, first: Answers, second: Answers, backoff: SearchBackoff)
    requires IsSearchBackoff(backoff) && x.service == y.service && x.dl != y.dl &&
             900.0 <= x.now <= y.now < x.now + 900.0
    requires first.saved == second.saved == Saved(0.0, 0) && first.triggered && second.triggered
    ensures var m := MemoryAfter(COLD, x, first, 0, backoff);
            var c := Forgotten(m, x.dl, Some(x.service));
            var m' := MemoryAfter(c, y, second, 1, backoff);
            && Reserve(COLD, x, first.saved, 0, backoff).0.Open? && FanoutStamp(m, x.service) == (x.now, x.dl)
            && !Reserve(m, y, second.saved, 1, backoff).0.Open?
            && Reserve(c, y, second.saved, 1, backoff).0.Open? && FanoutStamp(m', x.service) == (y.now, y.dl)
  {
    DelayBounds(backoff, 0, Some((x.dl, 0.0)));
    DelayBounds(backoff, 0, Some((y.dl, 0.0)));
  }
}
