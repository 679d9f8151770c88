/** Search attempts interleaved on the shared throttle state, one atomic section a step. */
module ThrottleMachine {
  import opened Wrappers
  import opened Backoff
  import opened Throttle

  /** Where an attempt (or an inspection) is between two of its atomic sections. */
  datatype Attempt =
    | Started(request: Request)
    | Loaded(request: Request, saved: Saved)
    | Calling(request: Request, previousCount: int, previousLast: real)
    | Saving(dl: Id, row: Saved)
    | Peeked(dl: Id, row: Saved)

  /** `wins` records each item's successful triggers: bookkeeping of the model. Attempt names double as tokens. */
  datatype System = System(mem: Memory, db: Table, attempts: map<nat, Attempt>, clock: real, wins: map<Id, seq<real>>)

  datatype Step =
    | Tick(to: real)
    | Start(attempt: nat, dl: Id, service: Service)                  // the guards passed at this clock reading
    | Load(attempt: nat, readable: bool)
    | Reserve(attempt: nat)
    | Settle(attempt: nat, triggered: bool)
    | Save(attempt: nat, saves: bool)
    | Peek(attempt: nat, dl: Id, readable: bool)                     // get_search_info on a cold cache
    | Show(attempt: nat)                                             // and its second critical section
    | Clear(dl: Id, also: Option<Service>)
    | ClearRow(dl: Id)

  function Wins(w: System, dl: Id): seq<real> {
    if dl in w.wins then w.wins[dl] else []
  }

  predicate Can(w: System, step: Step) {
    match step
    case Tick(to) => w.clock <= to
    case Start(a, _, _) => a !in w.attempts
    case Load(a, _) => a in w.attempts && w.attempts[a].Started?
    case Reserve(a) => a in w.attempts && w.attempts[a].Loaded?
    case Settle(a, _) => a in w.attempts && w.attempts[a].Calling?
    case Save(a, _) => a in w.attempts && w.attempts[a].Saving?
    case Peek(a, dl, _) => a !in w.attempts && !(Count(w.mem, dl) > 0 || Last(w.mem, dl) > 0.0)
    case Show(a) => a in w.attempts && w.attempts[a].Peeked?
    case Clear(_, _) => true
    case ClearRow(_) => true
  }

  function Do(w: System, step: Step, backoff: SearchBackoff): System
    requires Can(w, step)
  {
    match step
    case Tick(to) => w.(clock := to)
    case Start(a, dl, service) => w.(attempts := w.attempts[a := Started(Request(dl, service, w.clock))])
    case Load(a, readable) =>
      var request := w.attempts[a].request;
      w.(attempts := w.attempts[a := Loaded(request, Throttle.Load(w.db, request.dl, readable))])
    case Reserve(a) => DoReserve(w, a, backoff)
    case Settle(a, triggered) => DoSettle(w, a, triggered)
    case Save(a, saves) =>
      w.(attempts := w.attempts - {a}, db := if saves then w.db[w.attempts[a].dl := w.attempts[a].row] else w.db)
    case Peek(a, dl, readable) => w.(attempts := w.attempts[a := Peeked(dl, Throttle.Load(w.db, dl, readable))])
    case Show(a) => w.(attempts := w.attempts - {a}, mem := Refreshed(w.mem, w.attempts[a].dl, w.attempts[a].row))
    case Clear(dl, also) =>
      w.(mem := w.mem.(last := w.mem.last - {dl}, count := w.mem.count - {dl},
                       byArr := if also.Some? then w.mem.byArr - {also.value} else w.mem.byArr))
    case ClearRow(dl) => w.(db := w.db - {dl})
  }

  function DoReserve(w: System, a: nat, backoff: SearchBackoff): System
    requires Can(w, Reserve(a))
  {
    var Loaded(request, saved) := w.attempts[a];
    var (gate, mem) := Throttle.Reserve(w.mem, request, saved, a, backoff);
    if gate.Open? then
      var found := Warm(w.mem, request.dl, saved);
      w.(mem := mem, attempts := w.attempts[a := Calling(request, Count(found, request.dl), Last(found, request.dl))])
    else w.(mem := mem, attempts := w.attempts - {a})
  }

  function DoSettle(w: System, a: nat, triggered: bool): System
    requires Can(w, Settle(a, triggered))
  {
    var Calling(request, previousCount, previousLast) := w.attempts[a];
    var mem := Throttle.Settle(w.mem, request, a, previousCount, previousLast, triggered);
    if triggered then
      w.(mem := mem, attempts := w.attempts[a := Saving(request.dl, Saved(request.now, previousCount + 1))],
         wins := w.wins[request.dl := Wins(w, request.dl) + [request.now]])
    else w.(mem := mem, attempts := w.attempts - {a})
  }

  ghost predicate Runs(w: System, steps: seq<Step>, w': System, backoff: SearchBackoff)
    decreases |steps|
  {
    if steps == [] then w == w'
    else Can(w, steps[0]) && Runs(Do(w, steps[0], backoff), steps[1..], w', backoff)
  }

  /** A process that has just started, on whatever table earlier ones left behind. */
  ghost predicate Fresh(w: System) {
    w.mem == COLD && w.attempts == map[] && w.clock > 0.0 && w.wins == map[]
  }

  // ---- every token has its attempt: in every interleaving, clears included -------------------

  ghost predicate TokensOwned(w: System) {
    forall dl :: dl in w.mem.tokens ==>
      var a := w.mem.tokens[dl];
      a in w.attempts && w.attempts[a].Calling? && w.attempts[a].request.dl == dl
  }

  /** Clocks and stored times are never negative. */
  ghost predicate NonNegative(w: System) {
    && w.clock >= 0.0
    && (forall dl :: dl in w.mem.last ==> w.mem.last[dl] >= 0.0)
    && (forall dl :: dl in w.db ==> w.db[dl].epoch >= 0.0)
    && (forall a :: a in w.attempts ==>
         match w.attempts[a]
         case Started(request) => request.now >= 0.0
         case Loaded(request, saved) => request.now >= 0.0 && saved.epoch >= 0.0
         case Calling(request, _, previousLast) => request.now >= 0.0 && previousLast >= 0.0
         case Saving(_, row) => row.epoch >= 0.0
         case Peeked(_, row) => row.epoch >= 0.0)
  }

  lemma NonNegativeStep(w: System, step: Step, backoff: SearchBackoff)
    requires NonNegative(w) && Can(w, step)
    ensures NonNegative(Do(w, step, backoff))
  {
    match step
    case Reserve(a) => ReserveNonNegative(w, a, backoff);
    case Settle(a, triggered) => SettleNonNegative(w, a, triggered);
    case _ =>
  }

  lemma ReserveNonNegative(w: System, a: nat, backoff: SearchBackoff)
    requires NonNegative(w) && Can(w, Reserve(a))
    ensures NonNegative(DoReserve(w, a, backoff))
  {
  }

  lemma SettleNonNegative(w: System, a: nat, triggered: bool)
    requires NonNegative(w) && Can(w, Settle(a, triggered))
    ensures NonNegative(DoSettle(w, a, triggered))
  {
  }

  lemma TokensStep(w: System, step: Step, backoff: SearchBackoff)
    requires TokensOwned(w) && Can(w, step)
    ensures TokensOwned(Do(w, step, backoff))
  {
    match step
    case Reserve(a) => ReserveTokens(w, a, backoff);
    case Settle(a, triggered) => SettleTokens(w, a, triggered);
    case _ =>
  }

  lemma ReserveTokens(w: System, a: nat, backoff: SearchBackoff)
    requires TokensOwned(w) && Can(w, Reserve(a))
    ensures TokensOwned(DoReserve(w, a, backoff))
  {
  }

  lemma SettleTokens(w: System, a: nat, triggered: bool)
    requires TokensOwned(w) && Can(w, Settle(a, triggered))
    ensures TokensOwned(DoSettle(w, a, triggered))
  {
  }

  /** Each reservation token belongs to an attempt between phases 1 and 3; with nothing in flight there is none. */
  lemma {:induction false} TokensRun(w: System, steps: seq<Step>, w': System, backoff: SearchBackoff)
    requires TokensOwned(w) && NonNegative(w) && Runs(w, steps, w', backoff)
    ensures TokensOwned(w') && NonNegative(w')
    ensures w'.attempts == map[] ==> w'.mem.tokens == map[]
    decreases |steps|
  {
    if steps != [] {
      TokensStep(w, steps[0], backoff);
      NonNegativeStep(w, steps[0], backoff);
      TokensRun(Do(w, steps[0], backoff), steps[1..], w', backoff);
    } else if w'.attempts == map[] {
      assert forall dl :: dl !in w'.mem.tokens;
    }
  }

  /** Nothing but its own settling moves an attempt on from its call. */
  lemma {:induction false} CallingStays(w: System, steps: seq<Step>, w': System, a: nat, backoff: SearchBackoff)
    requires Runs(w, steps, w', backoff) && a in w.attempts && w.attempts[a].Calling?
    requires forall i :: 0 <= i < |steps| ==> !(steps[i].Settle? && steps[i].attempt == a)
    ensures a in w'.attempts && w'.attempts[a] == w.attempts[a]
    decreases |steps|
  {
    if steps != [] {
      CallingStays(Do(w, steps[0], backoff), steps[1..], w', a, backoff);
    }
  }

  /**
    Whatever runs between its reservation and its failure, an attempt either puts back exactly the timestamp it found,
    or, if a sibling has taken the slot over, changes nothing at all.
    */
  lemma FailureRestores(w: System, a: nat, between: seq<Step>, w1: System, backoff: SearchBackoff)
    requires TokensOwned(w) && NonNegative(w) && Can(w, Reserve(a)) && a in DoReserve(w, a, backoff).attempts
    requires Runs(DoReserve(w, a, backoff), between, w1, backoff)
    requires forall i :: 0 <= i < |between| ==> !(between[i].Settle? && between[i].attempt == a)
    ensures Can(w1, Settle(a, false))
    ensures var dl, w2 := w.attempts[a].request.dl, DoSettle(w1, a, false);
            var found := Warm(w.mem, dl, w.attempts[a].saved);
            if Owns(w1.mem, dl, a) then
              && Last(w2.mem, dl) == Last(found, dl) && dl !in w2.mem.tokens
              && (forall other :: other != dl ==> Last(w2.mem, other) == Last(w1.mem, other))
              && w2.mem.count == w1.mem.count && w2.mem.byArr == w1.mem.byArr
            else w2.mem == w1.mem
  {
    CallingStays(DoReserve(w, a, backoff), between, w1, a, backoff);
  }
}
