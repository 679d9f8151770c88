/** What the throttle guarantees, on any table, when every attempt settles in time and nothing is cleared. */
module ThrottleExclusion {
  import opened Wrappers
  import opened Backoff
  import opened Throttle
  import opened ThrottleMachine

  /** The least wait that an item with so many searches on its count imposes on the next attempt. */
  function Allowance(count: int): real {
    if count >= 1 then MinGap(count) else SHORTEST
  }

  /** Every attempt in its call still has time: it settles before the item's own least wait has passed. */
  ghost predicate Prompt(w: System) {
    forall a :: a in w.attempts && w.attempts[a].Calling? ==>
      w.clock < w.attempts[a].request.now + Allowance(w.attempts[a].previousCount)
  }

  ghost predicate RunsPromptly(w: System, steps: seq<Step>, w': System, backoff: SearchBackoff)
    decreases |steps|
  {
    && Prompt(w)
    && if steps == [] then w == w'
       else
         && Can(w, steps[0]) && !steps[0].Clear? && !steps[0].ClearRow?
         && RunsPromptly(Do(w, steps[0], backoff), steps[1..], w', backoff)
  }

  function LastWin(w: System, dl: Id): real {
    var wins := Wins(w, dl);
    if wins == [] then 0.0 else wins[|wins| - 1]
  }

  /** The attempt is between phases 1 and 3 on the item. */
  predicate InCall(w: System, a: nat, dl: Id) {
    a in w.attempts && w.attempts[a].Calling? && w.attempts[a].request.dl == dl
  }

  ghost predicate WinsOk(w: System, dl: Id) {
    Paced(Wins(w, dl), 0.0) && forall i :: 0 <= i < |Wins(w, dl)| ==> Wins(w, dl)[i] > 0.0
  }

  /** Clock readings taken and not yet used are not ahead of the clock. */
  ghost predicate ReadingsOk(w: System) {
    w.clock > 0.0 &&
    forall a :: a in w.attempts && (w.attempts[a].Started? || w.attempts[a].Loaded?) ==>
      0.0 < w.attempts[a].request.now <= w.clock
  }

  /** The call holds the slot, counts at least this process's successes, and left the last of them its gap. */
  ghost predicate CallOk(w: System, call: Attempt, dl: Id)
    requires call.Calling?
  {
    && 0.0 < call.request.now == Last(w.mem, dl)
    && Count(w.mem, dl) >= call.previousCount >= |Wins(w, dl)|
    && (Wins(w, dl) != [] ==>
          call.previousLast == LastWin(w, dl) && call.request.now - LastWin(w, dl) >= MinGap(|Wins(w, dl)|))
  }

  ghost predicate Excludes(w: System, dl: Id) {
    && ReadingsOk(w) && WinsOk(w, dl)
    && Count(w.mem, dl) >= |Wins(w, dl)|
    && (forall a :: InCall(w, a, dl) ==> Owns(w.mem, dl, a) && CallOk(w, w.attempts[a], dl))
    && (dl in w.mem.tokens ==> InCall(w, w.mem.tokens[dl], dl))
    && (dl !in w.mem.tokens && Wins(w, dl) != [] ==> Last(w.mem, dl) == LastWin(w, dl))
  }

  /** The item has a timestamp of this process's own. */
  predicate Stamped(w: System, dl: Id) {
    dl in w.mem.tokens || Wins(w, dl) != []
  }

  /** A row, whatever it says, moves no timestamp of this process's own and lowers no count. */
  lemma RowsMoveNothing(w: System, dl: Id, row: Saved)
    requires Excludes(w, dl)
    ensures Count(Warm(w.mem, dl, row), dl) >= Count(w.mem, dl) &&
            Count(Refreshed(w.mem, dl, row), dl) >= Count(w.mem, dl)
    ensures Warm(w.mem, dl, row).tokens == w.mem.tokens && Refreshed(w.mem, dl, row).tokens == w.mem.tokens
    ensures Stamped(w, dl) ==>
              Last(Warm(w.mem, dl, row), dl) == Last(w.mem, dl) > 0.0 &&
                  Last(Refreshed(w.mem, dl, row), dl) == Last(w.mem, dl)
  {
    assert Wins(w, dl) != [] ==> LastWin(w, dl) > 0.0;
  }

  lemma AllowanceKept(previous: int, count: int)
    requires previous <= count
    ensures Allowance(previous) <= Allowance(count)
  {
    if count >= 1 {
      MinGapMonotone(1, count);
      assert Pow2(0) == 1.0 && MinGap(1) == SHORTEST;
      if previous >= 1 {
        MinGapMonotone(previous, count);
      }
    }
  }

  /** An item in its call keeps everyone else out: the rest of its delay is longer than the call may last. */
  lemma ReserveGate(w: System, a: nat, dl: Id, backoff: SearchBackoff)
    requires Excludes(w, dl) && Prompt(w) && IsSearchBackoff(backoff)
    requires Can(w, Reserve(a)) && w.attempts[a].request.dl == dl
    ensures var Loaded(request, saved) := w.attempts[a];
            var (gate, mem) := Throttle.Reserve(w.mem, request, saved, a, backoff);
            var warm := Warm(w.mem, dl, saved);
            if gate.Open? then
              && dl !in w.mem.tokens
              && (Wins(w, dl) != [] ==> request.now - LastWin(w, dl) >= MinGap(|Wins(w, dl)|))
              && mem == warm.(last := warm.last[dl := request.now], tokens := warm.tokens[dl := a])
            else mem == w.mem || mem == warm
  {
    var warm := Warm(w.mem, dl, w.attempts[a].saved);
    RowsMoveNothing(w, dl, w.attempts[a].saved);
    if GateDelay(warm, dl, backoff).Some? {
      GateKeepsGap(warm, dl, backoff);
      if Wins(w, dl) != [] {
        MinGapMonotone(|Wins(w, dl)|, Count(warm, dl));
      }
      if dl in w.mem.tokens {
        AllowanceKept(w.attempts[w.mem.tokens[dl]].previousCount, Count(warm, dl));
      }
    }
  }

  lemma ReserveExcludes(w: System, a: nat, dl: Id, backoff: SearchBackoff)
    requires Excludes(w, dl) && Prompt(w) && IsSearchBackoff(backoff)
    requires Can(w, Reserve(a)) && w.attempts[a].request.dl == dl
    ensures Excludes(DoReserve(w, a, backoff), dl)
  {
    var w' := DoReserve(w, a, backoff);
    ReserveGate(w, a, dl, backoff);
    RowsMoveNothing(w, dl, w.attempts[a].saved);
    if a in w'.attempts {
      Reserved(w, w', a, dl);
    } else {
      Frame(w, w', dl);
    }
  }

  lemma Reserved(w: System, w': System, a: nat, dl: Id)
    requires Excludes(w, dl) && Can(w, Reserve(a)) && w.attempts[a].request.dl == dl && dl !in w.mem.tokens
    requires Wins(w, dl) != [] ==> w.attempts[a].request.now - LastWin(w, dl) >= MinGap(|Wins(w, dl)|)
    requires var Loaded(request, saved) := w.attempts[a];
             var warm := Warm(w.mem, dl, saved);
             w' == w.(mem := warm.(last := warm.last[dl := request.now], tokens := warm.tokens[dl := a]),
                      attempts := w.attempts[a := Calling(request, Count(warm, dl), Last(warm, dl))])
    ensures Excludes(w', dl)
  {
    RowsMoveNothing(w, dl, w.attempts[a].saved);
    forall b ensures InCall(w', b, dl) <==> b == a {
      assert InCall(w', b, dl) && b != a ==> InCall(w, b, dl);
    }
  }

  /** The same calls on the item. */
  ghost predicate SameCalls(w: System, w': System, dl: Id) {
    forall b :: (InCall(w', b, dl) <==> InCall(w, b, dl)) && (InCall(w, b, dl) ==> w'.attempts[b] == w.attempts[b])
  }

  /** What the item's invariant depends on. */
  lemma Frame(w: System, w': System, dl: Id)
    requires Excludes(w, dl) && ReadingsOk(w') && Wins(w', dl) == Wins(w, dl) && SameCalls(w, w', dl)
    requires Count(w'.mem, dl) >= Count(w.mem, dl) && (Stamped(w, dl) ==> Last(w'.mem, dl) == Last(w.mem, dl))
    requires (dl in w'.mem.tokens <==> dl in w.mem.tokens) &&
             (dl in w.mem.tokens ==> w'.mem.tokens[dl] == w.mem.tokens[dl])
    ensures Excludes(w', dl)
  {
  }

  lemma SettleExcludes(w: System, a: nat, triggered: bool, dl: Id)
    requires Excludes(w, dl) && Can(w, Settle(a, triggered)) && w.attempts[a].request.dl == dl
    ensures Excludes(DoSettle(w, a, triggered), dl)
  {
    var w' := DoSettle(w, a, triggered);
    assert InCall(w, a, dl);
    assert Wins(w, dl) != [] ==> LastWin(w, dl) > 0.0;
    forall b ensures InCall(w', b, dl) ==> false {
      assert InCall(w', b, dl) ==> InCall(w, b, dl) && b != a;
    }
  }

  lemma MemoryFrame(w: System, step: Step, dl: Id, backoff: SearchBackoff)
    requires Can(w, step) && (step.Reserve? || step.Settle?) && w.attempts[step.attempt].request.dl != dl
    ensures SameFor(w.mem, Do(w, step, backoff).mem, dl) && Wins(Do(w, step, backoff), dl) == Wins(w, dl)
  {
    match w.attempts[step.attempt]
    case Loaded(request, saved) => ReserveElsewhere(w.mem, request, saved, step.attempt, backoff, dl);
    case Calling(request, count, last) =>
      SettleElsewhere(w.mem, request, step.attempt, count, last, step.triggered, dl);
    case _ =>
  }

  lemma CallsKept(w: System, step: Step, dl: Id, backoff: SearchBackoff)
    requires Can(w, step) && ((step.Reserve? || step.Settle?) ==> w.attempts[step.attempt].request.dl != dl)
    ensures SameCalls(w, Do(w, step, backoff), dl)
  {
  }

  lemma ReadingsStep(w: System, step: Step, backoff: SearchBackoff)
    requires ReadingsOk(w) && Can(w, step)
    ensures ReadingsOk(Do(w, step, backoff))
  {
  }

  /** Steps on other items leave this one alone, and so do the steps that only read or write rows. */
  lemma OtherExcludes(w: System, step: Step, dl: Id, backoff: SearchBackoff)
    requires Excludes(w, dl) && Can(w, step) && !step.Clear? && !step.ClearRow?
    requires (step.Reserve? || step.Settle?) ==> w.attempts[step.attempt].request.dl != dl
    ensures Excludes(Do(w, step, backoff), dl)
  {
    ReadingsStep(w, step, backoff);
    if step.Show? && w.attempts[step.attempt].dl == dl {
      RowsMoveNothing(w, dl, w.attempts[step.attempt].row);
    } else if step.Reserve? || step.Settle? {
      MemoryFrame(w, step, dl, backoff);
    }
    CallsKept(w, step, dl, backoff);
    Frame(w, Do(w, step, backoff), dl);
  }

  lemma ExcludesStep(w: System, step: Step, dl: Id, backoff: SearchBackoff)
    requires Excludes(w, dl) && Prompt(w) && IsSearchBackoff(backoff) && Can(w, step) && !step.Clear? && !step.ClearRow?
    ensures Excludes(Do(w, step, backoff), dl)
  {
    if step.Reserve? && w.attempts[step.attempt].request.dl == dl {
      ReserveExcludes(w, step.attempt, dl, backoff);
    } else if step.Settle? && w.attempts[step.attempt].request.dl == dl {
      SettleExcludes(w, step.attempt, step.triggered, dl);
    } else {
      OtherExcludes(w, step, dl, backoff);
    }
  }

  lemma {:induction false} ExcludesRun(w: System, steps: seq<Step>, w': System, dl: Id, backoff: SearchBackoff)
    requires Excludes(w, dl) && IsSearchBackoff(backoff) && RunsPromptly(w, steps, w', backoff)
    ensures Excludes(w', dl)
    decreases |steps|
  {
    if steps != [] {
      ExcludesStep(w, steps[0], dl, backoff);
      ExcludesRun(Do(w, steps[0], backoff), steps[1..], w', dl, backoff);
    }
  }

  // ---- the promises, whatever the table held at the start --------------------------------------

  /** At most one attempt per item is in its call, however the attempts interleave. */
  lemma OneCallPerItem(w: System, steps: seq<Step>, w': System, a: nat, b: nat, dl: Id, backoff: SearchBackoff)
    requires Fresh(w) && IsSearchBackoff(backoff) && RunsPromptly(w, steps, w', backoff)
    requires InCall(w', a, dl) && InCall(w', b, dl)
    ensures a == b
  {
    ExcludesRun(w, steps, w', dl, backoff);
  }

  /** The successes are spread out as the backoff wants, though several attempts may race for each. */
  lemma TriggersPaced(w: System, steps: seq<Step>, w': System, dl: Id, backoff: SearchBackoff)
    requires Fresh(w) && IsSearchBackoff(backoff) && RunsPromptly(w, steps, w', backoff)
    ensures Paced(Wins(w', dl), 0.0)
  {
    ExcludesRun(w, steps, w', dl, backoff);
  }

  // ---- and why the bound on a call is needed ---------------------------------------------

  /** The shortest jitter there is. */
  const HASTY: SearchBackoff := ExponentialBackoff(120.0, 86_400.0, 0.1, (seed: (Id, real)) => 0.9)

  /** A process finds k searches on the row, the last of them just long enough ago. */
  function Begin(k: nat, t: real): System {
    System(COLD, if k == 0 then map[] else map["x" := Saved(t - Allowance(k), k)], map[], t, map[])
  }

  function Counted(k: nat): map<Id, int> {
    if k == 0 then map[] else map["x" := k]
  }

  /** One attempt in its call, then, the least wait later, two. */
  function One(k: nat, t: real): System {
    Begin(k, t).(mem := Memory(map["x" := t], Counted(k), map["x" := 0], map[]),
                 attempts := map[0 := Calling(Request("x", Radarr, t), k, if k == 0 then 0.0 else t - Allowance(k))])
  }

  function Two(k: nat, t: real): System {
    var later := t + Allowance(k);
    One(k, t).(mem := Memory(map["x" := later], Counted(k), map["x" := 1], map[]), clock := later,
               attempts := One(k, t).attempts[1 := Calling(Request("x", Radarr, later), k, t)])
  }

  lemma {:induction false} RunsAppend(w: System, steps: seq<Step>, w1: System, more: seq<Step>, w2: System,
                                      backoff: SearchBackoff)
    requires Runs(w, steps, w1, backoff) && Runs(w1, more, w2, backoff)
    ensures Runs(w, steps + more, w2, backoff)
    decreases |steps|
  {
    if steps == [] {
      assert steps + more == more;
    } else {
      RunsAppend(Do(w, steps[0], backoff), steps[1..], w1, more, w2, backoff);
      assert (steps + more)[1..] == steps[1..] + more;
    }
  }

  /** With that jitter the delay is the least wait. */
  lemma HastyDelay(k: nat, last: real)
    requires k <= MAX_EXPONENT + 1
    ensures Delay(HASTY, k, Some(("x", last))) == Some(Allowance(k)) && Allowance(k) >= SHORTEST
  {
    assert Exponent(k) <= MAX_EXPONENT;
    var base := BaseDelay(HASTY, k);
    BaseDelayMonotone(HASTY, 0, k);
    assert base == Least(120.0 * Pow2(Exponent(k)), 86_400.0);
    assert k == 0 ==> Pow2(Exponent(k)) == 1.0;
    assert base * 0.9 <= 86_400.0;
  }

  /** Start, load and reserve, taken together. */
  lemma CallOpens(w: System, a: nat, k: nat, w': System)
    requires k <= MAX_EXPONENT + 1 && a !in w.attempts
    requires var request, saved := Request("x", Radarr, w.clock), Throttle.Load(w.db, "x", true);
             var warm := Warm(w.mem, "x", saved);
             && !FanoutBlocks(w.mem, request) && Count(warm, "x") == k && w.clock - Last(warm, "x") >= Allowance(k)
             && w' == w.(mem := warm.(last := warm.last["x" := w.clock], tokens := warm.tokens["x" := a]),
                         attempts := w.attempts[a := Calling(request, k, Last(warm, "x"))])
    ensures Runs(w, Attempting(a), w', HASTY)
  {
    var request, saved := Request("x", Radarr, w.clock), Throttle.Load(w.db, "x", true);
    HastyDelay(k, Last(Warm(w.mem, "x", saved), "x"));
    var started := w.(attempts := w.attempts[a := Started(request)]);
    var loaded := w.(attempts := w.attempts[a := Loaded(request, saved)]);
    assert Do(w, Step.Start(a, "x", Radarr), HASTY) == started;
    assert Do(started, Step.Load(a, true), HASTY).attempts == loaded.attempts;
    assert DoReserve(loaded, a, HASTY).attempts == w'.attempts;
    assert Runs(loaded, [Step.Reserve(a)], w', HASTY);
    assert [Step.Load(a, true), Step.Reserve(a)][1..] == [Step.Reserve(a)];
    assert Runs(started, [Step.Load(a, true), Step.Reserve(a)], w', HASTY);
    assert Attempting(a)[1..] == [Step.Load(a, true), Step.Reserve(a)];
  }

  lemma FirstOpens(k: nat, t: real)
    requires k <= MAX_EXPONENT + 1 && t > Allowance(k) && t >= FANOUT
    ensures Runs(Begin(k, t), Attempting(0), One(k, t), HASTY)
  {
    HastyDelay(k, 0.0);
    var w := Begin(k, t);
    var saved := Throttle.Load(w.db, "x", true);
    assert saved == if k == 0 then Saved(0.0, 0) else Saved(t - Allowance(k), k);
    assert Warm(w.mem, "x", saved).count == Counted(k);
    assert Last(Warm(w.mem, "x", saved), "x") == if k == 0 then 0.0 else t - Allowance(k);
    assert Warm(w.mem, "x", saved).last["x" := t] == map["x" := t];
    CallOpens(w, 0, k, One(k, t));
  }

  lemma SecondOpens(k: nat, t: real, later: System)
    requires k <= MAX_EXPONENT + 1 && t > Allowance(k) && t >= FANOUT && later == One(k, t).(clock := t + Allowance(k))
    ensures Runs(later, Attempting(1), Two(k, t), HASTY)
  {
    HastyDelay(k, t);
    var saved := Throttle.Load(later.db, "x", true);
    assert Warm(later.mem, "x", saved) == later.mem;
    assert later.mem.last["x" := later.clock] == map["x" := later.clock];
    assert later.mem.tokens["x" := 1] == map["x" := 1];
    CallOpens(later, 1, k, Two(k, t));
  }

  function Attempting(a: nat): seq<Step> {
    [Step.Start(a, "x", Radarr), Step.Load(a, true), Step.Reserve(a)]
  }

  lemma BothCall(k: nat, t: real)
    requires k <= MAX_EXPONENT + 1 && t > Allowance(k) && t >= FANOUT
    ensures Runs(Begin(k, t), Attempting(0) + ([Tick(t + Allowance(k))] + Attempting(1)), Two(k, t), HASTY)
  {
    var later := One(k, t).(clock := t + Allowance(k));
    FirstOpens(k, t);
    SecondOpens(k, t, later);
    assert Do(One(k, t), Tick(t + Allowance(k)), HASTY) == later;
    assert Runs(later, [], later, HASTY) && [Tick(t + Allowance(k))][1..] == [];
    assert Runs(One(k, t), [Tick(t + Allowance(k))], later, HASTY);
    RunsAppend(One(k, t), [Tick(t + Allowance(k))], later, Attempting(1), Two(k, t), HASTY);
    RunsAppend(Begin(k, t), Attempting(0), One(k, t), [Tick(t + Allowance(k))] + Attempting(1), Two(k, t), HASTY);
  }

  const SETTLING: seq<Step> := [Step.Settle(0, true), Step.Settle(1, true)]

  lemma BothSucceed(k: nat, t: real) returns (both: System)
    ensures Runs(Two(k, t), SETTLING, both, HASTY)
    ensures Wins(both, "x") == [t, t + Allowance(k)] && Count(both.mem, "x") == k + 1 && both.clock == t + Allowance(k)
  {
    var one := Do(Two(k, t), Step.Settle(0, true), HASTY);
    both := Do(one, Step.Settle(1, true), HASTY);
    assert Wins(one, "x") == [t];
    assert Runs(one, [Step.Settle(1, true)], both, HASTY);
    assert SETTLING[1..] == [Step.Settle(1, true)];
  }

  /**
    A call that lasts the item's least wait is already too long, whatever its count and the time: a second one starts,
    both succeed, and one goes uncounted. (Beyond MAX_EXPONENT + 1 searches there is no delay to compute.)
    */
  lemma LateSettlingMiscounts(k: nat, t: real) returns (steps: seq<Step>, w': System)
    requires k <= MAX_EXPONENT + 1 && t > Allowance(k) && t >= FANOUT
    ensures Fresh(Begin(k, t)) && IsSearchBackoff(HASTY) && Runs(Begin(k, t), steps, w', HASTY)
    ensures Wins(w', "x") == [t, t + Allowance(k)] && Count(w'.mem, "x") == k + 1 && w'.clock == t + Allowance(k)
  {
    HastyDelay(k, 0.0);
    BothCall(k, t);
    w' := BothSucceed(k, t);
    var before := Attempting(0) + ([Tick(t + Allowance(k))] + Attempting(1));
    steps := before + SETTLING;
    RunsAppend(Begin(k, t), before, Two(k, t), SETTLING, w', HASTY);
  }
}
