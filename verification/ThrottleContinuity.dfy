/** A process that starts on saved rows goes on where the last one stopped: count, last success and pace continue. */
module ThrottleContinuity {
  import opened Wrappers
  import opened Backoff
  import opened Throttle
  import opened ThrottleMachine
  import opened ThrottleExclusion

  /** A row as earlier processes leave it: blank, or a count and the time of its last success. */
  predicate Honest(base: Saved) {
    base == Saved(0.0, 0) || (base.epoch > 0.0 && base.count >= 1)
  }

  ghost predicate Readable(steps: seq<Step>) {
    forall i :: 0 <= i < |steps| ==> ReadsRow(steps[i])
  }

  /** The step does not fail to read the table. */
  predicate ReadsRow(step: Step) {
    (step.Load? || step.Peek?) ==> step.readable
  }

  /** The table's row of the item. */
  function Row(w: System, dl: Id): Saved {
    Throttle.Load(w.db, dl, true)
  }

  /** The searches of the item so far: those on the row this process found, and its own. */
  function Total(w: System, dl: Id, base: Saved): int {
    base.count + |Wins(w, dl)|
  }

  /** The time of the last of them. */
  function Prior(w: System, dl: Id, base: Saved): real {
    if Wins(w, dl) == [] then base.epoch else LastWin(w, dl)
  }

  /** The wait before success k of this process; before the first, since the success on the row. */
  function Wait(base: Saved, wins: seq<real>, k: nat): real
    requires k < |wins|
  {
    wins[k] - if k == 0 then base.epoch else wins[k - 1]
  }

  /** Every wait is at least the gap that all the successes before it ask for. */
  ghost predicate PacedAfter(base: Saved, wins: seq<real>) {
    forall k :: 0 <= k < |wins| && base.count + k >= 1 ==> Wait(base, wins, k) >= MinGap(base.count + k)
  }

  /** A row read or written since the start: never ahead, and the one found at the start until there is a success. */
  predicate RowFits(row: Saved, w: System, dl: Id, base: Saved) {
    Honest(row) && row.count <= Total(w, dl, base) && (Wins(w, dl) == [] ==> row == base)
  }

  predicate HandFits(a: Attempt, w: System, dl: Id, base: Saved) {
    match a
    case Loaded(request, saved) => request.dl == dl ==> RowFits(saved, w, dl, base)
    case Saving(id, row) => id == dl ==> RowFits(row, w, dl, base) && Wins(w, dl) != []
    case Peeked(id, row) => id == dl ==> RowFits(row, w, dl, base)
    case _ => true
  }

  ghost predicate RowsFit(w: System, dl: Id, base: Saved) {
    RowFits(Row(w, dl), w, dl, base) && forall a :: a in w.attempts ==> HandFits(w.attempts[a], w, dl, base)
  }

  ghost predicate CallFits(w: System, call: Attempt, dl: Id, base: Saved)
    requires call.Calling?
  {
    && call.previousCount == Total(w, dl, base) && call.previousLast == Prior(w, dl, base)
    && (Total(w, dl, base) >= 1 ==> call.request.now - Prior(w, dl, base) >= MinGap(Total(w, dl, base)))
  }

  predicate Cold(m: Memory, dl: Id) {
    Count(m, dl) == 0 && dl !in m.last
  }

  /** Memory has the total; only what was found on the row may still be missing from it. */
  ghost predicate MemoryFits(w: System, dl: Id, base: Saved) {
    if dl in w.mem.tokens then Count(w.mem, dl) == Total(w, dl, base)
    else
      || (Count(w.mem, dl) == Total(w, dl, base) && Last(w.mem, dl) == Prior(w, dl, base))
      || (Wins(w, dl) == [] && Cold(w.mem, dl))
  }

  ghost predicate Continues(w: System, dl: Id, base: Saved) {
    && Honest(base) && Excludes(w, dl) && RowsFit(w, dl, base) && MemoryFits(w, dl, base)
    && PacedAfter(base, Wins(w, dl))
    && forall a :: InCall(w, a, dl) ==> CallFits(w, w.attempts[a], dl, base)
  }

  /** A fitting row completes memory. */
  lemma RowCompletes(w: System, dl: Id, base: Saved, row: Saved)
    requires Continues(w, dl, base) && RowFits(row, w, dl, base)
    ensures Count(Warm(w.mem, dl, row), dl) == Total(w, dl, base)
    ensures dl !in w.mem.tokens ==> Last(Warm(w.mem, dl, row), dl) == Prior(w, dl, base)
    ensures var shown := Refreshed(w.mem, dl, row);
            Count(shown, dl) == Total(w, dl, base) && (dl !in w.mem.tokens ==> Last(shown, dl) == Prior(w, dl, base))
  {
    assert Wins(w, dl) != [] ==> LastWin(w, dl) > 0.0;
  }

  // ---- each step -----------------------------------------------------------------------------

  lemma RowsStep(w: System, step: Step, dl: Id, base: Saved, backoff: SearchBackoff)
    requires RowsFit(w, dl, base) && Can(w, step) && ReadsRow(step) && !step.Clear? && !step.ClearRow?
    requires step.Settle? ==> w.attempts[step.attempt].request.dl != dl
    ensures RowsFit(Do(w, step, backoff), dl, base)
  {
    var w' := Do(w, step, backoff);
    assert Wins(w', dl) == Wins(w, dl);
    if step.Save? {
      assert HandFits(w.attempts[step.attempt], w, dl, base);
    }
  }

  lemma ReserveContinues(w: System, a: nat, dl: Id, base: Saved, backoff: SearchBackoff)
    requires Continues(w, dl, base) && Prompt(w) && IsSearchBackoff(backoff)
    requires Can(w, Reserve(a)) && w.attempts[a].request.dl == dl
    ensures Continues(DoReserve(w, a, backoff), dl, base)
  {
    var w', saved := DoReserve(w, a, backoff), w.attempts[a].saved;
    var warm := Warm(w.mem, dl, saved);
    ReserveExcludes(w, a, dl, backoff);
    RowsStep(w, Reserve(a), dl, base, backoff);
    RowCompletes(w, dl, base, saved);
    ReserveGate(w, a, dl, backoff);
    if GateDelay(warm, dl, backoff).Some? {
      GateKeepsGap(warm, dl, backoff);
    }
    ReservedFits(w, w', a, dl, base);
  }

  lemma ReservedFits(w: System, w': System, a: nat, dl: Id, base: Saved)
    requires Continues(w, dl, base) && Can(w, Reserve(a)) && w.attempts[a].request.dl == dl
    requires Excludes(w', dl) && RowsFit(w', dl, base) && Wins(w', dl) == Wins(w, dl)
    requires var Loaded(request, saved) := w.attempts[a];
             var warm := Warm(w.mem, dl, saved);
             || ((w'.mem == w.mem || w'.mem == warm) && w'.attempts == w.attempts - {a})
             || (&& dl !in w.mem.tokens
                 && w'.mem == warm.(last := warm.last[dl := request.now], tokens := warm.tokens[dl := a])
                 && w'.attempts == w.attempts[a := Calling(request, Count(warm, dl), Last(warm, dl))]
                 && CallFits(w', w'.attempts[a], dl, base))
    ensures Continues(w', dl, base)
  {
    RowCompletes(w, dl, base, w.attempts[a].saved);
    forall b ensures InCall(w', b, dl) ==> CallFits(w', w'.attempts[b], dl, base) {
      assert b != a && InCall(w', b, dl) ==> InCall(w, b, dl);
    }
  }

  lemma OneMoreWin(base: Saved, wins: seq<real>, now: real)
    requires Honest(base) && PacedAfter(base, wins)
    requires base.count + |wins| >= 1 ==>
               now - (if wins == [] then base.epoch else wins[|wins| - 1]) >= MinGap(base.count + |wins|)
    ensures PacedAfter(base, wins + [now])
  {
    var more := wins + [now];
    forall k | 0 <= k < |more| && base.count + k >= 1 ensures Wait(base, more, k) >= MinGap(base.count + k) {
      assert k < |wins| ==> Wait(base, more, k) == Wait(base, wins, k);
    }
  }

  lemma SettleRows(w: System, a: nat, triggered: bool, dl: Id, base: Saved)
    requires Continues(w, dl, base) && Can(w, Settle(a, triggered)) && w.attempts[a].request.dl == dl
    ensures RowsFit(DoSettle(w, a, triggered), dl, base)
  {
    assert InCall(w, a, dl) && CallFits(w, w.attempts[a], dl, base);
  }

  lemma SettleContinues(w: System, a: nat, triggered: bool, dl: Id, base: Saved)
    requires Continues(w, dl, base) && Can(w, Settle(a, triggered)) && w.attempts[a].request.dl == dl
    ensures Continues(DoSettle(w, a, triggered), dl, base)
  {
    var w' := DoSettle(w, a, triggered);
    SettleExcludes(w, a, triggered, dl);
    SettleRows(w, a, triggered, dl, base);
    assert InCall(w, a, dl) && CallFits(w, w.attempts[a], dl, base);
    if triggered {
      OneMoreWin(base, Wins(w, dl), w.attempts[a].request.now);
    }
    assert Wins(w, dl) != [] ==> LastWin(w, dl) > 0.0;
    forall b ensures !InCall(w', b, dl) {
      assert InCall(w', b, dl) ==> InCall(w, b, dl) && b != a;
    }
  }

  /** What the rest of the invariant depends on. */
  lemma ContinuesFrame(w: System, w': System, dl: Id, base: Saved)
    requires Continues(w, dl, base) && Excludes(w', dl) && RowsFit(w', dl, base)
    requires Wins(w', dl) == Wins(w, dl) && SameCalls(w, w', dl) && SameFor(w.mem, w'.mem, dl)
    ensures Continues(w', dl, base)
  {
    forall a ensures InCall(w', a, dl) ==> CallFits(w', w'.attempts[a], dl, base) {
      assert InCall(w', a, dl) <==> InCall(w, a, dl);
    }
  }

  lemma ShowContinues(w: System, a: nat, dl: Id, base: Saved, backoff: SearchBackoff)
    requires Continues(w, dl, base) && Can(w, Show(a)) && w.attempts[a].dl == dl
    ensures Continues(Do(w, Show(a), backoff), dl, base)
  {
    var w' := Do(w, Show(a), backoff);
    OtherExcludes(w, Show(a), dl, backoff);
    RowsStep(w, Show(a), dl, base, backoff);
    assert HandFits(w.attempts[a], w, dl, base);
    RowCompletes(w, dl, base, w.attempts[a].row);
    CallsKept(w, Show(a), dl, backoff);
    forall b ensures InCall(w', b, dl) ==> CallFits(w', w'.attempts[b], dl, base) {
      assert InCall(w', b, dl) <==> InCall(w, b, dl);
    }
  }

  lemma MemoryKept(w: System, step: Step, dl: Id, backoff: SearchBackoff)
    requires Can(w, step) && !step.Clear?
    requires (step.Reserve? || step.Settle?) ==> w.attempts[step.attempt].request.dl != dl
    requires step.Show? ==> w.attempts[step.attempt].dl != dl
    ensures SameFor(w.mem, Do(w, step, backoff).mem, dl) && Wins(Do(w, step, backoff), dl) == Wins(w, dl)
  {
    if step.Reserve? || step.Settle? {
      MemoryFrame(w, step, dl, backoff);
    }
  }

  lemma OtherContinues(w: System, step: Step, dl: Id, base: Saved, backoff: SearchBackoff)
    requires Continues(w, dl, base) && Can(w, step) && ReadsRow(step) && !step.Clear? && !step.ClearRow?
    requires (step.Reserve? || step.Settle?) ==> w.attempts[step.attempt].request.dl != dl
    requires step.Show? ==> w.attempts[step.attempt].dl != dl
    ensures Continues(Do(w, step, backoff), dl, base)
  {
    var w' := Do(w, step, backoff);
    OtherExcludes(w, step, dl, backoff);
    RowsStep(w, step, dl, base, backoff);
    MemoryKept(w, step, dl, backoff);
    CallsKept(w, step, dl, backoff);
    ContinuesFrame(w, w', dl, base);
  }

  lemma ContinuesStep(w: System, step: Step, dl: Id, base: Saved, backoff: SearchBackoff)
    requires Continues(w, dl, base) && Prompt(w) && IsSearchBackoff(backoff)
    requires Can(w, step) && ReadsRow(step) && !step.Clear? && !step.ClearRow?
    ensures Continues(Do(w, step, backoff), dl, base)
  {
    if step.Reserve? && w.attempts[step.attempt].request.dl == dl {
      ReserveContinues(w, step.attempt, dl, base, backoff);
    } else if step.Settle? && w.attempts[step.attempt].request.dl == dl {
      SettleContinues(w, step.attempt, step.triggered, dl, base);
    } else if step.Show? && w.attempts[step.attempt].dl == dl {
      ShowContinues(w, step.attempt, dl, base, backoff);
    } else {
      OtherContinues(w, step, dl, base, backoff);
    }
  }

  lemma {:induction false} ContinuesRun(w: System, steps: seq<Step>, w': System, dl: Id, base: Saved,
                                        backoff: SearchBackoff)
    requires Continues(w, dl, base) && IsSearchBackoff(backoff) && RunsPromptly(w, steps, w', backoff) &&
             Readable(steps)
    ensures Continues(w', dl, base)
    decreases |steps|
  {
    if steps != [] {
      ContinuesStep(w, steps[0], dl, base, backoff);
      ContinuesRun(Do(w, steps[0], backoff), steps[1..], w', dl, base, backoff);
    }
  }

  // ---- the promises -----------------------------------------------------------------------------

  /** What the next look at the item sees: memory, completed from the row. */
  function Shown(w: System, dl: Id): Memory {
    Warm(w.mem, dl, Row(w, dl))
  }

  /**
    Whatever interleaving: the count seen is that on the row this process found plus its own successes, and with no
    call under way the time seen is that of the last of them, whether or not the saves of this process went through and
    in whatever order. And the row it leaves is again one that the next process may start from.
    */
  lemma CountAndLastExact(w: System, steps: seq<Step>, w': System, dl: Id, backoff: SearchBackoff)
    requires Fresh(w) && Honest(Row(w, dl))
    requires IsSearchBackoff(backoff) && RunsPromptly(w, steps, w', backoff) && Readable(steps)
    ensures Count(Shown(w', dl), dl) == Row(w, dl).count + |Wins(w', dl)|
    ensures (forall a :: !InCall(w', a, dl)) ==>
              Last(Shown(w', dl), dl) == if Wins(w', dl) == [] then Row(w, dl).epoch else LastWin(w', dl)
    ensures Wins(w', dl) != [] ==> Count(w'.mem, dl) == Row(w, dl).count + |Wins(w', dl)|
    ensures Honest(Row(w', dl))
  {
    var base := Row(w, dl);
    ContinuesRun(w, steps, w', dl, base, backoff);
    RowCompletes(w', dl, base, Row(w', dl));
  }

  /** The successes keep the pace of the whole history: the first of this process its gap to the one on the row. */
  lemma PaceContinues(w: System, steps: seq<Step>, w': System, dl: Id, backoff: SearchBackoff)
    requires Fresh(w) && Honest(Row(w, dl))
    requires IsSearchBackoff(backoff) && RunsPromptly(w, steps, w', backoff) && Readable(steps)
    ensures PacedAfter(Row(w, dl), Wins(w', dl))
  {
    ContinuesRun(w, steps, w', dl, Row(w, dl), backoff);
  }
}
