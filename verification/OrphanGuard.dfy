/**
  The two-look orphan guard: a suspiciously small fetch only marks a library pending, and rows are pruned when the next
  look at it is suspicious again. A transaction is the working state; a crash keeps what is on disk.
  */
module OrphanGuard {
  import opened Wrappers

  const MIN_ITEMS: int := 5
  const MIN_FOR_RATIO: int := 50
  const CHUNK: nat := 500

  /** One judgement of the guard on a set of libraries. */
  datatype Verdict = Verdict(libs: set<int>, suspicious: bool)

  /**
    `items` gives each media item's library, `actions` each action's media item, `pending` the libraries awaiting a
    confirming look. `looks` is bookkeeping of the model: the judgements this state has seen.
    */
  datatype Store = Store(items: map<string, int>, actions: map<nat, string>, pending: set<int>, looks: seq<Verdict>)

  /** What the scan in progress may prune. */
  datatype Phase = Idle | Pruning(libs: set<int>, seen: set<string>, suspicious: bool)

  datatype World = World(work: Store, disk: Store, phase: Phase)

  datatype Step =
    | Upsert(item: string, library: int)
    | Schedule(action: nat, target: string)
    | DropAction(dropped: nat)
    | Commit
    | Look(seen: set<string>, scanned: set<int>)
    | Prune
    | Crash

  // ---- the guard --------------------------------------------------------------------

  /** `tenth` is what `previous_count * 0.10` comes to. */
  function SuspiciousReason(current: int, previous: int, tenth: int -> real): Option<string> {
    if current < MIN_ITEMS && previous >= MIN_ITEMS then Some("below_min_items")
    else if previous > MIN_FOR_RATIO && current as real < tenth(previous) then Some("below_ratio")
    else None
  }

  function InLibraries(items: map<string, int>, libs: set<int>): set<string> {
    set id | id in items && items[id] in libs
  }

  function Orphans(s: Store, libs: set<int>, seen: set<string>): set<string> {
    InLibraries(s.items, libs) - seen
  }

  function Remove(s: Store, ids: set<string>): Store {
    s.(items := s.items - ids, actions := map a | a in s.actions && s.actions[a] !in ids :: s.actions[a])
  }

  predicate Can(w: World, step: Step) {
    match step
    case Schedule(_, target) => target in w.work.items
    case Look(_, scanned) => w.phase.Idle? && scanned != {}
    case Prune => w.phase.Pruning?
    case _ => true
  }

  function Do(w: World, step: Step, tenth: int -> real): World
    requires Can(w, step)
  {
    match step
    case Upsert(item, library) => w.(work := w.work.(items := w.work.items[item := library]))
    case Schedule(action, target) => w.(work := w.work.(actions := w.work.actions[action := target]))
    case DropAction(dropped) => w.(work := w.work.(actions := w.work.actions - {dropped}))
    case Commit => w.(disk := w.work)
    case Crash => World(w.disk, w.disk, Idle)
    case Look(seen, scanned) => Judge(w, seen, scanned, tenth)
    case Prune =>
      var orphans := Orphans(w.work, w.phase.libs, w.phase.seen);
      if orphans == {} then w.(phase := Idle)
      else var work := Remove(w.work, orphans); World(work, work, Idle)
  }

  /** A suspicious judgement is committed at once; a healthy one waits for the next commit. */
  function Judge(w: World, seen: set<string>, scanned: set<int>, tenth: int -> real): World {
    var s := w.work;
    var reason := SuspiciousReason(|seen|, |InLibraries(s.items, scanned)|, tenth);
    var looks := s.looks + [Verdict(scanned, reason.Some?)];
    if reason.None? then
      World(s.(pending := s.pending - scanned, looks := looks), w.disk, Pruning(scanned, seen, false))
    else
      var work := s.(pending := (s.pending - scanned) + (scanned - s.pending), looks := looks);
      World(work, work, Pruning(scanned * s.pending, seen, true))
  }

  ghost predicate Runs(w: World, steps: seq<Step>, w': World, tenth: int -> real)
    decreases |steps|
  {
    if steps == [] then w == w'
    else Can(w, steps[0]) && Runs(Do(w, steps[0], tenth), steps[1..], w', tenth)
  }

  // ---- what holds of every reachable state -----------------------------------------------

  /** How many looks at the library in a row, up to the last one, were suspicious. */
  function Streak(looks: seq<Verdict>, lib: int): nat {
    if looks == [] then 0
    else
      var last, before := looks[|looks| - 1], looks[..|looks| - 1];
      if lib !in last.libs then Streak(before, lib)
      else if last.suspicious then Streak(before, lib) + 1
      else 0
  }

  /** No action points at a missing item, and a library is pending exactly after an odd run of suspicious looks. */
  ghost predicate Sound(s: Store) {
    && (forall a :: a in s.actions ==> s.actions[a] in s.items)
    && (forall lib :: lib in s.pending <==> Streak(s.looks, lib) % 2 == 1)
  }

  /** What is not yet committed: more items, and healthy looks only. */
  ghost predicate Ahead(work: Store, disk: Store) {
    && disk.items.Keys <= work.items.Keys
    && disk.looks <= work.looks
    && forall i :: |disk.looks| <= i < |work.looks| ==> !work.looks[i].suspicious
  }

  /**
    After a suspicious look, only libraries whose committed looks were suspicious twice in a row are open to pruning.
    */
  ghost predicate Confirmed(w: World) {
    w.phase.Pruning? && w.phase.suspicious ==>
      w.work.looks == w.disk.looks &&
      forall lib :: lib in w.phase.libs ==> Streak(w.disk.looks, lib) >= 2 && Streak(w.disk.looks, lib) % 2 == 0
  }

  ghost predicate Inv(w: World) {
    Sound(w.work) && Sound(w.disk) && Ahead(w.work, w.disk) && Confirmed(w)
  }

  lemma StreakAppend(looks: seq<Verdict>, v: Verdict, lib: int)
    ensures Streak(looks + [v], lib) ==
            if lib !in v.libs then Streak(looks, lib) else if v.suspicious then Streak(looks, lib) + 1 else 0
  {
    assert (looks + [v])[..|looks|] == looks;
  }

  lemma JudgeKeeps(w: World, seen: set<string>, scanned: set<int>, tenth: int -> real)
    requires Inv(w) && w.phase.Idle?
    ensures Inv(Judge(w, seen, scanned, tenth))
  {
    var w' := Judge(w, seen, scanned, tenth);
    var v := w'.work.looks[|w.work.looks|];
    forall lib ensures lib in w'.work.pending <==> Streak(w'.work.looks, lib) % 2 == 1
               ensures lib in w'.phase.libs && v.suspicious ==>
                         Streak(w'.work.looks, lib) >= 2 && Streak(w'.work.looks, lib) % 2 == 0
    {
      StreakAppend(w.work.looks, v, lib);
    }
  }

  lemma RemoveKeeps(s: Store, ids: set<string>)
    requires Sound(s)
    ensures Sound(Remove(s, ids))
  {
  }

  lemma InvStep(w: World, step: Step, tenth: int -> real)
    requires Inv(w) && Can(w, step)
    ensures Inv(Do(w, step, tenth))
  {
    match step
    case Look(seen, scanned) => JudgeKeeps(w, seen, scanned, tenth);
    case Prune => RemoveKeeps(w.work, Orphans(w.work, w.phase.libs, w.phase.seen));
    case _ =>
  }

  const EMPTY: Store := Store(map[], map[], {}, [])

  lemma {:induction false} InvRun(w: World, steps: seq<Step>, w': World, tenth: int -> real)
    requires Inv(w) && Runs(w, steps, w', tenth)
    ensures Inv(w')
    decreases |steps|
  {
    if steps != [] {
      InvStep(w, steps[0], tenth);
      InvRun(Do(w, steps[0], tenth), steps[1..], w', tenth);
    }
  }

  // ---- the promises ---------------------------------------------------------------------------

  /** Over any scans of any libraries, with crashes anywhere, no committed state has an action without its item. */
  lemma NoDanglingAction(steps: seq<Step>, w: World, tenth: int -> real)
    requires Runs(World(EMPTY, EMPTY, Idle), steps, w, tenth)
    ensures forall a :: a in w.disk.actions ==> w.disk.actions[a] in w.disk.items
  {
    InvRun(World(EMPTY, EMPTY, Idle), steps, w, tenth);
  }

  /**
    A committed row goes only when pruned: it was unseen, in a library open to pruning, and if the look was suspicious
    that library's committed looks end in two suspicious ones, the earlier of which deferred it.
    */
  lemma RowsGoOnlyPruned(steps: seq<Step>, w: World, step: Step, id: string, tenth: int -> real)
    requires Runs(World(EMPTY, EMPTY, Idle), steps, w, tenth) && Can(w, step)
    requires id in w.disk.items && id !in Do(w, step, tenth).disk.items
    ensures step.Prune? && id in w.work.items && w.work.items[id] in w.phase.libs && id !in w.phase.seen
    ensures w.phase.suspicious ==>
              Streak(w.disk.looks, w.work.items[id]) >= 2 && Streak(w.disk.looks, w.work.items[id]) % 2 == 0
  {
    InvRun(World(EMPTY, EMPTY, Idle), steps, w, tenth);
  }

  /**
    A suspicious look opens exactly the scanned libraries whose last look was a suspicious one that deferred them (an
    odd run), and those looks were all committed; it commits at once. A healthy look opens every scanned library. Other
    libraries' markers are left alone.
    */
  lemma LookDecides(steps: seq<Step>, w: World, seen: set<string>, scanned: set<int>, tenth: int -> real, lib: int)
    requires Runs(World(EMPTY, EMPTY, Idle), steps, w, tenth) && Can(w, Look(seen, scanned))
    ensures var w' := Do(w, Look(seen, scanned), tenth);
            && (lib in w'.phase.libs <==>
                  lib in scanned && (w'.phase.suspicious ==> Streak(w.work.looks, lib) % 2 == 1))
            && (Streak(w.work.looks, lib) % 2 == 1 ==> Streak(w.disk.looks, lib) == Streak(w.work.looks, lib))
            && (lib !in scanned ==> (lib in w'.work.pending <==> lib in w.work.pending))
            && (w'.phase.suspicious ==> w'.disk == w'.work)
  {
    InvRun(World(EMPTY, EMPTY, Idle), steps, w, tenth);
    UncommittedAreHealthy(w.work.looks, w.disk.looks, lib);
  }

  /** Which looks are suspicious, counted out: hardly anything came back, or less than a tenth of a library of size. */
  lemma LookJudges(w: World, seen: set<string>, scanned: set<int>, tenth: int -> real)
    requires Can(w, Look(seen, scanned))
    ensures var previous := |set id | id in w.work.items && w.work.items[id] in scanned|;
            Do(w, Look(seen, scanned), tenth).phase.suspicious <==>
              (|seen| < 5 && previous >= 5) || (previous > 50 && |seen| as real < tenth(previous))
  {
    assert InLibraries(w.work.items, scanned) == set id | id in w.work.items && w.work.items[id] in scanned;
  }

  lemma {:induction false} UncommittedAreHealthy(work: seq<Verdict>, disk: seq<Verdict>, lib: int)
    requires disk <= work && forall i :: |disk| <= i < |work| ==> !work[i].suspicious
    ensures Streak(work, lib) == Streak(disk, lib) || Streak(work, lib) == 0
  {
    if |work| == |disk| {
      assert work == disk;
    } else {
      UncommittedAreHealthy(work[..|work| - 1], disk, lib);
    }
  }
}
