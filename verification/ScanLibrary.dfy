/**
  The scan loop over one library: guard sets loaded in batches against one query per item and guard.
  The clock is fixed for the scan and the database raises nothing; a malformed item may still raise.
  */
module ScanLibrary {
  import opened Wrappers
  import opened ActionTable

  /** What the evaluator makes of an item once the guards let it through. */
  datatype Verdict = Eligible | Declined | Raises

  /** Where, if anywhere, the item raises before it is evaluated: around its upsert, or when its age is asked. */
  datatype Fault = NoFault | BeforeUpsert | AfterUpsert | Undated

  predicate Unrecorded(fault: Fault) {
    fault.BeforeUpsert? || fault.AfterUpsert?
  }

  /** An item as fetched from Plex; `show` is its show's key, if it has one. */
  datatype Fetched = Fetched(key: string, data: Item, show: Option<string>, fault: Fault, verdict: Verdict)

  datatype Summary = Summary(scanned: nat, scheduled: nat, skipped: nat, errors: nat)

  datatype Decision = ScheduleIt | SkipGuard | SkipEval | Error

  datatype KeptShow = KeptShow(kind: Kind, executeAt: Option<int>)

  /** The engine's settings, and the fixed clock. */
  datatype Settings = Settings(dryRun: bool, grace: int, now: int)

  /** Everything a scan changes, and the decisions it took in order. */
  datatype Scan = Scan(db: Db, kept: map<string, KeptShow>, summary: Summary, seen: set<string>,
                       decisions: seq<Decision>)

  // ---- one query per item -----------------------------------------------------

  predicate LiveKeep(row: KeptShow, now: int) {
    row.kind == ProtectedForever || (row.executeAt.Some? && row.executeAt.value > now)
  }

  function SweepShows(kept: map<string, KeptShow>, now: int): map<string, KeptShow> {
    map k | k in kept && !(kept[k].kind == Snoozed && kept[k].executeAt.Some? && kept[k].executeAt.value <= now)
      :: kept[k]
  }

  /** `is_show_kept_pure`: a missing or empty key is never kept. */
  predicate IsShowKept(kept: map<string, KeptShow>, show: Option<string>, now: int) {
    show.Some? && show.value != "" && show.value in kept && LiveKeep(kept[show.value], now)
  }

  /** `is_show_kept`: asks, and sweeps lapsed snoozes when the answer is no. */
  function SweptByAsking(kept: map<string, KeptShow>, show: Option<string>, now: int): map<string, KeptShow> {
    if show.None? || show.value == "" || IsShowKept(kept, show, now) then kept else SweepShows(kept, now)
  }

  function Count(s: Summary, d: Decision): Summary {
    match d
    case ScheduleIt => s.(scanned := s.scanned + 1, scheduled := s.scheduled + 1)
    case SkipGuard => s.(scanned := s.scanned + 1, skipped := s.skipped + 1)
    case SkipEval => s.(scanned := s.scanned + 1, skipped := s.skipped + 1)
    case Error => s.(scanned := s.scanned + 1, errors := s.errors + 1)
  }

  function Decided(st: Scan, d: Decision): Scan {
    st.(summary := Count(st.summary, d), decisions := st.decisions + [d])
  }

  function Recorded(st: Scan, f: Fetched): Scan {
    st.(db := if f.fault.BeforeUpsert? then st.db else st.db.(items := st.db.items[f.key := f.data]),
        seen := st.seen + {f.key})
  }

  /** The guards and the evaluator, each guard a fresh query of the tables; `kept` says whether the item's show is. */
  function ItemStep(st: Scan, f: Fetched, kept: bool, cfg: Settings): Scan {
    var st1 := Recorded(st, f);
    if Unrecorded(f.fault) then Decided(st1, Error)
    else if IsProtected(st1.db, f.key, cfg.now) || IsAlreadyScheduled(st1.db, f.key) then Decided(st1, SkipGuard)
    else if f.fault.Undated? then Decided(st1, Error)
    else if kept then Decided(st1, SkipEval)
    else match f.verdict
      case Raises => Decided(st1, Error)
      case Declined => Decided(st1, SkipEval)
      case Eligible =>
        if cfg.dryRun then Decided(st1, ScheduleIt)
        else Decided(st1.(db := Schedule(st1.db, f.key, cfg.now + cfg.grace, HasExpiredSnooze(st1.db, f.key))),
                     ScheduleIt)
  }

  /** Whether an item gets as far as the show-kept question. */
  predicate AsksForShow(st: Scan, f: Fetched, cfg: Settings) {
    f.fault.NoFault? && !IsProtected(st.db, f.key, cfg.now) && !IsAlreadyScheduled(st.db, f.key)
  }

  /** One item the plain way: the show-kept question is a query too, and sweeps when the answer is no. */
  function PerItemStep(st: Scan, f: Fetched, cfg: Settings): Scan {
    ItemStep(st, f, IsShowKept(st.kept, f.show, cfg.now), cfg)
      .(kept := if AsksForShow(st, f, cfg) then SweptByAsking(st.kept, f.show, cfg.now) else st.kept)
  }

  function PerItemScan(st: Scan, items: seq<Fetched>, cfg: Settings): Scan {
    if items == [] then st
    else PerItemStep(PerItemScan(st, items[..|items| - 1], cfg), items[|items| - 1], cfg)
  }

  /** Whether the item's show is in a set of kept shows loaded beforehand. */
  predicate ShowIn(f: Fetched, keptShows: set<string>) {
    f.show.Some? && f.show.value in keptShows
  }

  /** The loop with the show-kept question answered from such a set. */
  function BatchScan(st: Scan, items: seq<Fetched>, keptShows: set<string>, cfg: Settings): Scan {
    if items == [] then st
    else
      var f := items[|items| - 1];
      ItemStep(BatchScan(st, items[..|items| - 1], keptShows, cfg), f, ShowIn(f, keptShows), cfg)
  }

  /** A season whose show key is the empty string, under which the kept table holds a live keep. */
  predicate EmptyKeyKept(items: seq<Fetched>, kept: map<string, KeptShow>, now: int) {
    "" in kept && LiveKeep(kept[""], now) && exists i :: 0 <= i < |items| && items[i].show == Some("")
  }

  // ---- the batched scan ---------------------------------------------------------

  const CHUNK: nat := 500

  function Keys(items: seq<Fetched>): (keys: seq<string>)
    ensures |keys| == |items| && forall i :: 0 <= i < |items| ==> keys[i] == items[i].key
  {
    seq(|items|, i requires 0 <= i < |items| => items[i].key)
  }

  function ProtectedAmong(db: Db, ids: seq<string>, now: int): set<string> {
    set id | id in ids && IsProtected(db, id, now)
  }

  function ScheduledAmong(db: Db, ids: seq<string>): set<string> {
    set id | id in ids && IsAlreadyScheduled(db, id)
  }

  function KeptAmong(kept: map<string, KeptShow>, shows: seq<string>, now: int): set<string> {
    set k | k in shows && k in kept && LiveKeep(kept[k], now)
  }

  class ScanEngine {
    const settings: Settings
    var db: Db
    var kept: map<string, KeptShow>
    var summary: Summary
    var seen: set<string>
    var decisions: seq<Decision>

    function View(): Scan
      reads this
    {
      Scan(db, kept, summary, seen, decisions)
    }

    constructor (settings: Settings, db: Db, kept: map<string, KeptShow>)
      ensures this.settings == settings && View() == Scan(db, kept, Summary(0, 0, 0, 0), {}, [])
    {
      this.settings, this.db, this.kept := settings, db, kept;
      summary, seen, decisions := Summary(0, 0, 0, 0), {}, [];
    }

    /** Chunked so that no query binds more than CHUNK ids; the chunking cannot be told from the answer. */
    method FetchProtectedMediaIds(ids: seq<string>, now: int) returns (found: set<string>)
      ensures found == ProtectedAmong(db, ids, now)
      ensures forall id :: id in found <==>
                id in ids && exists a :: a in db.actions && db.actions[a].item == id && Shields(db.actions[a], now)
    {
      found := {};
      var start := 0;
      while start < |ids|
        invariant found == ProtectedAmong(db, ids[..if start < |ids| then start else |ids|], now)
      {
        var end := if start + CHUNK < |ids| then start + CHUNK else |ids|;
        var chunk := ids[start..end];
        found := found + set id | id in chunk && IsProtected(db, id, now);
        assert ids[..end] == ids[..start] + chunk;
        start := start + CHUNK;
      }
      assert ids[..|ids|] == ids;
    }

    method FetchAlreadyScheduledMediaIds(ids: seq<string>) returns (found: set<string>)
      ensures found == ScheduledAmong(db, ids)
      ensures forall id :: id in found <==>
                id in ids && exists a :: a in db.actions && db.actions[a].item == id && Waits(db.actions[a])
    {
      found := {};
      var start := 0;
      while start < |ids|
        invariant found == ScheduledAmong(db, ids[..if start < |ids| then start else |ids|])
      {
        var end := if start + CHUNK < |ids| then start + CHUNK else |ids|;
        var chunk := ids[start..end];
        found := found + set id | id in chunk && IsAlreadyScheduled(db, id);
        assert ids[..end] == ids[..start] + chunk;
        start := start + CHUNK;
      }
      assert ids[..|ids|] == ids;
    }

    method FetchKeptShowKeys(shows: seq<string>, now: int) returns (found: set<string>)
      ensures found == KeptAmong(kept, shows, now)
      ensures forall k :: k in found <==>
                && k in shows && k in kept
                && (kept[k].kind == ProtectedForever || (kept[k].executeAt.Some? && now < kept[k].executeAt.value))
    {
      found := {};
      var start := 0;
      while start < |shows|
        invariant found == KeptAmong(kept, shows[..if start < |shows| then start else |shows|], now)
      {
        var end := if start + CHUNK < |shows| then start + CHUNK else |shows|;
        var chunk := shows[start..end];
        found := found + set k | k in chunk && k in kept && LiveKeep(kept[k], now);
        assert shows[..end] == shows[..start] + chunk;
        start := start + CHUNK;
      }
      assert shows[..|shows|] == shows;
    }

    /** Upserts the item, asks the guard sets, then the evaluator. */
    method EvaluateScanItem(f: Fetched, keptShows: set<string>, protectedIds: set<string>, scheduledIds: set<string>)
      returns (d: Decision)
      modifies this`db, this`seen
      ensures View() == Recorded(old(View()), f)
      ensures d == if Unrecorded(f.fault) then Error
                   else if f.key in protectedIds || f.key in scheduledIds then SkipGuard
                   else if f.fault.Undated? then Error
                   else if f.show.Some? && f.show.value in keptShows then SkipEval
                   else match f.verdict case Raises => Error case Declined => SkipEval case Eligible => ScheduleIt
    {
      seen := seen + {f.key};
      if f.fault.BeforeUpsert? {
        return Error;
      }
      db := db.(items := db.items[f.key := f.data]);
      if f.fault.AfterUpsert? {
        return Error;
      }
      if f.key in protectedIds {
        return SkipGuard;
      }
      if f.key in scheduledIds {
        return SkipGuard;
      }
      if f.fault.Undated? {
        return Error;
      }
      if f.show.Some? && f.show.value in keptShows {
        return SkipEval;
      }
      match f.verdict {
        case Raises => d := Error;
        case Declined => d := SkipEval;
        case Eligible => d := ScheduleIt;
      }
    }

    /** Counts a schedulable item and, unless it is a dry run, inserts its row and adds it to the guard set. */
    method ApplyScanDecision(key: string, scheduledIds: set<string>) returns (after: set<string>)
      modifies this`db, this`summary
      ensures summary == old(summary).(scheduled := old(summary).scheduled + 1)
      ensures settings.dryRun ==> after == scheduledIds && db == old(db)
      ensures !settings.dryRun ==>
                && after == scheduledIds + {key}
                && db == Schedule(old(db), key, settings.now + settings.grace, HasExpiredSnooze(old(db), key))
    {
      after := scheduledIds;
      if !settings.dryRun {
        db := Schedule(db, key, settings.now + settings.grace, HasExpiredSnooze(db, key));
        after := scheduledIds + {key};
      }
      summary := summary.(scheduled := summary.scheduled + 1);
    }

    /**
      One turn of the loop: the guard sets answer for the item as the tables would, and go on answering for every id.
      */
    method ScanOne(f: Fetched, keptShows: set<string>, protectedIds: set<string>, scheduledIds: set<string>,
                   ghost ids: seq<string>)
      returns (after: set<string>)
      requires GuardsAnswer(db, ids, protectedIds, scheduledIds, settings.now) && f.key in ids
      modifies this`db, this`summary, this`seen, this`decisions
      ensures View() == ItemStep(old(View()), f, f.show.Some? && f.show.value in keptShows, settings)
      ensures GuardsAnswer(db, ids, protectedIds, after, settings.now)
    {
      after := scheduledIds;
      var d := EvaluateScanItem(f, keptShows, protectedIds, scheduledIds);
      GuardsIgnoreItems(old(db), db, settings.now);
      summary := summary.(scanned := summary.scanned + 1);
      match d {
        case ScheduleIt =>
          ScheduleEffect(db, f.key, settings.now + settings.grace, HasExpiredSnooze(db, f.key), settings.now);
          after := ApplyScanDecision(f.key, scheduledIds);
        case Error => summary := summary.(errors := summary.errors + 1);
        case SkipGuard => summary := summary.(skipped := summary.skipped + 1);
        case SkipEval => summary := summary.(skipped := summary.skipped + 1);
      }
      decisions := decisions + [d];
    }

    /** The guard sets, loaded once, answer throughout the loop as fresh queries would. */
    method ScanItems(items: seq<Fetched>, keptShows: set<string>)
      requires forall id :: id in db.actions ==> id < db.nextId
      modifies this`db, this`summary, this`seen, this`decisions
      ensures View() == BatchScan(old(View()), items, keptShows, settings)
    {
      var ids := Keys(items);
      var protectedIds := FetchProtectedMediaIds(ids, settings.now);
      var scheduledIds := FetchAlreadyScheduledMediaIds(ids);
      ghost var start := View();
      var i := 0;
      while i < |items|
        invariant i <= |items|
        invariant View() == BatchScan(start, items[..i], keptShows, settings)
        invariant GuardsAnswer(db, ids, protectedIds, scheduledIds, settings.now)
      {
        assert ids[i] == items[i].key && items[..i + 1][..i] == items[..i];
        scheduledIds := ScanOne(items[i], keptShows, protectedIds, scheduledIds, ids);
        i := i + 1;
      }
      assert items[..|items|] == items;
    }

    method ScanMovieLibrary(items: seq<Fetched>)
      requires forall id :: id in db.actions ==> id < db.nextId
      requires forall i :: 0 <= i < |items| ==> items[i].show.None?
      modifies this`db, this`summary, this`seen, this`decisions
      ensures View() == PerItemScan(old(View()), items, settings) == BatchScan(old(View()), items, {}, settings)
    {
      ScanItems(items, {});
      BatchIsPerItem(old(View()), old(kept), items, {}, settings);
      AskingAboutNoShow(old(View()), items, settings);
    }

    /**
      A TV library: one sweep of lapsed show snoozes up front instead of one per season asked about. Decisions, rows,
      summary and seen keys are those of asking season by season, and so is the kept table once swept; unless a
      season carries the empty show key and the table keeps it.
      */
    method ScanTvLibrary(items: seq<Fetched>)
      requires forall id :: id in db.actions ==> id < db.nextId
      modifies this
      ensures kept == SweepShows(old(kept), settings.now)
      ensures forall k :: k in old(kept) ==>
                (k !in kept <==> old(kept)[k].kind == Snoozed && old(kept)[k].executeAt.Some? &&
                                   old(kept)[k].executeAt.value <= settings.now)
      ensures exists keptShows :: View() == BatchScan(old(View()).(kept := kept), items, keptShows, settings)
                && forall k :: k in keptShows ==> k in kept && LiveKeep(kept[k], settings.now)
      ensures !EmptyKeyKept(items, old(kept), settings.now) ==>
                var reference := PerItemScan(old(View()), items, settings);
                View() == reference.(kept := kept) && SweepShows(reference.kept, settings.now) == kept
    {
      ghost var start := View();
      kept := SweepShows(kept, settings.now);
      var shows := seq(|items|, i requires 0 <= i < |items| => items[i].show.GetOr(""));
      var keptShows := FetchKeptShowKeys(shows, settings.now);
      if !EmptyKeyKept(items, start.kept, settings.now) {
        forall i | 0 <= i < |items|
          ensures ShowIn(items[i], keptShows) == IsShowKept(start.kept, items[i].show, settings.now)
        {
          assert shows[i] == items[i].show.GetOr("");
        }
        BatchIsPerItem(start, kept, items, keptShows, settings);
        SweepingLate(start, items, settings);
      }
      ScanItems(items, keptShows);
    }
  }

  /** The two guard sets give, for every fetched id, the answer of the per-item query. */
  ghost predicate GuardsAnswer(db: Db, ids: seq<string>, protectedIds: set<string>, scheduledIds: set<string>,
                               now: int) {
    && (forall id :: id in db.actions ==> id < db.nextId)
    && (forall k :: k in ids ==> (k in protectedIds <==> IsProtected(db, k, now)))
    && (forall k :: k in ids ==> (k in scheduledIds <==> IsAlreadyScheduled(db, k)))
  }

  // ---- why the batches answer as the queries do ------------------------------------

  lemma GuardsIgnoreItems(db: Db, db': Db, now: int)
    requires db'.actions == db.actions
    ensures forall k :: IsProtected(db', k, now) == IsProtected(db, k, now)
    ensures forall k :: IsAlreadyScheduled(db', k) == IsAlreadyScheduled(db, k)
    ensures forall k :: HasExpiredSnooze(db', k) == HasExpiredSnooze(db, k)
  {
  }

  lemma SameProtection(db: Db, key: string, executeAt: int, reentry: bool, now: int, k: string)
    requires forall id :: id in db.actions ==> id < db.nextId
    ensures IsProtected(Schedule(db, key, executeAt, reentry), k, now) == IsProtected(db, k, now)
    ensures HasExpiredSnooze(Schedule(db, key, executeAt, reentry), k) == HasExpiredSnooze(db, k)
  {
    var db' := Schedule(db, key, executeAt, reentry);
    assert forall id :: id in db.actions ==> id in db'.actions && db'.actions[id] == db.actions[id];
  }

  /** Scheduling an unscheduled item makes exactly that item count as scheduled, and protects nothing. */
  lemma ScheduleEffect(db: Db, key: string, executeAt: int, reentry: bool, now: int)
    requires forall id :: id in db.actions ==> id < db.nextId
    ensures var db' := Schedule(db, key, executeAt, reentry);
            && (forall id :: id in db'.actions ==> id < db'.nextId)
            && (forall k :: IsProtected(db', k, now) == IsProtected(db, k, now))
            && (forall k :: HasExpiredSnooze(db', k) == HasExpiredSnooze(db, k))
            && (key in db.items && !IsAlreadyScheduled(db, key) ==>
                  forall k :: IsAlreadyScheduled(db', k) <==> IsAlreadyScheduled(db, k) || k == key)
  {
    var db' := Schedule(db, key, executeAt, reentry);
    forall k
      ensures IsProtected(db', k, now) == IsProtected(db, k, now)
      ensures HasExpiredSnooze(db', k) == HasExpiredSnooze(db, k)
    {
      SameProtection(db, key, executeAt, reentry, now, k);
    }
    if key in db.items && !IsAlreadyScheduled(db, key) {
      assert db.nextId in db'.actions && UnusedDeletion(db'.actions[db.nextId]);
      assert forall id :: id in db.actions ==> id in db'.actions && db'.actions[id] == db.actions[id];
    }
  }

  lemma AskingKeepsAnswers(kept: map<string, KeptShow>, show: Option<string>, now: int, s: Option<string>)
    ensures IsShowKept(SweptByAsking(kept, show, now), s, now) == IsShowKept(kept, s, now)
  {
  }

  lemma ItemStepIgnoresKept(st: Scan, table: map<string, KeptShow>, f: Fetched, kept: bool, cfg: Settings)
    ensures ItemStep(st.(kept := table), f, kept, cfg) == ItemStep(st, f, kept, cfg).(kept := table)
    ensures ItemStep(st, f, kept, cfg).kept == st.kept
  {
  }

  /** However far the per-item loop has got, its kept table answers as it did at the start. */
  lemma {:induction false} SameAnswersOnTheWay(st: Scan, items: seq<Fetched>, cfg: Settings, show: Option<string>)
    ensures IsShowKept(PerItemScan(st, items, cfg).kept, show, cfg.now) == IsShowKept(st.kept, show, cfg.now)
  {
    if items != [] {
      var n := |items| - 1;
      SameAnswersOnTheWay(st, items[..n], cfg, show);
      AskingKeepsAnswers(PerItemScan(st, items[..n], cfg).kept, items[n].show, cfg.now, show);
    }
  }

  /** A set that answers as the kept table did at the start makes the batched loop the per-item loop. */
  lemma {:induction false} BatchIsPerItem(st: Scan, table: map<string, KeptShow>, items: seq<Fetched>,
                                          keptShows: set<string>, cfg: Settings)
    requires forall i :: 0 <= i < |items| ==> ShowIn(items[i], keptShows) == IsShowKept(st.kept, items[i].show, cfg.now)
    ensures BatchScan(st.(kept := table), items, keptShows, cfg) == PerItemScan(st, items, cfg).(kept := table)
  {
    if items != [] {
      var n := |items| - 1;
      BatchIsPerItem(st, table, items[..n], keptShows, cfg);
      var reference := PerItemScan(st, items[..n], cfg);
      SameAnswersOnTheWay(st, items[..n], cfg, items[n].show);
      ItemStepIgnoresKept(reference, table, items[n], ShowIn(items[n], keptShows), cfg);
    }
  }

  /** Whatever the per-item loop swept on its way, a last sweep leaves what a first one would have. */
  lemma {:induction false} SweepingLate(st: Scan, items: seq<Fetched>, cfg: Settings)
    ensures SweepShows(PerItemScan(st, items, cfg).kept, cfg.now) == SweepShows(st.kept, cfg.now)
  {
    if items != [] {
      SweepingLate(st, items[..|items| - 1], cfg);
    }
  }

  /** Asking whether a show is kept sweeps what has run out, exactly if there is a key and the answer is no. */
  lemma AskingSweepsExactly(kept: map<string, KeptShow>, show: Option<string>, now: int, k: string)
    requires k in kept
    ensures var live := show.Some? && show.value in kept &&
                        (kept[show.value].kind == ProtectedForever ||
                         (kept[show.value].executeAt.Some? && now < kept[show.value].executeAt.value));
            k !in SweptByAsking(kept, show, now) <==>
              && show.Some? && show.value != "" && !live
              && kept[k].kind == Snoozed && kept[k].executeAt.Some? && kept[k].executeAt.value <= now
  {
  }

  lemma {:induction false} AskingAboutNoShow(st: Scan, items: seq<Fetched>, cfg: Settings)
    requires forall i :: 0 <= i < |items| ==> items[i].show.None?
    ensures PerItemScan(st, items, cfg).kept == st.kept
  {
    if items != [] {
      AskingAboutNoShow(st, items[..|items| - 1], cfg);
    }
  }

  /**
    The empty show key: the set says kept, the query says not, and the item comes out differently exactly if it is asked
    about and not declined anyway. No writer stores such a key, so it takes a row put there by hand.
    */
  lemma EmptyKeyDiffers(st: Scan, f: Fetched, cfg: Settings)
    requires f.show == Some("")
    ensures !IsShowKept(st.kept, f.show, cfg.now)
    ensures ItemStep(st, f, true, cfg) != ItemStep(st, f, false, cfg) <==>
            AsksForShow(st, f, cfg) && !f.verdict.Declined?
  {
    GuardsIgnoreItems(st.db, Recorded(st, f).db, cfg.now);
    assert (st.decisions + [SkipEval])[|st.decisions|] == SkipEval;
  }

  // ---- what a scan amounts to --------------------------------------------------------

  predicate Balanced(s: Summary) {
    s.scanned == s.scheduled + s.skipped + s.errors
  }

  lemma {:induction false} SummaryBalances(st: Scan, items: seq<Fetched>, keptShows: set<string>, cfg: Settings)
    requires Balanced(st.summary)
    ensures var r := BatchScan(st, items, keptShows, cfg);
            Balanced(r.summary) && r.summary.scanned == st.summary.scanned + |items|
  {
    if items != [] {
      SummaryBalances(st, items[..|items| - 1], keptShows, cfg);
    }
  }

  /** Some fetched copy of the item is readable, not of a kept show, and eligible. */
  predicate Wanted(items: seq<Fetched>, keptShows: set<string>, key: string) {
    exists i :: 0 <= i < |items| && items[i].key == key && items[i].fault.NoFault? && !ShowIn(items[i], keptShows) &&
        items[i].verdict.Eligible?
  }

  /** A row of the scan's own making. */
  predicate NewRow(before: Db, after: Db, id: nat) {
    id in after.actions && id !in before.actions
  }

  ghost predicate WellMade(before: Db, a: Action, cfg: Settings) {
    UnusedDeletion(a) && a.executeAt == Some(cfg.now + cfg.grace) && a.status == Pending &&
        a.reentry == HasExpiredSnooze(before, a.item)
  }

  /**
    What a live scan of some items amounts to, however often it meets an item. Old rows stay. An item ends up
    scheduled exactly when it already was, or no protection holds it and some copy of it is wanted. New rows are
    unused deletions due one grace period from now, flagged as re-entries exactly when a consumed snooze of the
    item is on record; and none of them gives an item a second unused deletion.
    */
  ghost predicate Amounts(before: Db, after: Db, items: seq<Fetched>, keptShows: set<string>, cfg: Settings) {
    && (forall id :: id in after.actions ==> id < after.nextId)
    && (forall id :: id in before.actions ==> id in after.actions && after.actions[id] == before.actions[id])
    && (forall k :: IsAlreadyScheduled(after, k) <==>
          IsAlreadyScheduled(before, k) || (!IsProtected(before, k, cfg.now) && Wanted(items, keptShows, k)))
    && (forall id :: NewRow(before, after, id) ==> WellMade(before, after.actions[id], cfg))
    && (forall id, id2 ::
          NewRow(before, after, id) && id2 in after.actions && id2 != id && UnusedDeletion(after.actions[id2]) ==>
          after.actions[id2].item != after.actions[id].item)
  }

  ghost predicate SameHistory(before: Db, after: Db, now: int) {
    && before.nextId <= after.nextId
    && (forall k :: IsProtected(after, k, now) == IsProtected(before, k, now))
    && (forall k :: HasExpiredSnooze(after, k) == HasExpiredSnooze(before, k))
  }

  lemma {:induction false} ScanSchedules(st: Scan, items: seq<Fetched>, keptShows: set<string>, cfg: Settings)
    requires !cfg.dryRun && forall id :: id in st.db.actions ==> id < st.db.nextId
    ensures Amounts(st.db, BatchScan(st, items, keptShows, cfg).db, items, keptShows, cfg)
    ensures SameHistory(st.db, BatchScan(st, items, keptShows, cfg).db, cfg.now)
  {
    if items != [] {
      var n := |items| - 1;
      ScanSchedules(st, items[..n], keptShows, cfg);
      OneMoreItem(st.db, BatchScan(st, items[..n], keptShows, cfg), items[..n], items[n], keptShows, cfg);
      assert items[..n] + [items[n]] == items;
    }
  }

  /** The item gets a row. */
  predicate Inserts(db: Db, f: Fetched, keptShows: set<string>, cfg: Settings) {
    && f.fault.NoFault? && !ShowIn(f, keptShows) && f.verdict.Eligible?
    && !IsProtected(db, f.key, cfg.now) && !IsAlreadyScheduled(db, f.key)
  }

  lemma OneMoreItem(before: Db, mid: Scan, items: seq<Fetched>, f: Fetched, keptShows: set<string>, cfg: Settings)
    requires !cfg.dryRun && forall id :: id in before.actions ==> id < before.nextId
    requires Amounts(before, mid.db, items, keptShows, cfg) && SameHistory(before, mid.db, cfg.now)
    ensures var r := ItemStep(mid, f, ShowIn(f, keptShows), cfg);
            Amounts(before, r.db, items + [f], keptShows, cfg) && SameHistory(before, r.db, cfg.now)
  {
    var recorded := Recorded(mid, f).db;
    StepDb(mid, f, keptShows, cfg);
    SameActions(before, mid.db, recorded, items, keptShows, cfg);
    forall k
      ensures Wanted(items + [f], keptShows, k) <==>
                Wanted(items, keptShows, k) || (k == f.key && Wanted([f], keptShows, k))
    {
      WantedSplits(items, f, keptShows, k);
    }
    WantedAlone(f, keptShows);
    if Inserts(recorded, f, keptShows, cfg) {
      InsertAmounts(before, recorded, items, items + [f], f.key, keptShows, cfg);
    } else {
      NothingInserted(before, recorded, items, items + [f], f.key, keptShows, cfg);
    }
  }

  lemma StepDb(mid: Scan, f: Fetched, keptShows: set<string>, cfg: Settings)
    requires !cfg.dryRun
    ensures var db := Recorded(mid, f).db;
            && db.actions == mid.db.actions && db.nextId == mid.db.nextId && (f.fault.NoFault? ==> f.key in db.items)
            && ItemStep(mid, f, ShowIn(f, keptShows), cfg).db ==
                 if Inserts(db, f, keptShows, cfg) then
                   Schedule(db, f.key, cfg.now + cfg.grace, HasExpiredSnooze(db, f.key))
                 else db
  {
  }

  lemma SameActions(before: Db, mid: Db, after: Db, items: seq<Fetched>, keptShows: set<string>, cfg: Settings)
    requires Amounts(before, mid, items, keptShows, cfg) && SameHistory(before, mid, cfg.now)
    requires after.actions == mid.actions && after.nextId == mid.nextId
    ensures Amounts(before, after, items, keptShows, cfg) && SameHistory(before, after, cfg.now)
  {
    GuardsIgnoreItems(mid, after, cfg.now);
  }

  lemma WantedAlone(f: Fetched, keptShows: set<string>)
    ensures Wanted([f], keptShows, f.key) <==> f.fault.NoFault? && !ShowIn(f, keptShows) && f.verdict.Eligible?
  {
    assert [f][0] == f;
  }

  /** An item that gets no row adds nothing: it was not wanted, or is protected or scheduled already. */
  lemma NothingInserted(before: Db, mid: Db, items: seq<Fetched>, more: seq<Fetched>, key: string,
                        keptShows: set<string>, cfg: Settings)
    requires Amounts(before, mid, items, keptShows, cfg) && SameHistory(before, mid, cfg.now)
    requires forall k :: Wanted(more, keptShows, k) && k != key ==> Wanted(items, keptShows, k)
    requires Wanted(more, keptShows, key) ==>
               Wanted(items, keptShows, key) || IsProtected(mid, key, cfg.now) || IsAlreadyScheduled(mid, key)
    requires forall k :: Wanted(items, keptShows, k) ==> Wanted(more, keptShows, k)
    ensures Amounts(before, mid, more, keptShows, cfg)
  {
  }

  lemma WantedSplits(items: seq<Fetched>, f: Fetched, keptShows: set<string>, k: string)
    ensures Wanted(items + [f], keptShows, k) <==>
              Wanted(items, keptShows, k) || (k == f.key && Wanted([f], keptShows, k))
  {
    var all := items + [f];
    if Wanted(items, keptShows, k) {
      var i :| 0 <= i < |items| && items[i].key == k && items[i].fault.NoFault? && !ShowIn(items[i], keptShows) &&
          items[i].verdict.Eligible?;
      assert all[i] == items[i];
    }
    assert all[|items|] == f && [f][0] == f;
  }

  /** One successful insert on top of what the items before amounted to. */
  lemma InsertAmounts(before: Db, mid: Db, items: seq<Fetched>, more: seq<Fetched>, key: string, keptShows: set<string>,
                      cfg: Settings)
    requires Amounts(before, mid, items, keptShows, cfg) && SameHistory(before, mid, cfg.now)
    requires forall id :: id in before.actions ==> id < before.nextId
    requires key in mid.items && !IsProtected(mid, key, cfg.now) && !IsAlreadyScheduled(mid, key)
    requires forall k :: Wanted(more, keptShows, k) <==> Wanted(items, keptShows, k) || k == key
    ensures var after := Schedule(mid, key, cfg.now + cfg.grace, HasExpiredSnooze(mid, key));
            Amounts(before, after, more, keptShows, cfg) && SameHistory(before, after, cfg.now)
  {
    ScheduleEffect(mid, key, cfg.now + cfg.grace, HasExpiredSnooze(mid, key), cfg.now);
    var after := Schedule(mid, key, cfg.now + cfg.grace, HasExpiredSnooze(mid, key));
    var made := Action(key, ScheduledDeletion, Some(cfg.now + cfg.grace), false, Pending, HasExpiredSnooze(mid, key));
    assert after.actions == mid.actions[mid.nextId := made];
    forall id2 | id2 in mid.actions && UnusedDeletion(mid.actions[id2]) ensures mid.actions[id2].item != key {
      assert mid.actions[id2].item == key ==> IsAlreadyScheduled(mid, key);
    }
  }

  /** The insert is refused exactly without the item or with a pending unused deletion of it; else it is this row. */
  lemma ScheduleRefusedExactly(db: Db, item: string, executeAt: int, reentry: bool)
    requires forall k :: k in db.actions ==> k < db.nextId
    ensures var taken := exists a :: a in db.actions && db.actions[a].item == item && Waits(db.actions[a]) &&
                           db.actions[a].status == Pending;
            if item !in db.items || taken then Schedule(db, item, executeAt, reentry) == db
            else Schedule(db, item, executeAt, reentry).actions ==
                   db.actions[db.nextId := Action(item, ScheduledDeletion, Some(executeAt), false, Pending, reentry)]
  {
    assert IndexTaken(db, item) <==>
           exists a :: a in db.actions && db.actions[a].item == item && Waits(db.actions[a]) &&
             db.actions[a].status == Pending;
  }

  /** A row that holds scans off its item: kept for ever, or until a time not yet past. */
  predicate Shields(a: Action, now: int) {
    a.kind == ProtectedForever || (a.kind == Snoozed && a.executeAt.Some? && now <= a.executeAt.value)
  }

  /** A row that already has its item waiting to be deleted. */
  predicate Waits(a: Action) {
    a.kind == ScheduledDeletion && !a.tokenUsed
  }

  lemma {:induction false} DryRunKeepsRows(st: Scan, items: seq<Fetched>, keptShows: set<string>, cfg: Settings)
    requires cfg.dryRun
    ensures BatchScan(st, items, keptShows, cfg).db.actions == st.db.actions
  {
    if items != [] {
      DryRunKeepsRows(st, items[..|items| - 1], keptShows, cfg);
    }
  }

  /** No scan gives an item a row that a row of before shields, or that has the item waiting already. */
  lemma ShieldedGetsNoRow(st: Scan, items: seq<Fetched>, keptShows: set<string>, cfg: Settings, held: nat, id: nat)
    requires forall k :: k in st.db.actions ==> k < st.db.nextId
    requires held in st.db.actions && (Shields(st.db.actions[held], cfg.now) || Waits(st.db.actions[held]))
    requires id in BatchScan(st, items, keptShows, cfg).db.actions && id !in st.db.actions
    ensures BatchScan(st, items, keptShows, cfg).db.actions[id].item != st.db.actions[held].item
  {
    if cfg.dryRun {
      DryRunKeepsRows(st, items, keptShows, cfg);
    } else {
      ScanSchedules(st, items, keptShows, cfg);
      var after := BatchScan(st, items, keptShows, cfg).db;
      assert NewRow(st.db, after, id);
      if Waits(st.db.actions[held]) {
        assert after.actions[held] == st.db.actions[held] && UnusedDeletion(after.actions[held]);
      } else {
        NewRowsAreUnheld(st, items, keptShows, cfg, id);
        assert IsProtected(st.db, st.db.actions[held].item, cfg.now);
      }
    }
  }

  /** Where a live scan put a row, there was no protection. */
  lemma {:induction false} NewRowsAreUnheld(st: Scan, items: seq<Fetched>, keptShows: set<string>, cfg: Settings,
                                            id: nat)
    requires !cfg.dryRun && forall k :: k in st.db.actions ==> k < st.db.nextId
    requires NewRow(st.db, BatchScan(st, items, keptShows, cfg).db, id)
    ensures !IsProtected(st.db, BatchScan(st, items, keptShows, cfg).db.actions[id].item, cfg.now)
  {
    if items != [] {
      var n := |items| - 1;
      var mid := BatchScan(st, items[..n], keptShows, cfg);
      ScanSchedules(st, items[..n], keptShows, cfg);
      StepDb(mid, items[n], keptShows, cfg);
      GuardsIgnoreItems(mid.db, Recorded(mid, items[n]).db, cfg.now);
      if id in mid.db.actions {
        NewRowsAreUnheld(st, items[..n], keptShows, cfg, id);
      }
    }
  }

  /**
    And an item that nothing shields or has waiting, of which a copy came that is readable, not of a kept show and
    eligible, gets exactly one: due one grace period on, and a re-entry exactly if a used snooze of it is on record.
    */
  lemma WantedGetsOneRow(st: Scan, items: seq<Fetched>, keptShows: set<string>, cfg: Settings, i: nat) returns (id: nat)
    requires !cfg.dryRun && forall k :: k in st.db.actions ==> k < st.db.nextId
    requires i < |items| && items[i].fault.NoFault? && items[i].verdict.Eligible?
    requires items[i].show.Some? ==> items[i].show.value !in keptShows
    requires forall a :: a in st.db.actions && st.db.actions[a].item == items[i].key ==>
               !Shields(st.db.actions[a], cfg.now) && !Waits(st.db.actions[a])
    ensures var after := BatchScan(st, items, keptShows, cfg).db;
            && id in after.actions && id !in st.db.actions
            && (forall k :: k in after.actions && k !in st.db.actions && after.actions[k].item == items[i].key ==>
                  k == id)
            && after.actions[id] ==
                 Action(items[i].key, ScheduledDeletion, Some(cfg.now + cfg.grace), false, Pending,
                        exists a :: a in st.db.actions && st.db.actions[a].item == items[i].key &&
                          st.db.actions[a].kind == Snoozed && st.db.actions[a].tokenUsed)
  {
    var after, key := BatchScan(st, items, keptShows, cfg).db, items[i].key;
    ScanSchedules(st, items, keptShows, cfg);
    assert Wanted(items, keptShows, key) && !IsProtected(st.db, key, cfg.now);
    assert IsAlreadyScheduled(after, key);
    id :| id in after.actions && after.actions[id].item == key && UnusedDeletion(after.actions[id]);
    assert NewRow(st.db, after, id);
    forall k | k in after.actions && k !in st.db.actions && after.actions[k].item == key ensures k == id {
      assert NewRow(st.db, after, k);
    }
    assert HasExpiredSnooze(st.db, key) <==>
           exists a :: a in st.db.actions && st.db.actions[a].item == key && st.db.actions[a].kind == Snoozed &&
             st.db.actions[a].tokenUsed;
  }

  /**
    What a keep over a link is for: a waiting row kept until some time holds every scan off its item up to and at that
    time, and one kept for ever always.
    */
  lemma KeepHoldsScansOff(st: Scan, items: seq<Fetched>, keptShows: set<string>, cfg: Settings, before: Db, held: nat,
                          keep: Keep, reading: int, id: nat)
    requires held in before.actions && forall k :: k in before.actions ==> k < before.nextId
    requires var a := before.actions[held];
             && a.kind == ScheduledDeletion && a.status == Pending && !a.tokenUsed
             && a.executeAt.Some? && reading <= a.executeAt.value
    requires st.db == ApplyKeep(before, held, keep, reading) && (keep.Until? ==> cfg.now <= keep.at)
    requires id in BatchScan(st, items, keptShows, cfg).db.actions && id !in before.actions
    ensures BatchScan(st, items, keptShows, cfg).db.actions[id].item != before.actions[held].item
  {
    ShieldedGetsNoRow(st, items, keptShows, cfg, held, id);
  }

  /** An admin's keep, of a row or of an item without one, shields up to the time it names, or for ever. */
  lemma AdminKeepShields(db: Db, id: nat, item: string, keep: Keep, now: int)
    ensures id in db.actions ==>
              var a, kept := db.actions[id], AdminKept(db, id, keep).actions;
              && id in kept && (Shields(kept[id], now) <==> keep.Forever? || now <= keep.at)
              && kept[id].item == a.item && kept[id].tokenUsed == a.tokenUsed && kept[id].status == a.status
    ensures item in db.items ==>
              var made := AdminProtected(db, item, keep).actions;
              && db.nextId in made && (Shields(made[db.nextId], now) <==> keep.Forever? || now <= keep.at)
              && made[db.nextId].item == item && !made[db.nextId].tokenUsed && !made[db.nextId].reentry
              && made[db.nextId].status == Pending
  {
  }

  /** Once the time is past, the item that is wanted again comes back flagged as a re-entry. */
  lemma LapsedKeepReenters(st: Scan, items: seq<Fetched>, keptShows: set<string>, cfg: Settings, before: Db, held: nat,
                           at: int, reading: int, i: nat) returns (id: nat)
    requires !cfg.dryRun && held in before.actions && forall k :: k in before.actions ==> k < before.nextId
    requires var a := before.actions[held];
             && a.kind == ScheduledDeletion && a.status == Pending && !a.tokenUsed
             && a.executeAt.Some? && reading <= a.executeAt.value
    requires st.db == ApplyKeep(before, held, Until(at), reading) && at < cfg.now
    requires forall k :: k in before.actions && before.actions[k].item == before.actions[held].item ==> k == held
    requires i < |items| && items[i].key == before.actions[held].item
    requires items[i].fault.NoFault? && items[i].verdict.Eligible?
    requires items[i].show.Some? ==> items[i].show.value !in keptShows
    ensures var after := BatchScan(st, items, keptShows, cfg).db;
            && id in after.actions && id !in before.actions && after.actions[id].item == before.actions[held].item
            && after.actions[id].kind == ScheduledDeletion && after.actions[id].reentry
            && after.actions[id].executeAt == Some(cfg.now + cfg.grace)
  {
    assert st.db.actions[held] == before.actions[held].(kind := Snoozed, tokenUsed := true, executeAt := Some(at));
    id := WantedGetsOneRow(st, items, keptShows, cfg, i);
    assert st.db.actions[held].kind == Snoozed && st.db.actions[held].tokenUsed;
  }

  /** A clean-up removes exactly the unused snoozes that have run out: no re-entry, no protection, no schedule. */
  lemma CleanupKeepsReentry(db: Db, now: int, item: string)
    ensures HasExpiredSnooze(CleanupSnoozes(db, now), item) == HasExpiredSnooze(db, item)
    ensures IsProtected(CleanupSnoozes(db, now), item, now) == IsProtected(db, item, now)
    ensures IsAlreadyScheduled(CleanupSnoozes(db, now), item) == IsAlreadyScheduled(db, item)
    ensures forall id :: id in db.actions ==>
              var a := db.actions[id];
              id !in CleanupSnoozes(db, now).actions <==>
                a.kind == Snoozed && !a.tokenUsed && a.executeAt.Some? && a.executeAt.value < now
  {
    var db' := CleanupSnoozes(db, now);
    assert forall id :: id in db'.actions ==> id in db.actions && db'.actions[id] == db.actions[id];
    if HasExpiredSnooze(db, item) {
      var id :| id in db.actions && db.actions[id].item == item && ConsumedSnooze(db.actions[id]);
      assert id in db'.actions;
    }
    if IsProtected(db, item, now) {
      var id :| id in db.actions && db.actions[id].item == item && ActiveProtection(db.actions[id], now);
      assert id in db'.actions;
    }
    if IsAlreadyScheduled(db, item) {
      var id :| id in db.actions && db.actions[id].item == item && UnusedDeletion(db.actions[id]);
      assert id in db'.actions;
    }
  }
}
