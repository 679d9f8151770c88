/**
  The `scheduled_actions` table group and the SQL statements issued against it, modelled by meaning:
  a table is a map from row id to row, a statement a function from database to database.
  Instants are integers (microseconds); `Timestamps` justifies comparing them as the stored text is.
  */
module ActionTable {
  import opened Wrappers

  datatype Kind = ScheduledDeletion | Snoozed | ProtectedForever
  datatype Status = Pending | Deleting

  datatype Action = Action(item: string, kind: Kind, executeAt: Option<int>, tokenUsed: bool,
                           status: Status, reentry: bool)

  datatype Item = Item(path: string, size: int, library: int)

  datatype Event = Deleted | DeleteFailed | ActionScheduled | DryRunSkip

  /** An `audit_log` row. `action` is the id of the action row it is about: bookkeeping of the model, not a column. */
  datatype AuditRow = AuditRow(event: Event, item: string, action: nat, bytes: int)

  /** `nextId` is the AUTOINCREMENT counter, so an id is never handed out twice. */
  datatype Db = Db(items: map<string, Item>, actions: map<nat, Action>, audit: seq<AuditRow>, nextId: nat)

  /** A row as the executor holds it in memory: the action joined with its media item. */
  datatype DeletionRow = DeletionRow(id: nat, item: string, path: string, size: int)

  /** The configured delete roots: whether any are set, and which paths lie strictly inside one. */
  datatype RootSet = RootSet(configured: bool, inside: set<string>)

  /** Fails closed: without roots nothing is inside, and a blank path never is. */
  type Roots = r: RootSet | (!r.configured ==> r.inside == {}) && forall p :: p in r.inside ==> !Blank(p)
    witness RootSet(false, {})

  /** The empty path and paths of (ASCII) white space only. */
  predicate Blank(path: string) {
    forall i :: 0 <= i < |path| ==> Space(path[i])
  }

  // ---- reads ----------------------------------------------------------------

  predicate UnusedDeletion(a: Action) {
    a.kind == ScheduledDeletion && !a.tokenUsed
  }

  /** The rows the partial unique index covers. */
  predicate Indexed(a: Action) {
    UnusedDeletion(a) && a.status == Pending
  }

  predicate ActiveProtection(a: Action, now: int) {
    a.kind == ProtectedForever || (a.kind == Snoozed && a.executeAt.Some? && a.executeAt.value >= now)
  }

  predicate ConsumedSnooze(a: Action) {
    a.kind == Snoozed && a.tokenUsed
  }

  predicate IsProtected(db: Db, item: string, now: int) {
    exists id :: id in db.actions && db.actions[id].item == item && ActiveProtection(db.actions[id], now)
  }

  predicate IsAlreadyScheduled(db: Db, item: string) {
    exists id :: id in db.actions && db.actions[id].item == item && UnusedDeletion(db.actions[id])
  }

  predicate HasExpiredSnooze(db: Db, item: string) {
    exists id :: id in db.actions && db.actions[id].item == item && ConsumedSnooze(db.actions[id])
  }

  predicate IndexTaken(db: Db, item: string) {
    exists id :: id in db.actions && db.actions[id].item == item && Indexed(db.actions[id])
  }

  /** The (left) join: an action whose item is missing yields an empty path. */
  function RowOf(db: Db, id: nat): DeletionRow
    requires id in db.actions
  {
    var item := db.actions[id].item;
    if item in db.items then DeletionRow(id, item, db.items[item].path, db.items[item].size)
    else DeletionRow(id, item, "", 0)
  }

  predicate IsStuck(db: Db, id: nat) {
    id in db.actions && db.actions[id].status == Deleting
  }

  predicate IsDue(db: Db, id: nat, now: int) {
    && id in db.actions
    && db.actions[id].item in db.items
    && db.actions[id].kind == ScheduledDeletion
    && db.actions[id].executeAt.Some? && db.actions[id].executeAt.value <= now
    && db.actions[id].status == Pending
  }

  /** Rows with ids `from` and up, in id order, as the executor fetches them. */
  function StuckFrom(db: Db, from: nat): (rows: seq<DeletionRow>)
    ensures forall i :: 0 <= i < |rows| ==>
              from <= rows[i].id && IsStuck(db, rows[i].id) && rows[i] == RowOf(db, rows[i].id)
    ensures forall i, j :: 0 <= i < j < |rows| ==> rows[i].id < rows[j].id
    ensures forall id :: from <= id < db.nextId && IsStuck(db, id) ==> RowOf(db, id) in rows
    ensures (forall id :: !IsStuck(db, id)) ==> rows == []
    decreases db.nextId - from
  {
    if from >= db.nextId then []
    else if IsStuck(db, from) then [RowOf(db, from)] + StuckFrom(db, from + 1)
    else StuckFrom(db, from + 1)
  }

  function DueFrom(db: Db, now: int, from: nat): (rows: seq<DeletionRow>)
    ensures forall i :: 0 <= i < |rows| ==>
              from <= rows[i].id && IsDue(db, rows[i].id, now) && rows[i] == RowOf(db, rows[i].id)
    ensures forall i, j :: 0 <= i < j < |rows| ==> rows[i].id < rows[j].id
    ensures forall id :: from <= id < db.nextId && IsDue(db, id, now) ==> RowOf(db, id) in rows
    decreases db.nextId - from
  {
    if from >= db.nextId then []
    else if IsDue(db, from, now) then [RowOf(db, from)] + DueFrom(db, now, from + 1)
    else DueFrom(db, now, from + 1)
  }

  function Stuck(db: Db): seq<DeletionRow> {
    StuckFrom(db, 0)
  }

  function Due(db: Db, now: int): seq<DeletionRow> {
    DueFrom(db, now, 0)
  }

  // ---- writes ---------------------------------------------------------------

  /** `mark_delete_status`: unconditional on everything but the id. */
  function Mark(db: Db, id: nat, status: Status): Db {
    if id in db.actions then db.(actions := db.actions[id := db.actions[id].(status := status)]) else db
  }

  function Drop(db: Db, id: nat): Db {
    db.(actions := db.actions - {id})
  }

  function Log(db: Db, event: Event, row: DeletionRow, bytes: int): Db {
    db.(audit := db.audit + [AuditRow(event, row.item, row.id, bytes)])
  }

  /** The guard shared by both keep UPDATEs. */
  predicate Keepable(db: Db, id: nat, now: int) {
    && id in db.actions
    && db.actions[id].kind == ScheduledDeletion
    && db.actions[id].status == Pending
    && !db.actions[id].tokenUsed
    && db.actions[id].executeAt.Some? && db.actions[id].executeAt.value >= now
  }

  /** What a keep asks for: a snooze until some instant, or protection for ever. */
  datatype Keep = Until(at: int) | Forever

  function ApplyKeep(db: Db, id: nat, keep: Keep, now: int): Db {
    if !Keepable(db, id, now) then db
    else
      var a := db.actions[id];
      var kept := match keep
        case Until(at) => a.(kind := Snoozed, tokenUsed := true, executeAt := Some(at))
        case Forever => a.(kind := ProtectedForever, tokenUsed := true);
      db.(actions := db.actions[id := kept])
  }

  /** An admin's keep of a row, by id: neither the deadline nor the statuses are asked, and the token stays as it is. */
  function AdminKept(db: Db, id: nat, keep: Keep): Db {
    if id !in db.actions then db
    else
      var a := db.actions[id];
      db.(actions := db.actions[id := match keep
                                      case Until(at) => a.(kind := Snoozed, executeAt := Some(at))
                                      case Forever => a.(kind := ProtectedForever, executeAt := None)])
  }

  /** An admin's keep of an item without an unused row: a new one. */
  function AdminProtected(db: Db, item: string, keep: Keep): Db {
    if item !in db.items then db
    else
      var a := match keep
        case Until(at) => Action(item, Snoozed, Some(at), false, Pending, false)
        case Forever => Action(item, ProtectedForever, None, false, Pending, false);
      db.(actions := db.actions[db.nextId := a], nextId := db.nextId + 1)
  }

  /**
    `schedule_deletion`: the INSERT fails on the partial unique index or the foreign key, and then nothing is written.
    */
  function Schedule(db: Db, item: string, executeAt: int, reentry: bool): Db {
    if item !in db.items || IndexTaken(db, item) then db
    else
      db.(actions := db.actions[db.nextId := Action(item, ScheduledDeletion, Some(executeAt), false, Pending, reentry)],
          audit := db.audit + [AuditRow(ActionScheduled, item, db.nextId, 0)],
          nextId := db.nextId + 1)
  }

  predicate SweptSnooze(a: Action, now: int) {
    a.kind == Snoozed && !a.tokenUsed && a.executeAt.Some? && a.executeAt.value < now
  }

  function CleanupSnoozes(db: Db, now: int): Db {
    db.(actions := map id | id in db.actions && !SweptSnooze(db.actions[id], now) :: db.actions[id])
  }

  function ClearPending(db: Db): Db {
    db.(actions := map id | id in db.actions && !UnusedDeletion(db.actions[id]) :: db.actions[id])
  }

  // ---- crash recovery -------------------------------------------------------

  /** Recovery credits a stuck row when its file is gone and lay inside the roots. */
  predicate Creditable(row: DeletionRow, files: set<string>, roots: Roots) {
    !(row.path != "" && row.path in files) && row.path in roots.inside
  }

  function RecoverRow(db: Db, row: DeletionRow, files: set<string>, roots: Roots): Db {
    if Creditable(row, files, roots) then Drop(Log(db, Deleted, row, row.size), row.id)
    else Mark(db, row.id, Pending)
  }

  function RecoverRows(db: Db, rows: seq<DeletionRow>, files: set<string>, roots: Roots): (r: Db)
    ensures r.items == db.items && r.nextId == db.nextId
  {
    if rows == [] then db
    else RecoverRow(RecoverRows(db, rows[..|rows| - 1], files, roots), rows[|rows| - 1], files, roots)
  }

  function Recover(db: Db, files: set<string>, roots: Roots): (r: Db)
    ensures r.items == db.items && r.nextId == db.nextId
  {
    RecoverRows(db, Stuck(db), files, roots)
  }
}
