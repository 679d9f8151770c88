/** What crash recovery does to each row, whatever else the table holds. */
module RecoveryLemmas {
  import opened ActionTable
  import opened DeletionMachine

  ghost predicate Distinct(rows: seq<DeletionRow>) {
    forall i, j :: 0 <= i < j < |rows| ==> rows[i].id != rows[j].id
  }

  lemma CountAppend(audit: seq<AuditRow>, row: AuditRow, id: nat)
    ensures DeletedCount(audit + [row], id) ==
            DeletedCount(audit, id) + if row.event == Deleted && row.action == id then 1 else 0
  {
    assert (audit + [row])[..|audit|] == audit;
  }

  /** The later log has a `deleted` row of the action, with the item and the bytes. */
  ghost predicate Credits(before: seq<AuditRow>, after: seq<AuditRow>, id: nat, item: string, bytes: int) {
    exists k :: |before| <= k < |after| && after[k] == AuditRow(Deleted, item, id, bytes)
  }

  /** One row recovered, seen from any action. */
  lemma RecoverRowEffect(db: Db, row: DeletionRow, files: set<string>, roots: Roots, id: nat)
    ensures var r := RecoverRow(db, row, files, roots);
            && DeletedCount(r.audit, id) ==
               DeletedCount(db.audit, id) + (if id == row.id && Creditable(row, files, roots) then 1 else 0)
            && (id != row.id ==>
                  (id in r.actions <==> id in db.actions) && (id in db.actions ==> r.actions[id] == db.actions[id]))
  {
    CountAppend(db.audit, AuditRow(Deleted, row.item, row.id, row.size), id);
  }

  /** Recovering rows leaves the actions they do not name alone. */
  lemma {:induction false} RecoverRowsElsewhere(db: Db, rows: seq<DeletionRow>, files: set<string>, roots: Roots,
                                                id: nat)
    requires forall i :: 0 <= i < |rows| ==> rows[i].id != id
    ensures var r := RecoverRows(db, rows, files, roots);
            && (id in r.actions <==> id in db.actions) && (id in db.actions ==> r.actions[id] == db.actions[id])
            && DeletedCount(r.audit, id) == DeletedCount(db.audit, id)
  {
    if rows != [] {
      var n := |rows| - 1;
      RecoverRowsElsewhere(db, rows[..n], files, roots, id);
      RecoverRowEffect(RecoverRows(db, rows[..n], files, roots), rows[n], files, roots, id);
    }
  }

  lemma {:induction false} LogGrows(db: Db, rows: seq<DeletionRow>, files: set<string>, roots: Roots)
    ensures db.audit <= RecoverRows(db, rows, files, roots).audit
  {
    if rows != [] {
      LogGrows(db, rows[..|rows| - 1], files, roots);
    }
  }

  /** Recovering rows credits and drops, or resets, the action of row k. */
  lemma {:induction false} RecoverRowsAt(db: Db, rows: seq<DeletionRow>, files: set<string>, roots: Roots, k: nat)
    requires Distinct(rows) && k < |rows| && rows[k].id in db.actions
    ensures db.audit <= RecoverRows(db, rows, files, roots).audit
    ensures var r, id := RecoverRows(db, rows, files, roots), rows[k].id;
            if Creditable(rows[k], files, roots) then
              && id !in r.actions && DeletedCount(r.audit, id) == DeletedCount(db.audit, id) + 1
              && Credits(db.audit, r.audit, id, rows[k].item, rows[k].size)
            else
              id in r.actions && r.actions[id] == db.actions[id].(status := Pending)
              && DeletedCount(r.audit, id) == DeletedCount(db.audit, id)
  {
    var n, id := |rows| - 1, rows[k].id;
    LogGrows(db, rows[..n], files, roots);
    if k == n {
      RecoverRowsElsewhere(db, rows[..n], files, roots, id);
      var before := RecoverRows(db, rows[..n], files, roots).audit;
      assert (before + [AuditRow(Deleted, rows[n].item, id, rows[n].size)])[|before|] ==
             AuditRow(Deleted, rows[n].item, id, rows[n].size);
    } else {
      assert rows[..n][k] == rows[k] && rows[n].id != id;
      RecoverRowsAt(db, rows[..n], files, roots, k);
    }
    RecoverRowEffect(RecoverRows(db, rows[..n], files, roots), rows[n], files, roots, id);
  }

  /** The same for `Recover`: exactly the stuck rows change, each credited and dropped or reset to pending. */
  lemma RecoverEffect(db: Db, files: set<string>, roots: Roots, id: nat)
    requires forall k :: k in db.actions ==> k < db.nextId
    ensures var r := Recover(db, files, roots);
            if !IsStuck(db, id) then
                 (id in r.actions <==> id in db.actions) && (id in db.actions ==> r.actions[id] == db.actions[id])
                 && DeletedCount(r.audit, id) == DeletedCount(db.audit, id)
               else if Creditable(RowOf(db, id), files, roots) then
                 id !in r.actions && DeletedCount(r.audit, id) == DeletedCount(db.audit, id) + 1
               else
                 id in r.actions && r.actions[id] == db.actions[id].(status := Pending)
                 && DeletedCount(r.audit, id) == DeletedCount(db.audit, id)
  {
    var rows := Stuck(db);
    if IsStuck(db, id) {
      assert RowOf(db, id) in rows;
      var i :| 0 <= i < |rows| && rows[i] == RowOf(db, id);
      RecoverRowsAt(db, rows, files, roots, i);
    } else {
      RecoverRowsElsewhere(db, rows, files, roots, id);
    }
  }

  /**
    The same field by field: a row marked 'deleting' whose item's path lies inside the roots and is gone from disk is
    dropped, its item's bytes credited; any other marked row is pending again; the rest are as they were.
    */
  lemma RecoverField(db: Db, files: set<string>, roots: Roots, id: nat)
    requires id in db.actions && forall k :: k in db.actions ==> k < db.nextId
    ensures var r, a := Recover(db, files, roots), db.actions[id];
            if a.status != Deleting then id in r.actions && r.actions[id] == a
            else if a.item in db.items && db.items[a.item].path in roots.inside && db.items[a.item].path !in files then
              && id !in r.actions && DeletedCount(r.audit, id) == DeletedCount(db.audit, id) + 1
              && Credits(db.audit, r.audit, id, a.item, db.items[a.item].size)
            else id in r.actions && r.actions[id] == a.(status := Pending)
  {
    RecoverEffect(db, files, roots, id);
    assert Blank("");
    if db.actions[id].status == Deleting {
      var rows := Stuck(db);
      assert RowOf(db, id) in rows;
      var i :| 0 <= i < |rows| && rows[i] == RowOf(db, id);
      RecoverRowsAt(db, rows, files, roots, i);
    }
  }

  /** Recovery leaves nothing marked 'deleting', so running it again changes nothing. */
  lemma RecoverIdempotent(db: Db, files: set<string>, roots: Roots)
    requires forall k :: k in db.actions ==> k < db.nextId
    ensures forall id :: !IsStuck(Recover(db, files, roots), id)
    ensures Recover(Recover(db, files, roots), files, roots) == Recover(db, files, roots)
  {
    var r := Recover(db, files, roots);
    forall id ensures !IsStuck(r, id) {
      RecoverEffect(db, files, roots, id);
    }
  }
}
