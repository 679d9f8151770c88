/** `remove_orphans` and its statements, run against the working state of one connection. */
module OrphanPruner {
  import opened Wrappers
  import opened OrphanGuard

  /** Some listing of a set, as `list(...)` or a SELECT without ORDER BY gives one. */
  method ListOf<T(==)>(elements: set<T>) returns (list: seq<T>)
    ensures NoRepeats(list) && forall x :: x in list <==> x in elements
  {
    list := [];
    var left := elements;
    while left != {}
      invariant left <= elements && NoRepeats(list)
      invariant forall x :: x in list <==> x in elements - left
      decreases left
    {
      var x :| x in left;
      assert x !in list;
      list := list + [x];
      left := left - {x};
    }
  }

  lemma {:induction false} DistinctCard<T>(s: seq<T>, elements: set<T>)
    requires NoRepeats(s) && forall x :: x in s <==> x in elements
    ensures |s| == |elements|
  {
    if s == [] {
      assert elements == {};
    } else {
      var n := |s| - 1;
      assert forall x :: x in s[..n] <==> x in elements - {s[n]};
      DistinctCard(s[..n], elements - {s[n]});
    }
  }

  lemma DistinctJoin<T>(s: seq<T>, t: seq<T>)
    requires NoRepeats(s) && NoRepeats(t) && forall x :: x in t ==> x !in s
    ensures NoRepeats(s + t)
  {
    var all := s + t;
    forall i, j | 0 <= i < j < |all| ensures all[i] != all[j] {
      if i < |s| <= j {
        assert t[j - |s|] in t && s[i] in s;
      }
    }
  }

  lemma TakeChunk<T>(s: seq<T>, start: nat, end: nat)
    requires start <= end <= |s|
    ensures s[..end] == s[..start] + s[start..end]
  {
  }

  class Pruner {
    var work: Store
    var disk: Store
    const tenth: int -> real

    constructor (tenth: int -> real)
      ensures work == EMPTY && disk == EMPTY && this.tenth == tenth
    {
      work, disk := EMPTY, EMPTY;
      this.tenth := tenth;
    }

    method CountItemsInLibraries(libs: seq<int>) returns (count: nat)
      ensures count == |InLibraries(work.items, set l | l in libs)|
    {
      count := |set id | id in work.items && work.items[id] in libs|;
      assert InLibraries(work.items, set l | l in libs) == set id | id in work.items && work.items[id] in libs;
    }

    /** The libraries are queried CHUNK at a time. */
    method FetchIdsInLibraries(libs: seq<int>) returns (ids: seq<string>)
      requires NoRepeats(libs)
      ensures NoRepeats(ids) && forall id :: id in ids <==> id in work.items && work.items[id] in libs
    {
      ids := [];
      var start := 0;
      while start < |libs|
        invariant 0 <= start
        invariant NoRepeats(ids)
        invariant forall id :: id in ids <==> id in work.items && work.items[id] in libs[..Min(start, |libs|)]
      {
        var end := Min(start + CHUNK, |libs|);
        var chunk := libs[start..end];
        var rows := ListOf(set id | id in work.items && work.items[id] in chunk);
        TakeChunk(libs, start, end);
        forall l | l in chunk ensures l !in libs[..start] {
          var j :| start <= j < end && libs[j] == l;
        }
        assert forall id :: id in rows ==> id !in ids;
        DistinctJoin(ids, rows);
        ids := ids + rows;
        start := start + CHUNK;
      }
      assert libs[..Min(start, |libs|)] == libs;
    }

    method DeleteActionsForMediaItems(ids: seq<string>)
      modifies this`work
      ensures work == old(work).(actions := map a | a in old(work).actions && old(work).actions[a] !in ids
                                 :: old(work).actions[a])
    {
      var start := 0;
      while start < |ids|
        invariant 0 <= start
        invariant work == old(work).(actions :=
                    map a | a in old(work).actions && old(work).actions[a] !in ids[..Min(start, |ids|)]
                      :: old(work).actions[a])
      {
        var end := Min(start + CHUNK, |ids|);
        var chunk := ids[start..end];
        TakeChunk(ids, start, end);
        work := work.(actions := map a | a in work.actions && work.actions[a] !in chunk :: work.actions[a]);
        start := start + CHUNK;
      }
      assert ids[..Min(start, |ids|)] == ids;
    }

    method DeleteMediaItems(ids: seq<string>)
      modifies this`work
      ensures work == old(work).(items := old(work).items - set id | id in ids)
    {
      var start := 0;
      while start < |ids|
        invariant 0 <= start
        invariant work == old(work).(items := old(work).items - set id | id in ids[..Min(start, |ids|)])
      {
        var end := Min(start + CHUNK, |ids|);
        var chunk := ids[start..end];
        TakeChunk(ids, start, end);
        work := work.(items := work.items - set id | id in chunk);
        start := start + CHUNK;
      }
      assert ids[..Min(start, |ids|)] == ids;
    }

    /** Judges the fetch, records the judgement, and says which libraries are open to pruning. */
    method ResolvePruneLibs(seen: set<string>, scanned: set<int>, reason: Option<string>) returns (prune: set<int>)
      requires scanned != {} && reason == SuspiciousReason(|seen|, |InLibraries(work.items, scanned)|, tenth)
      modifies this`work, this`disk
      ensures World(work, disk, Pruning(prune, seen, reason.Some?)) ==
              Do(World(old(work), old(disk), Idle), Look(seen, scanned), tenth)
    {
      var pending := work.pending;
      work := work.(looks := work.looks + [Verdict(scanned, reason.Some?)]);
      if reason.None? {
        if pending * scanned != {} {
          work := work.(pending := pending - scanned);
        }
        if pending * scanned == {} {
          assert forall l :: l in pending && l in scanned ==> l in pending * scanned;
          assert pending - scanned == pending;
        }
        return scanned;
      }
      var confirmed := scanned * pending;
      var unconfirmed := scanned - pending;
      work := work.(pending := (pending - scanned) + unconfirmed);
      disk := work;
      return confirmed;
    }

    /**
      Looks, then prunes: the two atomic steps of the guard, with nothing of them left out on any path. Counted out: a
      suspiciously small fetch opens only the scanned libraries already pending, and turns the markers of all of them
      over; any other opens every scanned library and clears their markers. From the open libraries exactly the unseen
      items go, with the actions that point at them.
      */
    method RemoveOrphans(seen: set<string>, scanned: set<int>) returns (removed: nat)
      modifies this`work, this`disk
      ensures scanned != {} ==>
                var items := old(work).items;
                var previous := |set id | id in items && items[id] in scanned|;
                var low := (|seen| < 5 && previous >= 5) || (previous > 50 && |seen| as real < tenth(previous));
                var open := if low then scanned * old(work).pending else scanned;
                var gone := items.Keys - work.items.Keys;
                && work.items == (map id | id in items && (items[id] in open ==> id in seen) :: items[id])
                && work.actions ==
                     (map a | a in old(work).actions && old(work).actions[a] !in gone :: old(work).actions[a])
                && work.pending == old(work).pending - scanned + (if low then scanned - old(work).pending else {})
                && removed == |gone|
                && (disk == old(disk) || disk == work) && (low || removed > 0 ==> disk == work)
      ensures scanned == {} ==> removed == 0 && work == old(work) && disk == old(disk)
      ensures scanned != {} ==>
                var looked := Do(World(old(work), old(disk), Idle), Look(seen, scanned), tenth);
                World(work, disk, Idle) == Do(looked, Prune, tenth)
                && removed == |Orphans(looked.work, looked.phase.libs, seen)|
    {
      if scanned == {} {
        return 0;
      }
      var listed := ListOf(scanned);
      assert (set l | l in listed) == scanned;
      var previous := CountItemsInLibraries(listed);
      assert InLibraries(work.items, scanned) == set id | id in work.items && work.items[id] in scanned;
      var reason := SuspiciousReason(|seen|, previous, tenth);
      var prune := ResolvePruneLibs(seen, scanned, reason);
      ghost var looked := work;
      removed := PruneUnseen(prune, seen);
      PrunedCountedOut(looked, work, prune, seen, removed);
    }

    /** Drops the libraries' unseen rows and the actions pointing at them in one transaction. */
    method PruneUnseen(prune: set<int>, seen: set<string>) returns (removed: nat)
      modifies this`work, this`disk
      ensures removed == |Orphans(old(work), prune, seen)|
      ensures removed == 0 ==> work == old(work) && disk == old(disk)
      ensures removed != 0 ==> work == Remove(old(work), Orphans(old(work), prune, seen)) && disk == work
    {
      if prune == {} {
        assert Orphans(work, prune, seen) == {};
        return 0;
      }
      var libs := ListOf(prune);
      var all := FetchIdsInLibraries(libs);
      var orphans := Unseen(all, seen);
      DistinctCard(orphans, Orphans(work, prune, seen));
      if orphans == [] {
        return 0;
      }
      DeleteActionsForMediaItems(orphans);
      DeleteMediaItems(orphans);
      assert (set id | id in orphans) == Orphans(old(work), prune, seen);
      disk := work;
      removed := |orphans|;
    }
  }

  lemma PrunedCountedOut(looked: Store, work: Store, open: set<int>, seen: set<string>, removed: nat)
    requires removed == |Orphans(looked, open, seen)|
    requires work == if removed == 0 then looked else Remove(looked, Orphans(looked, open, seen))
    ensures work.items == map id | id in looked.items && (looked.items[id] in open ==> id in seen) :: looked.items[id]
    ensures looked.items.Keys - work.items.Keys == Orphans(looked, open, seen)
    ensures work.actions == map a | a in looked.actions && looked.actions[a] !in Orphans(looked, open, seen)
                              :: looked.actions[a]
  {
    var orphans := Orphans(looked, open, seen);
    if removed == 0 {
      NothingRemoved(looked);
    }
    OrphansAre(looked, open, seen);
    assert work == Remove(looked, orphans);
    KeysRemoved(looked.items, orphans);
  }

  lemma OrphansAre(s: Store, open: set<int>, seen: set<string>)
    ensures forall id :: id in Orphans(s, open, seen) <==> id in s.items && s.items[id] in open && id !in seen
  {
  }

  lemma NothingRemoved(s: Store)
    ensures Remove(s, {}) == s
  {
    assert s.items - {} == s.items;
    assert (map a | a in s.actions && s.actions[a] !in {} :: s.actions[a]) == s.actions;
  }

  lemma KeysRemoved(items: map<string, int>, ids: set<string>)
    requires ids <= items.Keys
    ensures items.Keys - (items - ids).Keys == ids
  {
  }

  function Min(a: int, b: int): int {
    if a < b then a else b
  }

  method Unseen(ids: seq<string>, seen: set<string>) returns (orphans: seq<string>)
    requires NoRepeats(ids)
    ensures NoRepeats(orphans) && forall id :: id in orphans <==> id in ids && id !in seen
  {
    orphans := [];
    for i := 0 to |ids|
      invariant NoRepeats(orphans) && forall id :: id in orphans <==> id in ids[..i] && id !in seen
    {
      assert ids[..i + 1] == ids[..i] + [ids[i]];
      assert ids[i] !in ids[..i];
      if ids[i] !in seen {
        orphans := orphans + [ids[i]];
      }
    }
    assert ids[..|ids|] == ids;
  }
}
