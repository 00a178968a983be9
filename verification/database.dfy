/** The slice of Fluent the handlers use: `find`, `save`, and a query made of
    one equality filter, a newest-first sort and an optional limit. */
module Database {
  import opened Wrappers
  import opened Models

  // ---------------------------------------------------------------- find

  /** Position of the first row whose id is `u`, or `None` when no row has it. */
  function IndexOf(s: Store, u: Uuid): (r: Option<nat>)
    ensures r.Some? ==> r.value < |s| && s[r.value].id == Some(u)
    ensures r.Some? ==> forall j :: 0 <= j < r.value ==> s[j].id != Some(u)
    ensures r.None? <==> forall j :: 0 <= j < |s| ==> s[j].id != Some(u)
  {
    if |s| == 0 then None
    else if s[0].id == Some(u) then Some(0)
    else
      match IndexOf(s[1..], u)
      case None => None
      case Some(k) => Some(k + 1)
  }

  /** In a valid store every row is found at its own position. */
  lemma IndexOfValid(s: Store, i: nat)
    requires ValidStore(s)
    requires i < |s|
    ensures IndexOf(s, s[i].id.value) == Some(i)
  {
  }

  // ---------------------------------------------------------------- save

  /** The largest id in use (0 for a table without ids). */
  function MaxId(s: Store): (m: nat)
    ensures forall i :: 0 <= i < |s| && s[i].id.Some? ==> s[i].id.value <= m
  {
    if |s| == 0 then 0
    else
      var rest := MaxId(s[1..]);
      assert forall i :: 1 <= i < |s| ==> s[i] == s[1..][i - 1];
      match s[0].id
      case None => rest
      case Some(u) => if u > rest then u else rest
  }

  /** The id Fluent generates for a record saved without one; it is never in
      use (random UUIDs are modelled by a deterministic unused value). */
  function FreshId(s: Store): (u: Uuid)
    ensures IndexOf(s, u).None?
  {
    MaxId(s) + 1
  }

  datatype Saved = Saved(record: Assignment, store: Store) | Duplicate

  /** `model.save(on:)` for a decoded model: an INSERT under the model's own
      id, or a generated one when it has none; an id already in the table
      violates the primary key. `pending` holds the items still to be saved
      in the same batch: a random UUID does not collide with their ids
      either, so the generated id avoids them too. */
  function Save(s: Store, a: Assignment, pending: seq<Assignment>): (r: Saved)
    ensures r.Duplicate? <==> a.id.Some? && IndexOf(s, a.id.value).Some?
    ensures r.Saved? ==> r.store == s + [r.record]
    ensures r.Saved? ==> r.record.id.Some? && IndexOf(s, r.record.id.value).None?
    ensures r.Saved? ==> r.record == a.(id := r.record.id)
    ensures r.Saved? && a.id.Some? ==> r.record.id == a.id
    ensures r.Saved? && a.id.None? ==>
      forall j :: 0 <= j < |pending| ==> pending[j].id != r.record.id
    ensures r.Saved? && ValidStore(s) ==> ValidStore(r.store)
  {
    var u := if a.id.Some? then a.id.value else FreshId(s + pending);
    assert a.id.None? ==> forall j :: 0 <= j < |s| ==> s[j] == (s + pending)[j];
    assert a.id.None? ==> forall j :: 0 <= j < |pending| ==> pending[j] == (s + pending)[|s| + j];
    if IndexOf(s, u).Some? then Duplicate
    else
      var rec := a.(id := Some(u));
      Saved(rec, s + [rec])
  }

  datatype Batch = Batch(saved: seq<Assignment>, store: Store, complete: bool)

  /** Saves `items` one after another; the first rejected save stops the run,
      and the rows saved before it stay (there is no transaction). What the
      saved rows hold and why a run stops are `SaveAllRows` and
      `SaveAllStop`. */
  function SaveAll(s: Store, items: seq<Assignment>): (b: Batch)
    ensures b.store == s + b.saved
    ensures b.complete ==> |b.saved| == |items|
    ensures !b.complete ==> |b.saved| < |items|
    ensures ValidStore(s) ==> ValidStore(b.store)
    decreases |items|
  {
    if |items| == 0 then Batch([], s, true)
    else
      match Save(s, items[0], items[1..])
      case Duplicate => Batch([], s, false)
      case Saved(rec, s1) =>
        var rest := SaveAll(s1, items[1..]);
        assert rest.store == (s + [rec]) + rest.saved == s + ([rec] + rest.saved);
        Batch([rec] + rest.saved, rest.store, rest.complete)
  }

  /** `rows` are the first items of `items`, each saved with an id: the
      item's own id when it had one. */
  ghost predicate SavedRows(items: seq<Assignment>, rows: seq<Assignment>) {
    && |rows| <= |items|
    && forall i :: 0 <= i < |rows| ==>
         && rows[i].id.Some?
         && rows[i] == items[i].(id := rows[i].id)
         && (items[i].id.Some? ==> rows[i].id == items[i].id)
  }

  /** Each saved row is its item with an id: the item's own id when it had
      one. */
  lemma {:induction false} SaveAllRows(s: Store, items: seq<Assignment>)
    ensures SavedRows(items, SaveAll(s, items).saved)
    decreases |items|
  {
    if |items| > 0 {
      match Save(s, items[0], items[1..])
      case Duplicate =>
      case Saved(rec, s1) =>
        SaveAllRows(s1, items[1..]);
        var rest := SaveAll(s1, items[1..]);
        var saved := [rec] + rest.saved;
        assert SaveAll(s, items).saved == saved;
        assert forall i :: 1 <= i < |saved| ==> saved[i] == rest.saved[i - 1] && items[i] == items[1..][i - 1];
    }
  }

  /** A run stops only at an item whose own id is already in the table,
      counting the rows the run itself saved. */
  lemma {:induction false} SaveAllStop(s: Store, items: seq<Assignment>)
    ensures var b := SaveAll(s, items);
      !b.complete ==> items[|b.saved|].id.Some? && IndexOf(b.store, items[|b.saved|].id.value).Some?
    decreases |items|
  {
    if |items| > 0 {
      match Save(s, items[0], items[1..])
      case Duplicate =>
      case Saved(rec, s1) =>
        SaveAllStop(s1, items[1..]);
        var rest := SaveAll(s1, items[1..]);
        assert SaveAll(s, items) == Batch([rec] + rest.saved, rest.store, rest.complete);
        assert !rest.complete ==> items[1 + |rest.saved|] == items[1..][|rest.saved|];
    }
  }

  /** The items' own ids are not in the table and no two items share one. */
  ghost predicate NewIds(s: Store, items: seq<Assignment>) {
    (forall i :: 0 <= i < |items| && items[i].id.Some? ==> IndexOf(s, items[i].id.value).None?) &&
    (forall i, j :: 0 <= i < j < |items| && items[i].id.Some? ==> items[i].id != items[j].id)
  }

  /** A batch whose own ids are new and distinct is saved completely: a
      generated id never collides with the table or with a later item. */
  lemma {:induction false} SaveAllNewIds(s: Store, items: seq<Assignment>)
    ensures NewIds(s, items) ==> SaveAll(s, items).complete
    decreases |items|
  {
    if NewIds(s, items) && |items| > 0 {
      match Save(s, items[0], items[1..])
      case Duplicate =>
      case Saved(rec, s1) =>
        var rest := items[1..];
        forall i | 0 <= i < |rest| && rest[i].id.Some?
          ensures IndexOf(s1, rest[i].id.value).None?
        {
          assert rest[i] == items[i + 1];
          assert rec.id != rest[i].id;
        }
        forall i, j | 0 <= i < j < |rest| && rest[i].id.Some?
          ensures rest[i].id != rest[j].id
        {
          assert rest[i] == items[i + 1] && rest[j] == items[j + 1];
        }
        SaveAllNewIds(s1, rest);
    }
  }

  // ---------------------------------------------------------------- query

  /** The equality filters the handlers put on a query. */
  datatype Filter = HiddenIs(hidden: bool) | ScheduledIs(scheduled: bool)

  predicate Matches(f: Filter, a: Assignment) {
    match f
    case HiddenIs(h) => a.hidden == h
    case ScheduledIs(b) => a.scheduled == b
  }

  /** The rows a filter keeps, in table order. */
  function Select(s: Store, f: Filter): (r: Store)
    ensures |r| <= |s|
    ensures forall a :: multiset(r)[a] == if Matches(f, a) then multiset(s)[a] else 0
  {
    if |s| == 0 then []
    else
      assert s == [s[0]] + s[1..];
      (if Matches(f, s[0]) then [s[0]] else []) + Select(s[1..], f)
  }

  /** Sorted by `submittedOn`, descending. */
  ghost predicate NewestFirst(s: Store) {
    forall i, j :: 0 <= i < j < |s| ==> s[i].submittedOn >= s[j].submittedOn
  }

  /** Every row after the head of a newest-first list is no newer than it. */
  lemma HeadNewest(s: Store)
    requires NewestFirst(s) && |s| > 0
    ensures forall x :: x in multiset(s[1..]) ==> x.submittedOn <= s[0].submittedOn
  {
    forall x | x in multiset(s[1..])
      ensures x.submittedOn <= s[0].submittedOn
    {
      var j :| 0 <= j < |s[1..]| && s[1..][j] == x;
      assert s[j + 1] == x;
    }
  }

  /** A row no older than every row of a newest-first list can lead it. */
  lemma ConsNewest(x: Assignment, t: Store)
    requires NewestFirst(t)
    requires forall k :: 0 <= k < |t| ==> t[k].submittedOn <= x.submittedOn
    ensures NewestFirst([x] + t)
  {
    var r := [x] + t;
    forall i, j | 0 <= i < j < |r|
      ensures r[i].submittedOn >= r[j].submittedOn
    {
      assert r[j] == t[j - 1];
      if i > 0 {
        assert r[i] == t[i - 1];
      }
    }
  }

  /** Inserts `a` ahead of the first row that is not newer than it. */
  function InsertByDate(a: Assignment, s: Store): (r: Store)
    requires NewestFirst(s)
    ensures NewestFirst(r)
    ensures multiset(r) == multiset(s) + multiset{a}
    ensures |r| == |s| + 1
  {
    if |s| == 0 || s[0].submittedOn <= a.submittedOn then
      ConsNewest(a, s);
      [a] + s
    else
      var tail := InsertByDate(a, s[1..]);
      assert s == [s[0]] + s[1..];
      HeadNewest(s);
      assert forall k :: 0 <= k < |tail| ==> tail[k].submittedOn <= s[0].submittedOn by {
        forall k | 0 <= k < |tail|
          ensures tail[k].submittedOn <= s[0].submittedOn
        {
          assert tail[k] in multiset(tail);
        }
      }
      ConsNewest(s[0], tail);
      [s[0]] + tail
  }

  /** `.sort(\.$submittedOn, .descending)`: a stable insertion sort, so rows
      with equal timestamps keep their table order. */
  function SortNewestFirst(s: Store): (r: Store)
    ensures NewestFirst(r)
    ensures multiset(r) == multiset(s)
    ensures |r| == |s|
  {
    if |s| == 0 then []
    else
      assert s == [s[0]] + s[1..];
      InsertByDate(s[0], SortNewestFirst(s[1..]))
  }

  /** A query: `filter`, then `sort` newest first, then `limit` if any. */
  datatype Query = Query(filter: Filter, limit: Option<nat>)

  /** A prefix of a newest-first list is newest first, draws on the list,
      and is newer than everything of the list it leaves out. */
  lemma PrefixOfNewestFirst(sorted: Store, n: nat)
    requires NewestFirst(sorted)
    requires n <= |sorted|
    ensures NewestFirst(sorted[..n])
    ensures multiset(sorted[..n]) <= multiset(sorted)
  {
    assert sorted == sorted[..n] + sorted[n..];
    assert multiset(sorted) == multiset(sorted[..n]) + multiset(sorted[n..]);
  }

  /** The rows a filter keeps are rows of the table, and every kept row of
      the table is among them. */
  lemma SelectMembers(s: Store, f: Filter)
    ensures multiset(Select(s, f)) <= multiset(s)
    ensures forall a :: a in Select(s, f) ==> Matches(f, a)
    ensures forall a :: a in s && Matches(f, a) ==> a in Select(s, f)
  {
    var selected := Select(s, f);
    forall a | a in selected
      ensures Matches(f, a)
    {
      assert multiset(selected)[a] > 0;
    }
    forall a | a in s && Matches(f, a)
      ensures a in selected
    {
      assert multiset(s)[a] > 0;
      assert multiset(selected)[a] > 0;
    }
  }

  /** Sorting the kept rows keeps them rows of the table that match. */
  lemma SortedSelect(s: Store, f: Filter)
    ensures multiset(SortNewestFirst(Select(s, f))) <= multiset(s)
    ensures forall i :: 0 <= i < |SortNewestFirst(Select(s, f))| ==>
      Matches(f, SortNewestFirst(Select(s, f))[i])
  {
    var sorted := SortNewestFirst(Select(s, f));
    SelectMembers(s, f);
    forall i | 0 <= i < |sorted|
      ensures Matches(f, sorted[i])
    {
      assert sorted[i] in multiset(sorted);
    }
  }

  /** The optional `LIMIT`: the first `n` rows, or all of them when there
      are fewer or no limit is given. */
  function Limit(sorted: Store, limit: Option<nat>): (r: Store)
    requires NewestFirst(sorted)
    ensures NewestFirst(r)
    ensures multiset(r) <= multiset(sorted)
    ensures |r| <= |sorted|
    ensures forall i :: 0 <= i < |r| ==> r[i] == sorted[i]
    ensures limit.None? ==> |r| == |sorted|
    ensures limit.Some? ==> |r| == if limit.value < |sorted| then limit.value else |sorted|
  {
    match limit
    case None => sorted
    case Some(n) =>
      if |sorted| <= n then sorted
      else
        PrefixOfNewestFirst(sorted, n);
        sorted[..n]
  }

  /** A query returns matching rows of the table, newest first, as many as
      match up to the limit. */
  function Run(s: Store, q: Query): (r: Store)
    ensures NewestFirst(r)
    ensures multiset(r) <= multiset(s)
    ensures forall i :: 0 <= i < |r| ==> Matches(q.filter, r[i])
    ensures q.limit.None? ==> |r| == |Select(s, q.filter)|
    ensures q.limit.Some? ==>
      |r| == if q.limit.value < |Select(s, q.filter)| then q.limit.value else |Select(s, q.filter)|
  {
    var sorted := SortNewestFirst(Select(s, q.filter));
    SortedSelect(s, q.filter);
    var r := Limit(sorted, q.limit);
    assert multiset(r) <= multiset(sorted) <= multiset(s);
    r
  }
}
