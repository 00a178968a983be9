/** The `/api/assignments` handlers, each a pure function of the table and
    the already-decoded request parts. */
module AssignmentController {
  import opened Wrappers
  import opened Models
  import opened Http
  import opened Database

  /** The fixed page size of `get` and `scheduled`. */
  const PageSize: nat := 20

  /** How a POST body decoded: as one assignment, as an array of them, or as
      neither. A JSON body is an object or an array, never both. */
  datatype Body = Obj(item: Assignment) | Arr(items: seq<Assignment>) | Invalid

  function Min(a: nat, b: nat): nat {
    if a <= b then a else b
  }

  /** `r` holds exactly the rows of `s` that `f` keeps, each as often as in
      `s`, newest first. */
  ghost predicate Listing(r: Store, s: Store, f: Filter) {
    && NewestFirst(r)
    && forall a :: multiset(r)[a] == if Matches(f, a) then multiset(s)[a] else 0
  }

  /** `r` holds the `limit` newest rows of `s` that `f` keeps (all of them
      when fewer match), newest first: no kept row left out is newer than a
      row returned. */
  ghost predicate Page(r: Store, s: Store, f: Filter, limit: nat) {
    && NewestFirst(r)
    && |r| == Min(limit, |Select(s, f)|)
    && multiset(r) <= multiset(s)
    && (forall a :: a in r ==> Matches(f, a))
    && (forall a :: a in s && Matches(f, a) && a !in r ==>
          forall k :: 0 <= k < |r| ==> a.submittedOn <= r[k].submittedOn)
  }

  /** An unlimited query lists exactly the filtered rows, newest first. */
  lemma RunListing(s: Store, f: Filter)
    ensures Listing(Run(s, Query(f, None)), s, f)
  {
  }

  /** A row of a newest-first list that its prefix leaves out is no newer
      than any row of the prefix. */
  lemma PrefixNewer(sorted: Store, n: nat, a: Assignment)
    requires NewestFirst(sorted)
    requires n <= |sorted|
    requires a in sorted && a !in sorted[..n]
    ensures forall k :: 0 <= k < n ==> a.submittedOn <= sorted[k].submittedOn
  {
    var j :| 0 <= j < |sorted| && sorted[j] == a;
    assert j >= n;
  }

  /** A kept row that a limited query leaves out is no newer than any row
      it returns. */
  lemma RunPageLeftOut(s: Store, f: Filter, n: nat, a: Assignment)
    requires a in s && Matches(f, a)
    requires a !in Run(s, Query(f, Some(n)))
    ensures forall k :: 0 <= k < |Run(s, Query(f, Some(n)))| ==>
      a.submittedOn <= Run(s, Query(f, Some(n)))[k].submittedOn
  {
    var selected := Select(s, f);
    var sorted := SortNewestFirst(selected);
    var r := Run(s, Query(f, Some(n)));
    assert r == sorted[..|r|];
    assert multiset(selected)[a] > 0;
    assert a in multiset(sorted);
    PrefixNewer(sorted, |r|, a);
  }

  /** No kept row that a limited query leaves out is newer than a row it
      returns. */
  lemma RunPageNewest(s: Store, f: Filter, n: nat)
    ensures var r := Run(s, Query(f, Some(n)));
      forall a :: a in s && Matches(f, a) && a !in r ==>
        forall k :: 0 <= k < |r| ==> a.submittedOn <= r[k].submittedOn
  {
    forall a | a in s && Matches(f, a) && a !in Run(s, Query(f, Some(n))) {
      RunPageLeftOut(s, f, n, a);
    }
  }

  /** A limited query returns the newest filtered rows. */
  lemma RunPage(s: Store, f: Filter, n: nat)
    ensures Page(Run(s, Query(f, Some(n))), s, f, n)
  {
    var sorted := SortNewestFirst(Select(s, f));
    var r := Run(s, Query(f, Some(n)));
    assert r == sorted[..|r|];
    RunPageNewest(s, f, n);
  }

  /** GET /api/assignments: the 20 newest rows that are not hidden. */
  function Get(store: Store): (r: Store)
    ensures Page(r, store, HiddenIs(false), PageSize)
  {
    RunPage(store, HiddenIs(false), PageSize);
    Run(store, Query(HiddenIs(false), Some(PageSize)))
  }

  /** GET /api/assignments/all: every row that is not hidden, newest first. */
  function All(store: Store): (r: Store)
    ensures Listing(r, store, HiddenIs(false))
  {
    RunListing(store, HiddenIs(false));
    Run(store, Query(HiddenIs(false), None))
  }

  /** GET /api/assignments/scheduled/:scheduled: up to 20 newest rows whose
      `scheduled` flag equals the parameter. Hidden rows are not excluded. */
  function Scheduled(store: Store, raw: Option<string>): (r: Outcome<Store>)
    ensures FlagParam(raw).None? ==> r == Abort(BadFlag("scheduled"))
    ensures FlagParam(raw).Some? ==>
      r.Ok? && Page(r.value, store, ScheduledIs(FlagParam(raw).value), PageSize)
  {
    match FlagParam(raw)
    case None => Abort(BadFlag("scheduled"))
    case Some(b) =>
      RunPage(store, ScheduledIs(b), PageSize);
      Ok(Run(store, Query(ScheduledIs(b), Some(PageSize))))
  }

  /** GET /api/assignments/hidden: every hidden row, newest first. */
  function Hidden(store: Store): (r: Store)
    ensures Listing(r, store, HiddenIs(true))
  {
    RunListing(store, HiddenIs(true));
    Run(store, Query(HiddenIs(true), None))
  }

  /** GET /api/assignments/:id. */
  function Single(store: Store, id: Option<Uuid>): (r: Outcome<Assignment>)
    ensures id.None? ==> r == Abort(BadId)
    ensures id.Some? ==>
      (r.Ok? <==> exists i :: 0 <= i < |store| && store[i].id == id)
    ensures id.Some? && !r.Ok? ==> r == Abort(MissingRecord)
    ensures r.Ok? ==> r.value in store && r.value.id == id
  {
    match id
    case None => Abort(BadId)
    case Some(u) =>
      match IndexOf(store, u)
      case None => Abort(MissingRecord)
      case Some(k) => Ok(store[k])
  }

  /** The `save` of `create`: every failure becomes 400, since a failed save
      of a decoded object lands in the catch that then tries (and fails) to
      decode the object body as an array. */
  function SaveOne(store: Store, a: Assignment): (rep: Reply<Assignment>)
    ensures rep.outcome.Ok? <==> a.id.None? || IndexOf(store, a.id.value).None?
    ensures !rep.outcome.Ok? ==> rep == Reply(Abort(BadBody), store)
    ensures rep.outcome.Ok? ==>
      && rep.store == store + [rep.outcome.value]
      && rep.outcome.value.id.Some?
      && IndexOf(store, rep.outcome.value.id.value).None?
      && rep.outcome.value == a.(id := rep.outcome.value.id)
      && (a.id.Some? ==> rep.outcome.value.id == a.id)
  {
    match Save(store, a, [])
    case Duplicate => Reply(Abort(BadBody), store)
    case Saved(rec, s) => Reply(Ok(rec), s)
  }

  /** POST /api/assignments: a single object first, else element 0 of an
      array; an empty array traps on `assignments[0]`. */
  function Create(store: Store, body: Body): (rep: Reply<Assignment>)
    ensures body.Invalid? ==> rep == Reply(Abort(BadBody), store)
    ensures rep.outcome.Trap? <==> body.Arr? && |body.items| == 0
    ensures rep.outcome.Abort? ==> rep.outcome.fault == BadBody
    ensures !rep.outcome.Ok? ==> rep.store == store
    ensures body.Obj? ==>
      (rep.outcome.Ok? <==> body.item.id.None? || IndexOf(store, body.item.id.value).None?)
    ensures body.Arr? && |body.items| > 0 ==>
      (rep.outcome.Ok? <==> body.items[0].id.None? || IndexOf(store, body.items[0].id.value).None?)
    ensures rep.outcome.Ok? ==>
      rep.store == store + [rep.outcome.value] && rep.outcome.value.id.Some?
    ensures rep.outcome.Ok? && body.Obj? ==>
      rep.outcome.value == body.item.(id := rep.outcome.value.id)
    ensures rep.outcome.Ok? && body.Arr? ==>
      rep.outcome.value == body.items[0].(id := rep.outcome.value.id)
    ensures rep.outcome.Ok? && body.Obj? && body.item.id.Some? ==>
      rep.outcome.value.id == body.item.id
    ensures rep.outcome.Ok? && body.Arr? && body.items[0].id.Some? ==>
      rep.outcome.value.id == body.items[0].id
    ensures ValidStore(store) ==> ValidStore(rep.store)
  {
    match body
    case Obj(a) => SaveOne(store, a)
    case Arr(items) => if |items| == 0 then Reply(Trap, store) else SaveOne(store, items[0])
    case Invalid => Reply(Abort(BadBody), store)
  }

  /** Items that carry no id are all given fresh ones, so none is rejected:
      a batch stops only at an item with an id of its own. */
  lemma SaveAllWithoutIds(s: Store, items: seq<Assignment>)
    ensures (forall i :: 0 <= i < |items| ==> items[i].id.None?) ==> SaveAll(s, items).complete
  {
    SaveAllNewIds(s, items);
  }

  /** The loop of `batchCreate` over the decoded items: every item is saved
      in order; a rejected save aborts with 500 and keeps the rows already
      saved. */
  function SaveBatch(store: Store, items: seq<Assignment>): (rep: Reply<seq<Assignment>>)
    ensures rep.outcome.Ok? || rep.outcome == Abort(StoreFailure)
    ensures |store| <= |rep.store| && rep.store[..|store|] == store
    ensures SavedRows(items, rep.store[|store|..])
    ensures rep.outcome.Ok? ==>
      |rep.store| == |store| + |items| && rep.outcome.value == rep.store[|store|..]
    ensures !rep.outcome.Ok? ==>
      && |rep.store| < |store| + |items|
      && items[|rep.store| - |store|].id.Some?
      && IndexOf(rep.store, items[|rep.store| - |store|].id.value).Some?
    ensures NewIds(store, items) ==> rep.outcome.Ok?
    ensures (forall i :: 0 <= i < |items| ==> items[i].id.None?) ==> rep.outcome.Ok?
    ensures ValidStore(store) ==> ValidStore(rep.store)
  {
    var b := SaveAll(store, items);
    assert b.store[..|store|] == store && b.store[|store|..] == b.saved;
    SaveAllRows(store, items);
    assert !b.complete ==>
      && items[|b.store| - |store|].id.Some?
      && IndexOf(b.store, items[|b.store| - |store|].id.value).Some? by {
      SaveAllStop(store, items);
      assert |b.store| - |store| == |b.saved|;
    }
    assert NewIds(store, items) ==> b.complete by {
      SaveAllNewIds(store, items);
    }
    assert (forall i :: 0 <= i < |items| ==> items[i].id.None?) ==> b.complete by {
      SaveAllWithoutIds(store, items);
    }
    if b.complete then Reply(Ok(b.saved), b.store) else Reply(Abort(StoreFailure), b.store)
  }

  /** POST /api/assignments/batch: an undecodable body is 400 before any
      save; otherwise the decoded items are saved as `SaveBatch` states. */
  function BatchCreate(store: Store, body: Option<seq<Assignment>>): (rep: Reply<seq<Assignment>>)
    ensures body.None? ==> rep == Reply(Abort(BadBody), store)
    ensures body.Some? ==> rep.outcome.Ok? || rep.outcome == Abort(StoreFailure)
    ensures |store| <= |rep.store| && rep.store[..|store|] == store
    ensures body.Some? ==> SavedRows(body.value, rep.store[|store|..])
    ensures rep.outcome.Ok? ==>
      |rep.store| == |store| + |body.value| && rep.outcome.value == rep.store[|store|..]
    ensures rep.outcome == Abort(StoreFailure) ==> |rep.store| < |store| + |body.value|
    ensures rep.outcome == Abort(StoreFailure) ==>
      body.value[|rep.store| - |store|].id.Some? &&
      IndexOf(rep.store, body.value[|rep.store| - |store|].id.value).Some?
    ensures body.Some? && NewIds(store, body.value) ==> rep.outcome.Ok?
    ensures body.Some? && (forall i :: 0 <= i < |body.value| ==> body.value[i].id.None?) ==>
      rep.outcome.Ok?
    ensures ValidStore(store) ==> ValidStore(rep.store)
  {
    match body
    case None => Reply(Abort(BadBody), store)
    case Some(items) => SaveBatch(store, items)
  }

  /** POST /api/assignments/:id/hide/:hidden. */
  function Hide(store: Store, id: Option<Uuid>, raw: Option<string>): (rep: Reply<()>)
    ensures id.None? ==> rep == Reply(Abort(BadId), store)
    ensures id.Some? && FlagParam(raw).None? ==> rep == Reply(Abort(BadFlag("hidden")), store)
    ensures rep.outcome.Ok? <==>
      id.Some? && FlagParam(raw).Some? && exists j :: 0 <= j < |store| && store[j].id == id
    ensures id.Some? && FlagParam(raw).Some? && !rep.outcome.Ok? ==> rep.outcome == Abort(MissingRecord)
    ensures !rep.outcome.Ok? ==> rep.store == store
    ensures rep.outcome.Ok? ==>
      id.Some? && FlagParam(raw).Some? && IndexOf(store, id.value).Some? &&
      var k := IndexOf(store, id.value).value;
      && |rep.store| == |store|
      && rep.store[k] == store[k].(hidden := FlagParam(raw).value)
      && forall j :: 0 <= j < |store| && j != k ==> rep.store[j] == store[j]
    ensures ValidStore(store) ==> ValidStore(rep.store)
  {
    match id
    case None => Reply(Abort(BadId), store)
    case Some(u) =>
      match FlagParam(raw)
      case None => Reply(Abort(BadFlag("hidden")), store)
      case Some(h) =>
        match IndexOf(store, u)
        case None => Reply(Abort(MissingRecord), store)
        case Some(k) => Reply(Ok(()), store[k := store[k].(hidden := h)])
  }

  /** POST /api/assignments/:id/schedule/:scheduled. */
  function Schedule(store: Store, id: Option<Uuid>, raw: Option<string>): (rep: Reply<()>)
    ensures id.None? ==> rep == Reply(Abort(BadId), store)
    ensures id.Some? && FlagParam(raw).None? ==> rep == Reply(Abort(BadFlag("scheduled")), store)
    ensures rep.outcome.Ok? <==>
      id.Some? && FlagParam(raw).Some? && exists j :: 0 <= j < |store| && store[j].id == id
    ensures id.Some? && FlagParam(raw).Some? && !rep.outcome.Ok? ==> rep.outcome == Abort(MissingRecord)
    ensures !rep.outcome.Ok? ==> rep.store == store
    ensures rep.outcome.Ok? ==>
      id.Some? && FlagParam(raw).Some? && IndexOf(store, id.value).Some? &&
      var k := IndexOf(store, id.value).value;
      && |rep.store| == |store|
      && rep.store[k] == store[k].(scheduled := FlagParam(raw).value)
      && forall j :: 0 <= j < |store| && j != k ==> rep.store[j] == store[j]
    ensures ValidStore(store) ==> ValidStore(rep.store)
  {
    match id
    case None => Reply(Abort(BadId), store)
    case Some(u) =>
      match FlagParam(raw)
      case None => Reply(Abort(BadFlag("scheduled")), store)
      case Some(b) =>
        match IndexOf(store, u)
        case None => Reply(Abort(MissingRecord), store)
        case Some(k) => Reply(Ok(()), store[k := store[k].(scheduled := b)])
  }

  // ------------------------------------------------- handlers read back

  /** A created record is then found by its id, as it was returned. */
  lemma CreateThenSingle(store: Store, body: Body)
    requires ValidStore(store)
    requires Create(store, body).outcome.Ok?
    ensures var rep := Create(store, body);
      Single(rep.store, rep.outcome.value.id) == Ok(rep.outcome.value)
  {
    var rep := Create(store, body);
    IndexOfValid(rep.store, |store|);
  }

  /** After a successful hide, reading the record back shows the new flag
      and otherwise the record as it was. */
  lemma HideThenSingle(store: Store, id: Option<Uuid>, raw: Option<string>)
    requires ValidStore(store)
    requires Hide(store, id, raw).outcome.Ok?
    ensures Single(Hide(store, id, raw).store, id) ==
      Ok(store[IndexOf(store, id.value).value].(hidden := FlagParam(raw).value))
  {
    var k := IndexOf(store, id.value).value;
    IndexOfValid(Hide(store, id, raw).store, k);
  }

  /** After a successful schedule, reading the record back shows the new
      flag and otherwise the record as it was. */
  lemma ScheduleThenSingle(store: Store, id: Option<Uuid>, raw: Option<string>)
    requires ValidStore(store)
    requires Schedule(store, id, raw).outcome.Ok?
    ensures Single(Schedule(store, id, raw).store, id) ==
      Ok(store[IndexOf(store, id.value).value].(scheduled := FlagParam(raw).value))
  {
    var k := IndexOf(store, id.value).value;
    IndexOfValid(Schedule(store, id, raw).store, k);
  }
}
