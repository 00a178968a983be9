/** POST /api/events: reconcile a calendar event with the assignment whose
    address matches it best. */
module CalendarEventController {
  import opened Wrappers
  import opened Models
  import opened Http
  import opened CollectionOptional

  /** One hit of the fuzzy matcher: a position in the address list and its
      score. Only `>` is ever applied to scores. */
  datatype MatchResult = MatchResult(index: int, score: real)

  /** The fuzzy matcher, given the query and the candidate addresses. Its
      scoring is not part of this model; it is any deterministic function. */
  type Matcher = (string, seq<string>) -> seq<MatchResult>

  /** The running best of the search: the highest score so far and its index. */
  datatype Best = Best(score: real, index: int)

  /** The search starts below every accepted score with no index. */
  const Start: Best := Best(0.0, -1)

  /** One step of the `forEach`: take the result only on a strictly greater
      score. */
  function Step(best: Best, m: MatchResult): Best {
    if m.score > best.score then Best(m.score, m.index) else best
  }

  function Fold(best: Best, rs: seq<MatchResult>): Best
    decreases |rs|
  {
    if |rs| == 0 then best else Fold(Step(best, rs[0]), rs[1..])
  }

  /** Position `i` holds the maximal score and no earlier position reaches it. */
  ghost predicate FirstMax(rs: seq<MatchResult>, i: int) {
    && 0 <= i < |rs|
    && (forall j :: 0 <= j < |rs| ==> rs[j].score <= rs[i].score)
    && (forall j :: 0 <= j < i ==> rs[j].score < rs[i].score)
  }

  /** Every non-empty result sequence has a first maximal position. */
  lemma {:induction false} FirstMaxExists(rs: seq<MatchResult>)
    requires |rs| > 0
    ensures exists i :: FirstMax(rs, i)
    decreases |rs|
  {
    if |rs| == 1 {
      assert FirstMax(rs, 0);
    } else {
      var tail := rs[1..];
      FirstMaxExists(tail);
      var i' :| FirstMax(tail, i');
      assert forall j :: 1 <= j < |rs| ==> rs[j] == tail[j - 1];
      if rs[0].score >= tail[i'].score {
        assert FirstMax(rs, 0);
      } else {
        assert FirstMax(rs, i' + 1);
      }
    }
  }

  /** From any running best, the fold keeps it when nothing beats it, and
      otherwise ends on the first result of maximal score. */
  lemma {:induction false} FoldFindsFirstMax(best: Best, rs: seq<MatchResult>)
    ensures (forall j :: 0 <= j < |rs| ==> rs[j].score <= best.score) ==>
      Fold(best, rs) == best
    ensures forall i :: FirstMax(rs, i) && rs[i].score > best.score ==>
      Fold(best, rs) == Best(rs[i].score, rs[i].index)
    decreases |rs|
  {
    if |rs| > 0 {
      var tail := rs[1..];
      var next := Step(best, rs[0]);
      FoldFindsFirstMax(next, tail);
      assert Fold(best, rs) == Fold(next, tail);
      assert forall j :: 1 <= j < |rs| ==> rs[j] == tail[j - 1];
      forall i | FirstMax(rs, i) && rs[i].score > best.score
        ensures Fold(best, rs) == Best(rs[i].score, rs[i].index)
      {
        if i == 0 {
          assert next == Best(rs[0].score, rs[0].index);
          assert forall j :: 0 <= j < |tail| ==> tail[j].score <= next.score;
        } else {
          assert FirstMax(tail, i - 1);
          assert tail[i - 1].score > next.score;
        }
      }
    }
  }

  /** `search(for:in:)`: -1 when no score exceeds 0.0 (in particular when
      there are no results), and otherwise the index of the first result with
      the highest score. */
  function Search(rs: seq<MatchResult>): (k: int)
    ensures (forall j :: 0 <= j < |rs| ==> rs[j].score <= 0.0) ==> k == -1
    ensures forall i :: FirstMax(rs, i) && rs[i].score > 0.0 ==> k == rs[i].index
  {
    FoldFindsFirstMax(Start, rs);
    Fold(Start, rs).index
  }

  /** A score above 0.0 means a winning result exists. */
  lemma SearchHasWinner(rs: seq<MatchResult>)
    requires exists j :: 0 <= j < |rs| && rs[j].score > 0.0
    ensures exists i :: FirstMax(rs, i) && rs[i].score > 0.0 && Search(rs) == rs[i].index
  {
    FirstMaxExists(rs);
    var i :| FirstMax(rs, i);
    var j :| 0 <= j < |rs| && rs[j].score > 0.0;
    assert rs[i].score >= rs[j].score;
  }

  /** With indices that are real positions, -1 means exactly that nothing
      scored above 0.0. */
  lemma SearchNoMatch(rs: seq<MatchResult>)
    requires forall j :: 0 <= j < |rs| ==> rs[j].index >= 0
    ensures Search(rs) == -1 <==> forall j :: 0 <= j < |rs| ==> rs[j].score <= 0.0
  {
    if exists j :: 0 <= j < |rs| && rs[j].score > 0.0 {
      SearchHasWinner(rs);
    }
  }

  /** The addresses of the rows, in table order. */
  function Addresses(store: Store): (r: seq<string>)
    ensures |r| == |store|
    ensures forall i :: 0 <= i < |store| ==> r[i] == store[i].address
  {
    seq(|store|, i requires 0 <= i < |store| => store[i].address)
  }

  /** The position the event's address selects among the current rows. */
  function Target(store: Store, event: CalendarEvent, matcher: Matcher): (k: int)
    ensures var rs := matcher(event.address, Addresses(store));
      (forall j :: 0 <= j < |rs| ==> rs[j].score <= 0.0) ==> k == -1
    ensures var rs := matcher(event.address, Addresses(store));
      forall i :: FirstMax(rs, i) && rs[i].score > 0.0 ==> k == rs[i].index
  {
    Search(matcher(event.address, Addresses(store)))
  }

  /** The handler. `payload` is `None` when the body is not a calendar event. */
  function Update(store: Store, payload: Option<CalendarEvent>, matcher: Matcher): (rep: Reply<Assignment>)
    ensures payload.None? ==> rep == Reply(Abort(BadEvent), store)
    ensures payload.Some? ==> rep.outcome.Ok? || rep.outcome == Abort(NoMatch)
    ensures payload.Some? ==>
      (rep.outcome.Ok? <==> 0 <= Target(store, payload.value, matcher) < |store|)
    ensures !rep.outcome.Ok? ==> rep.store == store
    ensures rep.outcome.Ok? ==>
      payload.Some? && 0 <= Target(store, payload.value, matcher) < |store| &&
      var k := Target(store, payload.value, matcher);
      && |rep.store| == |store|
      && rep.store[k].scheduled == (payload.value.status == "confirmed")
      && rep.store[k] == store[k].(scheduled := rep.store[k].scheduled)
      && (forall j :: 0 <= j < |store| && j != k ==> rep.store[j] == store[j])
      && rep.outcome.value == rep.store[k]
    ensures ValidStore(store) ==> ValidStore(rep.store)
  {
    match payload
    case None => Reply(Abort(BadEvent), store)
    case Some(event) =>
      var k := Target(store, event, matcher);
      match At(store, k)
      case None => Reply(Abort(NoMatch), store)
      case Some(a) =>
        var updated := a.(scheduled := event.status == "confirmed");
        Reply(Ok(updated), store[k := updated])
  }

  /** A successful update changed the record at the position of the first
      best-scoring match, which scored above 0.0. */
  lemma UpdateSelectsBestMatch(store: Store, payload: Option<CalendarEvent>, matcher: Matcher)
    requires Update(store, payload, matcher).outcome.Ok?
    ensures payload.Some?
    ensures var rs := matcher(payload.value.address, Addresses(store));
      exists i :: FirstMax(rs, i) && rs[i].score > 0.0 && 0 <= rs[i].index < |store| &&
        Update(store, payload, matcher).outcome.value.id == store[rs[i].index].id
  {
    var rs := matcher(payload.value.address, Addresses(store));
    if exists j :: 0 <= j < |rs| && rs[j].score > 0.0 {
      SearchHasWinner(rs);
    }
  }

  /** Reconciling the same event twice leaves table and reply as after the
      first time: addresses never change, so the second search picks the same
      row, and the flag it sets already has that value. */
  lemma UpdateIdempotent(store: Store, payload: Option<CalendarEvent>, matcher: Matcher)
    ensures var once := Update(store, payload, matcher);
      Update(once.store, payload, matcher) == once
  {
    var once := Update(store, payload, matcher);
    if once.outcome.Ok? {
      assert Addresses(once.store) == Addresses(store);
    }
  }
}
