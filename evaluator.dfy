/**
 * Judging a board: the catalog sorted by date (a stable sort), the id-based
 * verdicts of the Submit handler, and the date-based verdict the page shows
 * on each slot.
 */
module Evaluator {
  import opened Events
  import opened Board

  /** Dates never decrease along `s`. */
  ghost predicate SortedByDate(s: seq<Event>) {
    forall i, j :: 0 <= i < j < |s| ==> s[i].date <= s[j].date
  }

  /** No two different events of `s` share a date. */
  ghost predicate DistinctDates(s: seq<Event>) {
    forall x, y :: x in s && y in s && x.date == y.date ==> x == y
  }

  /** The events of `s` dated `d`, in their order in `s`. */
  function DatedOn(s: seq<Event>, d: int): seq<Event> {
    if s == [] then []
    else (if s[0].date == d then [s[0]] else []) + DatedOn(s[1..], d)
  }

  /** Inserts `x` ahead of the first event dated no earlier than it. */
  function Insert(x: Event, sorted: seq<Event>): (r: seq<Event>)
    ensures |r| == |sorted| + 1
    ensures multiset(r) == multiset(sorted) + multiset{x}
  {
    if sorted == [] || x.date <= sorted[0].date then [x] + sorted
    else
      assert sorted == [sorted[0]] + sorted[1..];
      [sorted[0]] + Insert(x, sorted[1..])
  }

  /**
   * `[...events].sort((a, b) => date(a) - date(b))`: the canonical order.
   * The sort is stable, as `Array.prototype.sort` is; `SortIsStable` proves it.
   */
  function SortByDate(events: seq<Event>): (sorted: seq<Event>)
    ensures SortedByDate(sorted)
    ensures multiset(sorted) == multiset(events)
    ensures |sorted| == |events|
  {
    if events == [] then []
    else
      assert events == [events[0]] + events[1..];
      var rest := SortByDate(events[1..]);
      InsertSorted(events[0], rest);
      Insert(events[0], rest)
  }

  /** `slots.every((e, i) => e?.id === order[i].id)`: every slot holds the event of its rank. */
  predicate InCanonicalOrder(slots: seq<Option<Event>>, order: seq<Event>)
    requires |order| >= |slots|
  {
    forall i :: 0 <= i < |slots| ==> Holds(slots[i], order[i].id)
  }

  /** `slots.map((e, i) => e?.id === order[i].id)`: the per-slot feedback. */
  function SlotVerdicts(slots: seq<Option<Event>>, order: seq<Event>): (verdicts: seq<bool>)
    requires |order| >= |slots|
    ensures |verdicts| == |slots|
  {
    seq(|slots|, i requires 0 <= i < |slots| => Holds(slots[i], order[i].id))
  }

  /** Every slot marked correct. */
  function AllCorrect(n: nat): (verdicts: seq<bool>)
    ensures |verdicts| == n && forall i :: 0 <= i < n ==> verdicts[i]
  {
    seq(n, _ => true)
  }

  /**
   * The render-time verdict of slot `i`
   * (`event && order[i] ? event.date === order[i].date : undefined`):
   * `None` when the slot is empty or the order has no rank `i`.
   */
  function RenderVerdict(slots: seq<Option<Event>>, order: seq<Event>, i: nat): (shown: Option<bool>)
    requires i < |slots|
    ensures shown.Some? <==> slots[i].Some? && i < |order|
  {
    if slots[i].Some? && i < |order| then Some(slots[i].value.date == order[i].date) else None
  }

  // ---------------------------------------------------------------------
  // Lemmas
  // ---------------------------------------------------------------------

  /** `DatedOn` of a sequence with a known first element. */
  lemma DatedOnCons(a: Event, s: seq<Event>, d: int)
    ensures DatedOn([a] + s, d) == (if a.date == d then [a] else []) + DatedOn(s, d)
  {
    assert ([a] + s)[1..] == s;
  }

  /** An event dated no later than every event of a sorted sequence can lead it. */
  lemma SortedCons(h: Event, t: seq<Event>)
    requires SortedByDate(t) && forall j :: 0 <= j < |t| ==> h.date <= t[j].date
    ensures SortedByDate([h] + t)
  {
    var r := [h] + t;
    forall i, j | 0 <= i < j < |r| ensures r[i].date <= r[j].date {
      assert r[j] == t[j - 1];
      if i > 0 { assert r[i] == t[i - 1]; }
    }
  }

  /** Insertion into a date-sorted sequence keeps it sorted. */
  lemma {:induction false} InsertSorted(x: Event, sorted: seq<Event>)
    requires SortedByDate(sorted)
    ensures SortedByDate(Insert(x, sorted))
  {
    if sorted != [] && sorted[0].date < x.date {
      var head, tail := sorted[0], sorted[1..];
      var rest := Insert(x, tail);
      assert SortedByDate(tail);
      InsertSorted(x, tail);
      forall j | 0 <= j < |rest| ensures head.date <= rest[j].date {
        assert rest[j] in multiset(rest);
        if rest[j] != x {
          assert rest[j] in tail;
          var k :| 0 <= k < |tail| && tail[k] == rest[j];
          assert sorted[k + 1] == tail[k];
        }
      }
      SortedCons(head, rest);
      InsertPast(x, sorted);
    }
  }

  /** Insertion passes over a first event dated earlier than `x`. */
  lemma InsertPast(x: Event, sorted: seq<Event>)
    requires sorted != [] && sorted[0].date < x.date
    ensures Insert(x, sorted) == [sorted[0]] + Insert(x, sorted[1..])
  {
  }

  /** Insertion puts `x` first among the events of its date and moves nothing else. */
  lemma {:induction false} InsertDatedOn(x: Event, sorted: seq<Event>, d: int)
    ensures DatedOn(Insert(x, sorted), d) == (if x.date == d then [x] else []) + DatedOn(sorted, d)
  {
    if sorted == [] || x.date <= sorted[0].date {
      DatedOnCons(x, sorted, d);
    } else {
      var head, rest := sorted[0], sorted[1..];
      InsertPast(x, sorted);
      InsertDatedOn(x, rest, d);
      DatedOnCons(head, Insert(x, rest), d);
      DatedOnCons(head, rest, d);
      assert sorted == [head] + rest;
    }
  }

  /** The sort is stable: events of one date keep their catalog order. */
  lemma {:induction false} SortIsStable(events: seq<Event>, d: int)
    ensures DatedOn(SortByDate(events), d) == DatedOn(events, d)
  {
    if events != [] {
      SortIsStable(events[1..], d);
      InsertDatedOn(events[0], SortByDate(events[1..]), d);
      DatedOnCons(events[0], events[1..], d);
      assert events == [events[0]] + events[1..];
    }
  }

  /** Dropping the first event keeps a sequence sorted and its dates distinct. */
  lemma SortedTail(s: seq<Event>)
    requires s != [] && SortedByDate(s)
    ensures SortedByDate(s[1..])
    ensures DistinctDates(s) ==> DistinctDates(s[1..])
  {
    assert forall y :: y in s[1..] ==> y in s;
  }

  /** The first event of a date-sorted sequence is dated no later than any of its events. */
  lemma SortedHead(s: seq<Event>, y: Event)
    requires SortedByDate(s) && y in s
    ensures s[0].date <= y.date
  {
    var k :| 0 <= k < |s| && s[k] == y;
    if k > 0 { assert s[0].date <= s[k].date; }
  }

  /** Two date-sorted permutations of one sequence with distinct dates start alike. */
  lemma SortedHeadsAgree(a: seq<Event>, b: seq<Event>)
    requires a != [] && SortedByDate(a) && SortedByDate(b) && multiset(a) == multiset(b)
    requires DistinctDates(a)
    ensures b != [] && a[0] == b[0]
  {
    assert a[0] in multiset(b);
    assert b != [];
    assert b[0] in multiset(a);
    SortedHead(b, a[0]);
    SortedHead(a, b[0]);
    assert a[0].date == b[0].date;
  }

  /** A permutation of a sequence with distinct dates has distinct dates. */
  lemma DistinctDatesPermutation(a: seq<Event>, b: seq<Event>)
    requires multiset(a) == multiset(b) && DistinctDates(b)
    ensures DistinctDates(a)
  {
    forall x, y | x in a && y in a && x.date == y.date ensures x == y {
      assert x in multiset(b) && y in multiset(b);
    }
  }

  /** Two permutations of each other that start alike continue as permutations. */
  lemma TailsPermute(a: seq<Event>, b: seq<Event>)
    requires a != [] && b != [] && a[0] == b[0] && multiset(a) == multiset(b)
    ensures multiset(a[1..]) == multiset(b[1..])
  {
    assert a == [a[0]] + a[1..] && b == [b[0]] + b[1..];
    assert multiset(a[1..]) == multiset(a) - multiset{a[0]};
    assert multiset(b[1..]) == multiset(b) - multiset{b[0]};
  }

  /** A date-sorted sequence of events with distinct dates is determined by its events. */
  lemma {:induction false} SortedUnique(a: seq<Event>, b: seq<Event>)
    requires SortedByDate(a) && SortedByDate(b) && multiset(a) == multiset(b)
    requires DistinctDates(a)
    ensures a == b
  {
    if a == [] {
      assert |multiset(b)| == 0;
    } else {
      SortedHeadsAgree(a, b);
      TailsPermute(a, b);
      SortedTail(a);
      SortedTail(b);
      SortedUnique(a[1..], b[1..]);
      assert a == [a[0]] + a[1..] && b == [b[0]] + b[1..];
    }
  }

  /** The feedback marks every slot correct exactly when the board is in canonical order. */
  lemma VerdictsAgree(slots: seq<Option<Event>>, order: seq<Event>)
    requires |order| >= |slots|
    ensures InCanonicalOrder(slots, order) <==> SlotVerdicts(slots, order) == AllCorrect(|slots|)
    ensures forall i :: 0 <= i < |slots| ==>
      (SlotVerdicts(slots, order)[i] <==> Holds(slots[i], order[i].id))
  {
    if InCanonicalOrder(slots, order) {
      assert SlotVerdicts(slots, order) == AllCorrect(|slots|);
    }
    if SlotVerdicts(slots, order) == AllCorrect(|slots|) {
      forall i | 0 <= i < |slots| ensures Holds(slots[i], order[i].id) {
        assert SlotVerdicts(slots, order)[i];
      }
    }
  }

  /** Under the invariant the event of every filled slot belongs to the catalog. */
  lemma InCatalog(events: seq<Event>, slots: seq<Option<Event>>, available: seq<Event>, i: nat)
    requires Conserved(events, slots, available)
    requires i < |slots| && slots[i].Some?
    ensures slots[i].value in events
  {
    PlacedMembers(slots, slots[i].value);
    assert slots[i].value in multiset(Placed(slots) + available);
  }

  /**
   * On a full board that keeps the invariant, the answer is accepted exactly
   * when the slots hold the first events of the canonical order, rank for rank.
   */
  lemma AcceptedIffCanonical(events: seq<Event>, slots: seq<Option<Event>>, available: seq<Event>)
    requires Conserved(events, slots, available) && None !in slots
    ensures |events| >= |slots|
    ensures InCanonicalOrder(slots, SortByDate(events)) <==> Placed(slots) == SortByDate(events)[..|slots|]
  {
    var order := SortByDate(events);
    ConservedDistinct(events, slots, available);
    PlacedFull(slots);
    if InCanonicalOrder(slots, order) {
      forall i | 0 <= i < |slots| ensures Placed(slots)[i] == order[i] {
        InCatalog(events, slots, available, i);
        assert order[i] in multiset(events);
        SameIdSameEvent(events, slots[i].value, order[i]);
      }
    }
    if Placed(slots) == order[..|slots|] {
      forall i | 0 <= i < |slots| ensures Holds(slots[i], order[i].id) {
        assert Placed(slots)[i] == order[i];
      }
    }
  }

  /** An accepted board lists its events in chronological order. */
  lemma AcceptedIsChronological(events: seq<Event>, slots: seq<Option<Event>>, available: seq<Event>)
    requires Conserved(events, slots, available) && None !in slots
    requires |events| >= |slots| && InCanonicalOrder(slots, SortByDate(events))
    ensures SortedByDate(Placed(slots))
  {
    AcceptedIffCanonical(events, slots, available);
  }

  /**
   * With a catalog of exactly five events on distinct dates, a full board is
   * accepted exactly when its events are in chronological order.
   */
  lemma ChronologicalIsAccepted(events: seq<Event>, slots: seq<Option<Event>>, available: seq<Event>)
    requires Conserved(events, slots, available) && None !in slots
    requires |events| == |slots| && DistinctDates(events)
    ensures InCanonicalOrder(slots, SortByDate(events)) <==> SortedByDate(Placed(slots))
  {
    var order := SortByDate(events);
    var placed := Placed(slots);
    AcceptedIffCanonical(events, slots, available);
    assert order[..|slots|] == order;
    if SortedByDate(placed) {
      ConservedDistinct(events, slots, available);
      PlacedFull(slots);
      assert available == [];
      assert placed + available == placed;
      DistinctDatesPermutation(order, events);
      SortedUnique(order, placed);
    }
  }

  /**
   * The date-based render verdict never contradicts the id-based feedback:
   * a slot holding the event of its rank is shown correct.
   */
  lemma IdMatchShownCorrect(events: seq<Event>, slots: seq<Option<Event>>, available: seq<Event>, i: nat)
    requires Conserved(events, slots, available)
    requires i < |slots| && i < |events| && Holds(slots[i], SortByDate(events)[i].id)
    ensures RenderVerdict(slots, SortByDate(events), i) == Some(true)
  {
    var order := SortByDate(events);
    InCatalog(events, slots, available, i);
    assert order[i] in multiset(events);
    SameIdSameEvent(events, slots[i].value, order[i]);
  }

  /** When no two catalog events share a date, the two verdicts agree on every filled slot. */
  lemma VerdictsAgreeOnDistinctDates(events: seq<Event>, slots: seq<Option<Event>>, available: seq<Event>, i: nat)
    requires Conserved(events, slots, available) && DistinctDates(events)
    requires i < |slots| && i < |events| && slots[i].Some?
    ensures RenderVerdict(slots, SortByDate(events), i) == Some(Holds(slots[i], SortByDate(events)[i].id))
  {
    var order := SortByDate(events);
    InCatalog(events, slots, available, i);
    assert order[i] in multiset(events);
    if slots[i].value.date == order[i].date {
      assert slots[i].value == order[i];
    } else {
      assert slots[i].value != order[i];
      if slots[i].value.id == order[i].id {
        SameIdSameEvent(events, slots[i].value, order[i]);
      }
    }
  }

  /**
   * The two verdicts part ways on tied dates: a slot holding another event
   * of the date of its rank is shown correct, yet Submit counts it wrong.
   */
  lemma TiedDatesDisagree(events: seq<Event>, slots: seq<Option<Event>>, available: seq<Event>, i: nat)
    requires Conserved(events, slots, available)
    requires i < |slots| && i < |events| && slots[i].Some?
    requires slots[i].value.date == SortByDate(events)[i].date && slots[i].value != SortByDate(events)[i]
    ensures RenderVerdict(slots, SortByDate(events), i) == Some(true)
    ensures !Holds(slots[i], SortByDate(events)[i].id)
  {
    var order := SortByDate(events);
    InCatalog(events, slots, available, i);
    assert order[i] in multiset(events);
  }

  /** Two events on one date, the later one of the catalog placed first: shown correct, judged wrong. */
  lemma TiedDatesExample()
    ensures var events, slots := [Event("a", 1), Event("b", 1)], [Some(Event("b", 1))];
      RenderVerdict(slots, SortByDate(events), 0) == Some(true) && !Holds(slots[0], SortByDate(events)[0].id)
  {
    var a, b := Event("a", 1), Event("b", 1);
    assert SortByDate([b]) == [b];
    assert Insert(a, [b]) == [a, b];
    assert [a, b][1..] == [b];
    assert SortByDate([a, b]) == [a, b];
  }
}
