/**
 * The puzzle board as values: five ordered slots, each empty or holding an
 * event, and the pool of events not yet placed. This module states what the
 * page's handlers compute (as functions of the board they start from) and
 * proves the board's conservation invariant for each of them.
 */
module Board {
  import opened Events

  /** The page always shows five slots (`Array(5).fill(null)`). */
  const SlotCount := 5

  /** `slot?.id === id`: the slot is filled with an event carrying `id`. */
  predicate Holds(slot: Option<Event>, id: string) {
    slot.Some? && slot.value.id == id
  }

  /** The event of a filled slot, as a sequence of zero or one events. */
  function Held(slot: Option<Event>): seq<Event> {
    if slot.Some? then [slot.value] else []
  }

  /** `slots.filter(Boolean)`: the events of the filled slots, in slot order. */
  function Placed(slots: seq<Option<Event>>): (placed: seq<Event>)
    ensures |placed| <= |slots|
  {
    if slots == [] then []
    else Held(slots[0]) + Placed(slots[1..])
  }

  /** `slots.findIndex(e => e?.id === id)`: the first slot holding `id`, or -1. */
  function FindSlot(slots: seq<Option<Event>>, id: string): (k: int)
    ensures -1 <= k < |slots|
    ensures k == -1 <==> forall i :: 0 <= i < |slots| ==> !Holds(slots[i], id)
    ensures 0 <= k ==> Holds(slots[k], id) && forall i :: 0 <= i < k ==> !Holds(slots[i], id)
  {
    if |slots| == 0 then -1
    else if Holds(slots[0], id) then 0
    else
      var k := FindSlot(slots[1..], id);
      if k == -1 then -1 else k + 1
  }

  /** `slots.findIndex(s => s === null)`: the first empty slot, or -1. */
  function FindEmpty(slots: seq<Option<Event>>): (k: int)
    ensures -1 <= k < |slots|
    ensures k == -1 <==> None !in slots
    ensures 0 <= k ==> slots[k] == None && None !in slots[..k]
  {
    if |slots| == 0 then -1
    else if slots[0] == None then 0
    else
      var k := FindEmpty(slots[1..]);
      assert k != -1 ==> slots[..k + 1] == [slots[0]] + slots[1..][..k];
      if k == -1 then -1 else k + 1
  }

  /**
   * The board invariant: the catalog's ids are distinct, and the events of
   * the filled slots together with the pool are exactly the catalog's
   * events, each once.
   */
  ghost predicate Conserved(events: seq<Event>, slots: seq<Option<Event>>, available: seq<Event>) {
    DistinctIds(events) && multiset(Placed(slots) + available) == multiset(events)
  }

  // ---------------------------------------------------------------------
  // Placing an event (handleDrop)
  // ---------------------------------------------------------------------

  /** The slots after dropping `event` on slot `index`: its previous slot, if any, is vacated. */
  function DropSlots(slots: seq<Option<Event>>, event: Event, index: nat): (r: seq<Option<Event>>)
    requires index < |slots|
    ensures |r| == |slots| && r[index] == Some(event)
    ensures forall k :: 0 <= k < |slots| && k != index ==>
      r[k] == if k == FindSlot(slots, event.id) then None else slots[k]
  {
    var from := FindSlot(slots, event.id);
    var vacated := if from != -1 then slots[from := None] else slots;
    vacated[index := Some(event)]
  }

  /**
   * The pool after dropping `event` on slot `index`: when the event came from
   * the pool its first copy leaves it, and an occupant displaced from the
   * target slot is appended.
   */
  function DropAvailable(slots: seq<Option<Event>>, available: seq<Event>, event: Event, index: nat): (r: seq<Event>)
    requires index < |slots|
  {
    var from := FindSlot(slots, event.id);
    var vacated := if from != -1 then slots[from := None] else slots;
    var pool :=
      if from != -1 then available
      else
        var a := FindById(available, event.id);
        if a != -1 then Splice(available, a) else available;
    pool + Held(vacated[index])
  }

  // ---------------------------------------------------------------------
  // Deduplicating the pool (handleRemoveFromSlot)
  // ---------------------------------------------------------------------

  /** The events of `s` whose id is not in `seen` and not held by an earlier event of `s`. */
  function FirstOccurrencesFrom(s: seq<Event>, seen: set<string>): seq<Event> {
    if s == [] then []
    else if s[0].id in seen then FirstOccurrencesFrom(s[1..], seen)
    else [s[0]] + FirstOccurrencesFrom(s[1..], seen + {s[0].id})
  }

  /** The filter over a `seen` set: the first event of `s` for each id, in order. */
  function FirstOccurrences(s: seq<Event>): seq<Event> {
    FirstOccurrencesFrom(s, {})
  }

  /** The pool after slot `index` is emptied: its event, if any, is appended and repeated ids dropped. */
  function RemoveAvailable(slots: seq<Option<Event>>, available: seq<Event>, index: nat): seq<Event>
    requires index < |slots|
  {
    if slots[index].Some? then FirstOccurrences(available + [slots[index].value]) else available
  }

  // ---------------------------------------------------------------------
  // Resetting the board (resetBoard)
  // ---------------------------------------------------------------------

  /** `events.filter(e => !slots.some(slot => slot?.id === e.id))`. */
  function Unplaced(events: seq<Event>, slots: seq<Option<Event>>): (r: seq<Event>)
    ensures |r| <= |events|
  {
    if events == [] then []
    else
      (if FindSlot(slots, events[0].id) == -1 then [events[0]] else []) + Unplaced(events[1..], slots)
  }

  // ---------------------------------------------------------------------
  // Lemmas
  // ---------------------------------------------------------------------

  /** An event is placed exactly when some slot holds it. */
  lemma {:induction false} PlacedMembers(slots: seq<Option<Event>>, e: Event)
    ensures e in Placed(slots) <==> Some(e) in slots
  {
    if slots != [] {
      assert Placed(slots) == Held(slots[0]) + Placed(slots[1..]);
      assert slots == [slots[0]] + slots[1..];
      PlacedMembers(slots[1..], e);
    }
  }

  /** A board of empty slots has nothing placed. */
  lemma PlacedNone(slots: seq<Option<Event>>)
    requires forall k :: 0 <= k < |slots| ==> slots[k] == None
    ensures Placed(slots) == []
  {
    var placed := Placed(slots);
    if placed != [] {
      PlacedMembers(slots, placed[0]);
    }
  }

  /** On a full board `Placed` lists the slots' events position by position. */
  lemma {:induction false} PlacedFull(slots: seq<Option<Event>>)
    requires None !in slots
    ensures |Placed(slots)| == |slots|
    ensures forall k :: 0 <= k < |slots| ==> Placed(slots)[k] == slots[k].value
  {
    if slots != [] {
      assert Placed(slots) == [slots[0].value] + Placed(slots[1..]);
      assert None !in slots[1..];
      PlacedFull(slots[1..]);
    }
  }

  /** `Placed` distributes over concatenation. */
  lemma {:induction false} PlacedConcat(a: seq<Option<Event>>, b: seq<Option<Event>>)
    ensures Placed(a + b) == Placed(a) + Placed(b)
  {
    if a != [] {
      assert (a + b)[1..] == a[1..] + b;
      PlacedConcat(a[1..], b);
    } else {
      assert a + b == b;
    }
  }

  /** Overwriting one slot swaps that slot's event for the new one in `Placed`. */
  lemma PlacedUpdate(slots: seq<Option<Event>>, k: nat, x: Option<Event>)
    requires k < |slots|
    ensures multiset(Placed(slots[k := x])) + multiset(Held(slots[k])) ==
            multiset(Placed(slots)) + multiset(Held(x))
  {
    var before, after := slots[..k], slots[k + 1..];
    assert slots == before + [slots[k]] + after;
    assert slots[k := x] == before + [x] + after;
    assert Placed([slots[k]]) == Held(slots[k]) && Placed([x]) == Held(x);
    PlacedConcat(before + [slots[k]], after);
    PlacedConcat(before, [slots[k]]);
    PlacedConcat(before + [x], after);
    PlacedConcat(before, [x]);
  }

  /**
   * Under the invariant no id appears twice among the placed events and the
   * pool, and the pool and the filled slots together count the catalog.
   */
  lemma ConservedDistinct(events: seq<Event>, slots: seq<Option<Event>>, available: seq<Event>)
    requires Conserved(events, slots, available)
    ensures DistinctIds(Placed(slots) + available)
    ensures |Placed(slots)| + |available| == |events|
  {
    var t := Placed(slots) + available;
    assert |multiset(t)| == |multiset(events)|;
    forall i, j | 0 <= i < j < |t| ensures t[i].id != t[j].id {
      if t[i].id == t[j].id {
        assert t[i] in multiset(events) && t[j] in multiset(events);
        SameIdSameEvent(events, t[i], t[j]);
        RepeatOccursTwice(t, i, j);
        DistinctOccursOnce(events, t[i]);
        assert false;
      }
    }
  }

  /** Under the invariant each event is placed at most once. */
  lemma PlacedAtMostOnce(events: seq<Event>, slots: seq<Option<Event>>, available: seq<Event>, e: Event)
    requires Conserved(events, slots, available)
    ensures multiset(Placed(slots))[e] <= 1
  {
    DistinctOccursOnce(events, e);
    assert multiset(events)[e] == multiset(Placed(slots))[e] + multiset(available)[e];
  }

  /** An event held by two slots is placed twice. */
  lemma PlacedTwice(slots: seq<Option<Event>>, k: nat, m: nat, e: Event)
    requires k < |slots| && m < |slots| && k != m && slots[k] == Some(e) && slots[m] == Some(e)
    ensures multiset(Placed(slots))[e] >= 2
  {
    var vacated := slots[k := None];
    PlacedUpdate(slots, k, None);
    assert vacated[m] == Some(e);
    PlacedMembers(vacated, e);
    assert multiset(Held(slots[k])) == multiset{e} && multiset(Held(None)) == multiset{};
    assert multiset(Placed(vacated)) + multiset{e} == multiset(Placed(slots));
    assert multiset(Placed(vacated))[e] >= 1;
  }

  /** Under the invariant two different filled slots hold different ids. */
  lemma SlotsDistinct(events: seq<Event>, slots: seq<Option<Event>>, available: seq<Event>, k: nat, m: nat)
    requires Conserved(events, slots, available)
    requires k < |slots| && m < |slots| && k != m && slots[k].Some? && slots[m].Some?
    ensures slots[k].value.id != slots[m].value.id
  {
    var a, b := slots[k].value, slots[m].value;
    if a.id == b.id {
      PlacedMembers(slots, a);
      PlacedMembers(slots, b);
      assert a in multiset(events) && b in multiset(events);
      SameIdSameEvent(events, a, b);
      PlacedTwice(slots, k, m, a);
      PlacedAtMostOnce(events, slots, available, a);
    }
  }

  /** Under the invariant no id held by a filled slot is also in the pool. */
  lemma SlotAndPoolDisjoint(events: seq<Event>, slots: seq<Option<Event>>, available: seq<Event>, k: nat, b: Event)
    requires Conserved(events, slots, available)
    requires k < |slots| && slots[k].Some? && b in available
    ensures slots[k].value.id != b.id
  {
    var a := slots[k].value;
    var t := Placed(slots) + available;
    ConservedDistinct(events, slots, available);
    PlacedMembers(slots, a);
    var p :| 0 <= p < |Placed(slots)| && Placed(slots)[p] == a;
    var q :| 0 <= q < |available| && available[q] == b;
    assert t[p] == a && t[|Placed(slots)| + q] == b;
  }

  /** A catalog event found in a slot leaves that slot. */
  lemma VacateSlot(events: seq<Event>, slots: seq<Option<Event>>, available: seq<Event>, event: Event)
    requires Conserved(events, slots, available) && event in events
    requires FindSlot(slots, event.id) != -1
    ensures var from := FindSlot(slots, event.id);
      multiset(Placed(slots[from := None]) + available) + multiset{event} == multiset(events)
  {
    var from := FindSlot(slots, event.id);
    var e := slots[from].value;
    PlacedMembers(slots, e);
    assert e in multiset(events);
    SameIdSameEvent(events, e, event);
    PlacedUpdate(slots, from, None);
    assert multiset(Held(slots[from])) == multiset{event} && multiset(Held(None)) == multiset{};
    assert multiset(Placed(slots[from := None])) + multiset{event} == multiset(Placed(slots));
  }

  /** A catalog event in no slot is in the pool, and its first copy leaves it. */
  lemma TakeFromPool(events: seq<Event>, slots: seq<Option<Event>>, available: seq<Event>, event: Event)
    requires Conserved(events, slots, available) && event in events
    requires FindSlot(slots, event.id) == -1
    ensures var a := FindById(available, event.id);
      a != -1 && multiset(Placed(slots) + Splice(available, a)) + multiset{event} == multiset(events)
  {
    PlacedMembers(slots, event);
    assert event in multiset(Placed(slots) + available);
    assert event in available;
    var a := FindById(available, event.id);
    assert available[a] in multiset(events);
    SameIdSameEvent(events, available[a], event);
  }

  /** An event out of both slots and pool takes a slot, whose occupant joins the pool. */
  lemma TakeSlot(events: seq<Event>, vacated: seq<Option<Event>>, pool: seq<Event>, event: Event, index: nat)
    requires index < |vacated|
    requires multiset(Placed(vacated) + pool) + multiset{event} == multiset(events)
    ensures multiset(Placed(vacated[index := Some(event)]) + (pool + Held(vacated[index]))) == multiset(events)
  {
    var placed := Placed(vacated[index := Some(event)]);
    var held := Held(vacated[index]);
    PlacedUpdate(vacated, index, Some(event));
    assert multiset(Held(Some(event))) == multiset{event};
    calc {
      multiset(placed + (pool + held));
      multiset(placed) + multiset(held) + multiset(pool);
      multiset(Placed(vacated)) + multiset{event} + multiset(pool);
      multiset(Placed(vacated) + pool) + multiset{event};
    }
  }

  /**
   * handleDrop keeps the board invariant when the dropped event belongs to
   * the catalog.
   */
  lemma DropConserves(events: seq<Event>, slots: seq<Option<Event>>, available: seq<Event>, event: Event, index: nat)
    requires index < |slots|
    requires Conserved(events, slots, available) && event in events
    ensures Conserved(events, DropSlots(slots, event, index), DropAvailable(slots, available, event, index))
  {
    var from := FindSlot(slots, event.id);
    // First the event leaves where it was.
    if from != -1 {
      VacateSlot(events, slots, available, event);
    } else {
      TakeFromPool(events, slots, available, event);
    }
    var vacated := if from != -1 then slots[from := None] else slots;
    var pool :=
      if from != -1 then available
      else Splice(available, FindById(available, event.id));
    // Then it takes the target slot, and the displaced occupant joins the pool.
    TakeSlot(events, vacated, pool, event, index);
    assert DropSlots(slots, event, index) == vacated[index := Some(event)];
    assert DropAvailable(slots, available, event, index) == pool + Held(vacated[index]);
  }

  /** Dropping an event on the slot it already occupies leaves the board as it was. */
  lemma DropOntoOwnSlot(events: seq<Event>, slots: seq<Option<Event>>, available: seq<Event>, event: Event, index: nat)
    requires index < |slots| && slots[index] == Some(event)
    requires Conserved(events, slots, available)
    ensures DropSlots(slots, event, index) == slots
    ensures DropAvailable(slots, available, event, index) == available
  {
    var from := FindSlot(slots, event.id);
    if from != index {
      SlotsDistinct(events, slots, available, from, index);
      assert false;
    }
    assert slots[index := None][index := Some(event)] == slots;
  }

  /** An occupant displaced from the target slot is appended to the pool. */
  lemma DropReturnsOccupant(slots: seq<Option<Event>>, available: seq<Event>, event: Event, index: nat)
    requires index < |slots| && slots[index].Some? && slots[index].value.id != event.id
    ensures var r := DropAvailable(slots, available, event, index);
      |r| > 0 && r[|r| - 1] == slots[index].value
  {
    var from := FindSlot(slots, event.id);
    assert from != index;
  }

  /** The events `FirstOccurrencesFrom` keeps come from `s`, skip `seen` and have distinct ids. */
  lemma {:induction false} FirstOccurrencesFromDistinct(s: seq<Event>, seen: set<string>)
    ensures var r := FirstOccurrencesFrom(s, seen);
      DistinctIds(r) && forall y :: y in r ==> y in s && y.id !in seen
  {
    if s != [] {
      var rest := s[1..];
      if s[0].id in seen {
        FirstOccurrencesFromDistinct(rest, seen);
      } else {
        FirstOccurrencesFromDistinct(rest, seen + {s[0].id});
        var tail := FirstOccurrencesFrom(rest, seen + {s[0].id});
        var r := [s[0]] + tail;
        forall i, j | 0 <= i < j < |r| ensures r[i].id != r[j].id {
          if i == 0 {
            assert r[j] == tail[j - 1];
            assert r[j] in tail;
          } else {
            assert r[i] == tail[i - 1] && r[j] == tail[j - 1];
          }
        }
      }
    }
  }

  /** Every id of `s` not in `seen` is kept by `FirstOccurrencesFrom`, with the first event carrying it. */
  lemma {:induction false} FirstOccurrencesFromKeepsFirst(s: seq<Event>, seen: set<string>, id: string)
    requires id !in seen
    ensures var r := FirstOccurrencesFrom(s, seen);
      FindById(r, id) != -1 <==> FindById(s, id) != -1
    ensures var r := FirstOccurrencesFrom(s, seen);
      FindById(r, id) != -1 ==> r[FindById(r, id)] == s[FindById(s, id)]
  {
    if s != [] {
      var rest := s[1..];
      if s[0].id in seen {
        FirstOccurrencesFromKeepsFirst(rest, seen, id);
      } else if s[0].id != id {
        FirstOccurrencesFromKeepsFirst(rest, seen + {s[0].id}, id);
      }
    }
  }

  /** Looking an id up past a first event that carries another id. */
  lemma FindByIdPast(s: seq<Event>, id: string)
    requires s != [] && s[0].id != id
    ensures FindById(s, id) == if FindById(s[1..], id) == -1 then -1 else FindById(s[1..], id) + 1
  {
  }

  /** `FirstOccurrencesFrom` keeps its events in the order their ids first appear in `s`. */
  lemma {:induction false} FirstOccurrencesFromOrdered(s: seq<Event>, seen: set<string>)
    ensures var r := FirstOccurrencesFrom(s, seen);
      forall i, j :: 0 <= i < j < |r| ==> FindById(s, r[i].id) < FindById(s, r[j].id)
  {
    if s != [] {
      var rest := s[1..];
      var seen' := if s[0].id in seen then seen else seen + {s[0].id};
      var tail := FirstOccurrencesFrom(rest, seen');
      FirstOccurrencesFromOrdered(rest, seen');
      FirstOccurrencesFromDistinct(rest, seen');
      forall k | 0 <= k < |tail| ensures FindById(s, tail[k].id) == FindById(rest, tail[k].id) + 1 {
        assert tail[k] in tail;
        FindByIdPast(s, tail[k].id);
      }
    }
  }

  /**
   * The dedupe filter of handleRemoveFromSlot: its result has no two events
   * with one id, holds exactly the ids of its input, for each id keeps the
   * first event of the input carrying it, and keeps those events in input order.
   */
  lemma FirstOccurrencesSpec(s: seq<Event>)
    ensures var r := FirstOccurrences(s);
      && DistinctIds(r)
      && (forall y :: y in r ==> y in s)
      && (forall id :: FindById(r, id) != -1 <==> FindById(s, id) != -1)
      && (forall k :: 0 <= k < |r| ==> r[k] == s[FindById(s, r[k].id)])
      && (forall i, j :: 0 <= i < j < |r| ==> FindById(s, r[i].id) < FindById(s, r[j].id))
  {
    var r := FirstOccurrences(s);
    FirstOccurrencesFromDistinct(s, {});
    FirstOccurrencesFromOrdered(s, {});
    forall id ensures FindById(r, id) != -1 <==> FindById(s, id) != -1 {
      FirstOccurrencesFromKeepsFirst(s, {}, id);
    }
    forall k | 0 <= k < |r| ensures r[k] == s[FindById(s, r[k].id)] {
      FirstOccurrencesFromKeepsFirst(s, {}, r[k].id);
      assert FindById(r, r[k].id) == k;
    }
  }

  /** A pool that already has distinct ids passes the dedupe filter unchanged. */
  lemma {:induction false} FirstOccurrencesFromDistinctInput(s: seq<Event>, seen: set<string>)
    requires DistinctIds(s) && forall i :: 0 <= i < |s| ==> s[i].id !in seen
    ensures FirstOccurrencesFrom(s, seen) == s
  {
    if s != [] {
      var rest := s[1..];
      assert DistinctIds(rest) by {
        forall i, j | 0 <= i < j < |rest| ensures rest[i].id != rest[j].id {
          assert rest[i] == s[i + 1] && rest[j] == s[j + 1];
        }
      }
      forall i | 0 <= i < |rest| ensures rest[i].id !in seen + {s[0].id} {
        assert rest[i] == s[i + 1];
      }
      FirstOccurrencesFromDistinctInput(rest, seen + {s[0].id});
      assert s == [s[0]] + rest;
    }
  }

  /**
   * After a removal the pool holds the returned event's id exactly once,
   * whatever the pool held before.
   */
  lemma ReturnedOnce(slots: seq<Option<Event>>, available: seq<Event>, index: nat)
    requires index < |slots| && slots[index].Some?
    ensures FindById(RemoveAvailable(slots, available, index), slots[index].value.id) != -1
    ensures DistinctIds(RemoveAvailable(slots, available, index))
  {
    var s := available + [slots[index].value];
    FirstOccurrencesSpec(s);
    assert s[|s| - 1].id == slots[index].value.id;
  }

  /** Under the invariant a slot's event and the pool together still have distinct ids. */
  lemma ReturnedIsNew(events: seq<Event>, slots: seq<Option<Event>>, available: seq<Event>, index: nat)
    requires Conserved(events, slots, available)
    requires index < |slots| && slots[index].Some?
    ensures DistinctIds(available + [slots[index].value])
  {
    var s := available + [slots[index].value];
    var t := Placed(slots) + available;
    ConservedDistinct(events, slots, available);
    forall i, j | 0 <= i < j < |s| ensures s[i].id != s[j].id {
      if j < |available| {
        assert t[|Placed(slots)| + i] == s[i] && t[|Placed(slots)| + j] == s[j];
      } else {
        SlotAndPoolDisjoint(events, slots, available, index, s[i]);
      }
    }
  }

  /** handleRemoveFromSlot keeps the board invariant. */
  lemma RemoveConserves(events: seq<Event>, slots: seq<Option<Event>>, available: seq<Event>, index: nat)
    requires index < |slots|
    requires Conserved(events, slots, available)
    ensures Conserved(events, slots[index := None], RemoveAvailable(slots, available, index))
  {
    if slots[index].Some? {
      ReturnedIsNew(events, slots, available, index);
      FirstOccurrencesFromDistinctInput(available + [slots[index].value], {});
      ReturnToPool(slots, available, index);
    } else {
      assert slots[index := None] == slots;
    }
  }

  /** On a board that keeps the invariant, emptying a slot appends its event to the pool and drops nothing. */
  lemma RemoveAppends(events: seq<Event>, slots: seq<Option<Event>>, available: seq<Event>, index: nat)
    requires Conserved(events, slots, available)
    requires index < |slots| && slots[index].Some?
    ensures RemoveAvailable(slots, available, index) == available + [slots[index].value]
  {
    ReturnedIsNew(events, slots, available, index);
    FirstOccurrencesFromDistinctInput(available + [slots[index].value], {});
  }

  /**
   * Taking a tile back from slot `index` and dropping it on the same slot
   * again restores both the slots and the pool.
   */
  lemma RemoveThenDropRestores(events: seq<Event>, slots: seq<Option<Event>>, available: seq<Event>, index: nat)
    requires Conserved(events, slots, available)
    requires index < |slots| && slots[index].Some?
    ensures var e, vacated := slots[index].value, slots[index := None];
      && DropSlots(vacated, e, index) == slots
      && DropAvailable(vacated, RemoveAvailable(slots, available, index), e, index) == available
  {
    var e, vacated := slots[index].value, slots[index := None];
    RemoveAppends(events, slots, available, index);
    VacatedHasNoCopy(events, slots, available, index);
    forall k | 0 <= k < |available| ensures available[k].id != e.id {
      SlotAndPoolDisjoint(events, slots, available, index, available[k]);
    }
    FindAppended(available, e);
    assert Splice(available + [e], |available|) == available;
    assert vacated[index := Some(e)] == slots;
  }

  /** Under the invariant, once slot `index` is emptied no slot holds its event's id. */
  lemma VacatedHasNoCopy(events: seq<Event>, slots: seq<Option<Event>>, available: seq<Event>, index: nat)
    requires Conserved(events, slots, available)
    requires index < |slots| && slots[index].Some?
    ensures FindSlot(slots[index := None], slots[index].value.id) == -1
  {
    var vacated := slots[index := None];
    forall k | 0 <= k < |vacated| ensures !Holds(vacated[k], slots[index].value.id) {
      if k != index && slots[k].Some? {
        SlotsDistinct(events, slots, available, index, k);
      }
    }
  }

  /** An event appended to a pool without its id is found at the end. */
  lemma FindAppended(available: seq<Event>, e: Event)
    requires forall k :: 0 <= k < |available| ==> available[k].id != e.id
    ensures FindById(available + [e], e.id) == |available|
  {
    var pool := available + [e];
    assert forall k :: 0 <= k < |available| ==> pool[k] == available[k];
    assert pool[|available|] == e;
  }

  /** Moving a slot's event to the end of the pool keeps the board's events. */
  lemma ReturnToPool(slots: seq<Option<Event>>, available: seq<Event>, index: nat)
    requires index < |slots| && slots[index].Some?
    ensures multiset(Placed(slots[index := None]) + (available + [slots[index].value])) ==
            multiset(Placed(slots) + available)
  {
    var e, vacated := slots[index].value, Placed(slots[index := None]);
    PlacedUpdate(slots, index, None);
    assert multiset(Held(slots[index])) == multiset{e};
    assert multiset(Held(None)) == multiset{};
    assert multiset(vacated + (available + [e])) == multiset(vacated) + multiset{e} + multiset(available);
  }

  /** An event is kept by `Unplaced` as often as the catalog has it, unless a slot holds its id. */
  lemma {:induction false} UnplacedCount(events: seq<Event>, slots: seq<Option<Event>>, x: Event)
    ensures multiset(Unplaced(events, slots))[x] == if FindSlot(slots, x.id) == -1 then multiset(events)[x] else 0
  {
    if events != [] {
      assert events == [events[0]] + events[1..];
      UnplacedCount(events[1..], slots, x);
    }
  }

  /** Under the invariant the unplaced catalog events are exactly the pool's events. */
  lemma UnplacedIsPool(events: seq<Event>, slots: seq<Option<Event>>, available: seq<Event>, x: Event)
    requires Conserved(events, slots, available)
    ensures multiset(Unplaced(events, slots))[x] == multiset(available)[x]
  {
    assert multiset(events)[x] == multiset(Placed(slots))[x] + multiset(available)[x];
    UnplacedCount(events, slots, x);
    PlacedMembers(slots, x);
    if FindSlot(slots, x.id) != -1 {
      var k := FindSlot(slots, x.id);
      var p := slots[k].value;
      PlacedMembers(slots, p);
      if x in events {
        assert p in multiset(events);
        SameIdSameEvent(events, p, x);
        DistinctOccursOnce(events, x);
      }
    }
  }

  /**
   * resetBoard's pool, the unplaced catalog events followed by the placed
   * ones, is under the invariant exactly the catalog.
   */
  lemma ResetRestoresCatalog(events: seq<Event>, slots: seq<Option<Event>>, available: seq<Event>)
    requires Conserved(events, slots, available)
    ensures multiset(Unplaced(events, slots) + Placed(slots)) == multiset(events)
  {
    var u := Unplaced(events, slots);
    forall x ensures multiset(u)[x] == multiset(available)[x] {
      UnplacedIsPool(events, slots, available, x);
    }
    assert multiset(u) == multiset(available);
  }

  /** The pool resetBoard deals before shuffling: the unplaced catalog events, then the placed ones. */
  function ResetDeal(events: seq<Event>, slots: seq<Option<Event>>): seq<Event> {
    Unplaced(events, slots) + Placed(slots)
  }

  /** `Array(5).fill(null)` places nothing. */
  lemma EmptyBoard()
    ensures Placed(seq(SlotCount, _ => None)) == []
  {
    PlacedNone(seq(SlotCount, _ => None));
  }
}
