/**
 * The game page's board state and the handlers that change it: placing a
 * tile, taking one back, resetting the board and submitting the answer.
 */
module Page {
  import opened Events
  import opened Board
  import opened Evaluator
  import opened Shuffle

  /** The attempts a player starts the day with. */
  const InitialTries := 3

  /**
   * The dedupe filter of handleRemoveFromSlot: keeps an event only when no
   * earlier event carried its id, remembering the ids seen so far in a set.
   */
  method DedupeById(updated: seq<Event>) returns (kept: seq<Event>)
    ensures kept == FirstOccurrences(updated)
  {
    var seen: set<string> := {};
    kept := [];
    var i := 0;
    while i < |updated|
      invariant 0 <= i <= |updated|
      invariant kept + FirstOccurrencesFrom(updated[i..], seen) == FirstOccurrences(updated)
    {
      var e := updated[i];
      assert updated[i..] == [e] + updated[i + 1..];
      if e.id !in seen {
        kept := kept + [e];
        seen := seen + {e.id};
      }
      i := i + 1;
    }
    assert updated[i..] == [];
  }

  /** The state of the game page. */
  class GamePage {
    /** The day's catalog, as loaded. */
    var events: seq<Event>
    /** The tiles not placed in any slot, in display order. */
    var available: seq<Event>
    /** The five slots, each empty or holding an event. */
    var slots: seq<Option<Event>>
    /** Attempts left. */
    var tries: int
    /** Per-slot verdicts of the last submission; empty when there are none. */
    var feedback: seq<bool>
    /** Whether the answer of the last submission is on show. */
    var answerRevealed: bool

    /** The page always has five slots. */
    ghost predicate Valid()
      reads this
    {
      |slots| == SlotCount
    }

    /** The board invariant on the page's current state. */
    ghost predicate Consistent()
      reads this
    {
      Valid() && Conserved(events, slots, available)
    }

    /**
     * `disabled={tries <= 0 || slots.includes(null) || answerRevealed}`
     * negated: the Submit button accepts a click.
     */
    predicate CanSubmit(): (enabled: bool)
      reads this
      ensures enabled ==> tries > 0 && !answerRevealed && |Placed(slots)| == |slots|
    {
      if None in slots then false
      else
        PlacedFull(slots);
        tries > 0 && !answerRevealed
    }

    /** The page before its catalog has loaded. */
    constructor ()
      ensures Consistent()
      ensures events == [] && available == [] && slots == seq(SlotCount, _ => None)
      ensures tries == InitialTries && feedback == [] && !answerRevealed
    {
      events, available := [], [];
      slots := seq(SlotCount, _ => None);
      tries := InitialTries;
      feedback, answerRevealed := [], false;
      new;
      PlacedNone(slots);
    }

    /**
     * A successful load: the catalog is stored and dealt into the pool in
     * shuffled order. The fetch itself is the caller's; `catalog` is its result.
     */
    method LoadEvents(catalog: seq<Event>)
      requires Valid()
      modifies this
      ensures Valid()
      ensures events == catalog && multiset(available) == multiset(catalog)
      ensures slots == old(slots) && tries == old(tries)
      ensures feedback == old(feedback) && answerRevealed == old(answerRevealed)
      ensures old(Placed(slots)) == [] && DistinctIds(catalog) ==> Consistent()
    {
      events := catalog;
      available := ShuffleArray(catalog);
    }

    /**
     * handleDrop: puts `event` in slot `index`. A slot the event occupied is
     * emptied, otherwise its first copy leaves the pool; the slot's previous
     * occupant returns to the pool; the feedback is cleared.
     */
    method HandleDrop(event: Event, index: nat)
      requires Valid() && index < |slots|
      modifies this
      ensures Valid()
      ensures slots == DropSlots(old(slots), event, index)
      ensures available == DropAvailable(old(slots), old(available), event, index)
      ensures feedback == []
      ensures events == old(events) && tries == old(tries) && answerRevealed == old(answerRevealed)
      ensures Conserved(old(events), old(slots), old(available)) && event in events ==> Consistent()
    {
      ghost var before := (slots, available);
      var newSlots := slots;
      var newAvailable := available;
      var fromSlotIndex := FindSlot(newSlots, event.id);
      if fromSlotIndex != -1 {
        newSlots := newSlots[fromSlotIndex := None];
      } else {
        var availableIndex := FindById(newAvailable, event.id);
        if availableIndex != -1 {
          newAvailable := Splice(newAvailable, availableIndex);
        }
      }
      if newSlots[index].Some? {
        newAvailable := newAvailable + [newSlots[index].value];
      }
      newSlots := newSlots[index := Some(event)];
      slots, available, feedback := newSlots, newAvailable, [];
      if Conserved(events, before.0, before.1) && event in events {
        DropConserves(events, before.0, before.1, event, index);
      }
    }

    /** Clicking a pool tile drops it on the first empty slot, if there is one. */
    method HandleTileClick(event: Event)
      requires Valid()
      modifies this
      ensures Valid()
      ensures FindEmpty(old(slots)) == -1 ==>
        slots == old(slots) && available == old(available) && feedback == old(feedback)
      ensures FindEmpty(old(slots)) != -1 ==>
        && slots == DropSlots(old(slots), event, FindEmpty(old(slots)))
        && available == DropAvailable(old(slots), old(available), event, FindEmpty(old(slots)))
        && feedback == []
      ensures events == old(events) && tries == old(tries) && answerRevealed == old(answerRevealed)
      ensures Conserved(old(events), old(slots), old(available)) && event in events ==> Consistent()
    {
      var firstEmpty := FindEmpty(slots);
      if firstEmpty >= 0 {
        HandleDrop(event, firstEmpty);
      }
    }

    /**
     * handleRemoveFromSlot: empties slot `index`, returns its event to the
     * pool with duplicate ids filtered out, and hides the answer again.
     * Attempts are not refunded.
     */
    method HandleRemoveFromSlot(index: nat)
      requires Valid() && index < |slots|
      modifies this
      ensures Valid()
      ensures slots == old(slots)[index := None]
      ensures available == RemoveAvailable(old(slots), old(available), index)
      ensures !answerRevealed
      ensures events == old(events) && tries == old(tries) && feedback == old(feedback)
      ensures Conserved(old(events), old(slots), old(available)) ==> Consistent()
    {
      assert events == old(events) && slots == old(slots) && available == old(available);
      var eventToReturn := slots[index];
      var newSlots := slots[index := None];
      var newAvailable := available;
      if eventToReturn.Some? {
        newAvailable := DedupeById(available + [eventToReturn.value]);
      }
      if Conserved(events, slots, available) {
        RemoveConserves(events, slots, available, index);
      }
      slots, available := newSlots, newAvailable;
      answerRevealed := false;
    }

    /**
     * resetBoard: empties every slot and deals the unplaced catalog events
     * together with the placed ones back into the pool, shuffled. Attempts
     * are kept.
     */
    method ResetBoard()
      requires Valid()
      modifies this
      ensures Valid() && slots == seq(SlotCount, _ => None)
      ensures multiset(available) == multiset(ResetDeal(old(events), old(slots)))
      ensures feedback == [] && !answerRevealed
      ensures events == old(events) && tries == old(tries)
      ensures Conserved(old(events), old(slots), old(available)) ==> Consistent()
    {
      var deal := ResetDeal(events, slots);
      assert events == old(events) && slots == old(slots) && available == old(available);
      if Conserved(events, slots, available) {
        ResetRestoresCatalog(events, slots, available);
      }
      var shuffled := ShuffleArray(deal);
      EmptyBoard();
      available, slots := shuffled, seq(SlotCount, _ => None);
      feedback := [];
      answerRevealed := false;
    }

    /**
     * checkAnswer: on a full board, compares every slot with the catalog's
     * canonical order by id, shows the answer and the per-slot verdicts, and
     * spends one attempt when the answer is wrong. An incomplete board is
     * left alone.
     */
    method CheckAnswer()
      requires Valid()
      requires None !in slots ==> |events| >= |slots|
      modifies this
      ensures Valid()
      ensures slots == old(slots) && available == old(available) && events == old(events)
      ensures None in old(slots) ==>
        tries == old(tries) && feedback == old(feedback) && answerRevealed == old(answerRevealed)
      ensures None !in old(slots) ==>
        && answerRevealed
        && !CanSubmit()
        && feedback == SlotVerdicts(slots, SortByDate(events))
        && tries == if InCanonicalOrder(slots, SortByDate(events)) then old(tries) else old(tries) - 1
    {
      if None in slots {
        return;
      }
      var correctOrder := SortByDate(events);
      var isCorrect := InCanonicalOrder(slots, correctOrder);
      answerRevealed := true;
      VerdictsAgree(slots, correctOrder);
      if isCorrect {
        feedback := AllCorrect(|slots|);
      } else {
        var newTries := tries - 1;
        tries := newTries;
        feedback := SlotVerdicts(slots, correctOrder);
        if newTries <= 0 {
          answerRevealed := true;
        }
      }
    }
  }

  /**
   * Takes the first tile of a full board back to the pool and drops it on
   * the same slot again: the slots and the pool are as before, the feedback
   * is cleared and Submit is no longer blocked by the shown answer.
   */
  method RetryFirstSlot(g: GamePage)
    requires g.Consistent() && None !in g.slots
    modifies g
    ensures g.Consistent()
    ensures g.slots == old(g.slots) && g.available == old(g.available)
    ensures g.events == old(g.events) && g.tries == old(g.tries)
    ensures g.feedback == [] && !g.answerRevealed
  {
    ghost var events, full, pool := g.events, g.slots, g.available;
    RemoveThenDropRestores(events, full, pool, 0);
    var e := g.slots[0].value;
    g.HandleRemoveFromSlot(0);
    g.HandleDrop(e, 0);
  }

  /**
   * A wrong submission followed by a retry of the first slot: one attempt is
   * spent and the same board can be submitted again.
   */
  method WrongRound(g: GamePage)
    requires g.Consistent() && None !in g.slots && !g.answerRevealed
    requires |g.events| >= |g.slots| && !InCanonicalOrder(g.slots, SortByDate(g.events))
    modifies g
    ensures g.Consistent() && !g.answerRevealed
    ensures g.slots == old(g.slots) && g.events == old(g.events)
    ensures g.tries == old(g.tries) - 1
    ensures g.tries > 0 ==> g.CanSubmit()
  {
    g.CheckAnswer();
    RetryFirstSlot(g);
  }

  /**
   * Three wrong submissions from the starting attempts, with a tile moved in
   * between so that Submit is enabled again, use up every attempt; Submit
   * then stays disabled.
   */
  method WrongAnswersExhaustTries(g: GamePage)
    requires g.Consistent() && None !in g.slots && !g.answerRevealed
    requires g.tries == InitialTries
    requires |g.events| >= |g.slots| && !InCanonicalOrder(g.slots, SortByDate(g.events))
    modifies g
    ensures g.tries == 0 && g.answerRevealed && !g.CanSubmit()
  {
    WrongRound(g);
    WrongRound(g);
    g.CheckAnswer();
  }

  /**
   * With no attempts left, taking a tile back hides the answer again but
   * Submit stays disabled, whatever is then placed.
   */
  method TakeBackWithoutAttempts(g: GamePage, index: nat, e: Event)
    requires g.Valid() && index < |g.slots| && g.tries <= 0
    modifies g
    ensures g.tries == old(g.tries) && !g.answerRevealed && !g.CanSubmit()
  {
    g.HandleRemoveFromSlot(index);
    g.HandleDrop(e, index);
  }
}
