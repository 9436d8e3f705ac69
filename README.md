# Temporal Tiles board, in Dafny

This project models the puzzle board of the Temporal Tiles game page
(`GamePage` in `app/page.tsx`). The player gets the day's catalog of
historical events as tiles in a pool. They place the tiles in five slots and
submit the board; the board is right when the slots follow the catalog's
chronological order. The player has three attempts.

The model has five modules:

- `Events` (`events.dfy`): the event record and the lookups the handlers use.
  - An event keeps its id and its date, reduced to an integer sort key.
  - `FindById` models `findIndex`; `Splice` models `splice(k, 1)`.
- `Board` (`board.dfy`): the board as values.
  - `Placed` lists the events of the filled slots (`slots.filter(Boolean)`).
  - The board invariant `Conserved`: the catalog's ids are distinct, and the filled slots together with the pool hold exactly the catalog's events, each once.
  - One function per handler gives the new slots and the new pool: `DropSlots` and `DropAvailable`, `RemoveAvailable` with the dedupe filter `FirstOccurrences`, and `ResetDeal`.
  - Lemmas prove that each handler keeps the invariant.
- `Evaluator` (`evaluator.dfy`): judging a board.
  - `SortByDate` is a stable insertion sort by date.
  - `InCanonicalOrder` and `SlotVerdicts` are the id-based verdicts of the Submit handler.
  - `RenderVerdict` is the date-based verdict shown on each slot.
  - Lemmas relate these verdicts to each other and to chronological order.
- `Shuffle` (`shuffle.dfy`): the Fisher-Yates shuffle.
  - It runs on a copied array.
  - The random draw becomes a nondeterministic choice.
- `Page` (`page.dfy`): the page's state.
  - The class `GamePage` holds the fields `events`, `available`, `slots`, `tries`, `feedback` and `answerRevealed`.
  - Each handler is a method, proved against the `Board` and `Evaluator` functions.
  - Four client methods play short games on the page:
    - `RetryFirstSlot`: a retry that restores the board;
    - `WrongRound`: a wrong answer followed by that retry;
    - `WrongAnswersExhaustTries`: three wrong answers in a row;
    - `TakeBackWithoutAttempts`: taking a tile back once no attempt is left.

Two verdicts exist side by side:

- Submit compares ids with the sorted catalog.
- A slot's shown verdict compares dates.

The two agree whenever the slot holds the event of its rank. They agree on every filled slot when no two catalog events share a date. When a slot holds another event of the date of its rank, it is shown correct while Submit counts it wrong (`Evaluator.TiedDatesDisagree`, with a two-event instance in `Evaluator.TiedDatesExample`).

## Model

| member | source | states |
|---|---|---|
| Events.FindById | app/page.tsx:66 | the result is -1 exactly when no event has the id; otherwise it is the first index holding the id |
| Events.Splice | app/page.tsx:68 | the result is one shorter, keeps the order of the other events and has the same events minus the removed one |
| Events.DistinctOccursOnce | app/page.tsx:60-77 | in a catalog with distinct ids each event occurs at most once |
| Board.FindSlot | app/page.tsx:60 | the result is -1 exactly when no slot holds the id; otherwise it is the first slot holding it |
| Board.FindEmpty | app/page.tsx:192 | the result is -1 exactly when no slot is empty; otherwise it is the first empty slot |
| Board.PlacedMembers | app/page.tsx:112 | an event is among the placed events exactly when some slot holds it |
| Board.PlacedFull | app/page.tsx:122 | on a board with no empty slot the placed events are the slots' events, position by position |
| Board.DropSlots | app/page.tsx:60-77 | after a drop the target slot holds the event; a slot that held the event's id is emptied; every other slot is unchanged |
| Board.DropConserves | app/page.tsx:57-80 | a drop of a catalog event keeps the board invariant |
| Board.DropOntoOwnSlot | app/page.tsx:60-77 | dropping an event on the slot it already occupies leaves the slots and the pool unchanged |
| Board.DropReturnsOccupant | app/page.tsx:72-75 | an occupant displaced from the target slot is the last event of the new pool |
| Board.ConservedDistinct | app/page.tsx:57-80 | under the invariant the placed events and the pool have distinct ids and together number as many as the catalog |
| Board.SlotsDistinct | app/page.tsx:60-63 | under the invariant two different filled slots never hold the same id |
| Board.SlotAndPoolDisjoint | app/page.tsx:60-68 | under the invariant no pool event shares an id with a filled slot |
| Board.FirstOccurrencesSpec | app/page.tsx:94-100 | the dedupe filter's result has distinct ids and only input events; it has exactly the input's ids; for each id it keeps the first input event carrying that id; it keeps them in input order |
| Board.FirstOccurrencesFromDistinctInput | app/page.tsx:94-100 | a pool that already has distinct ids passes the dedupe filter unchanged |
| Board.ReturnedOnce | app/page.tsx:89-101 | after a slot is emptied, its event's id is in the new pool, and the pool has distinct ids, so the id occurs exactly once |
| Board.ReturnedIsNew | app/page.tsx:89-94 | under the invariant the returned event's id is not already in the pool |
| Board.RemoveConserves | app/page.tsx:88-104 | emptying a slot keeps the board invariant |
| Board.RemoveAppends | app/page.tsx:89-101 | under the invariant, emptying a slot appends its event to the pool and the dedupe filter drops nothing |
| Board.RemoveThenDropRestores | app/page.tsx:54-105 | under the invariant, taking a tile back and dropping it on the same slot restores the slots and the pool |
| Board.UnplacedCount | app/page.tsx:109-111 | the reset filter keeps each catalog event as often as the catalog has it when no slot holds its id, and drops it otherwise |
| Board.UnplacedIsPool | app/page.tsx:109-111 | under the invariant the reset filter's events are exactly the pool's events |
| Board.ResetRestoresCatalog | app/page.tsx:109-113 | under the invariant the reset deal, the unplaced events followed by the placed ones, is a permutation of the catalog |
| Board.EmptyBoard | app/page.tsx:114 | five empty slots place no event |
| Evaluator.SortByDate | app/page.tsx:124 | the canonical order is sorted by date and is a permutation of the catalog |
| Evaluator.InsertSorted | app/page.tsx:124 | inserting into a date-sorted sequence keeps it sorted |
| Evaluator.InsertDatedOn | app/page.tsx:124 | insertion puts the new event first among those of its date and keeps the others in order |
| Evaluator.SortIsStable | app/page.tsx:124 | for every date, the events of that date appear in the canonical order in their catalog order |
| Evaluator.SortedUnique | app/page.tsx:124 | two date-sorted permutations of one sequence with distinct dates are equal |
| Evaluator.VerdictsAgree | app/page.tsx:125-135 | the board is in canonical order exactly when the per-slot feedback is all true, so the correct branch and the wrong branch set the same feedback for it; slot i is true exactly when it holds the id of rank i |
| Evaluator.InCatalog | app/page.tsx:125 | under the invariant every filled slot's event belongs to the catalog |
| Evaluator.AcceptedIffCanonical | app/page.tsx:122-125 | on a full board under the invariant, the catalog has at least five events, and the answer is accepted exactly when the slots hold the first five events of the canonical order |
| Evaluator.AcceptedIsChronological | app/page.tsx:122-128 | an accepted full board lists its events in date order |
| Evaluator.ChronologicalIsAccepted | app/page.tsx:122-128 | with exactly five catalog events on distinct dates, a full board is accepted exactly when its events are in date order |
| Evaluator.IdMatchShownCorrect | app/page.tsx:209-211 | a slot holding the event of its rank is shown as correct |
| Evaluator.VerdictsAgreeOnDistinctDates | app/page.tsx:209-211 | when no two catalog events share a date, a filled slot's shown verdict equals its id-based verdict |
| Evaluator.TiedDatesDisagree | app/page.tsx:209-211 | a slot holding a different catalog event of the date of its rank is shown correct while its id-based verdict is false |
| Evaluator.TiedDatesExample | app/page.tsx:209-211 | for the catalog [a on day 1, b on day 1] with b in the first slot, the slot is shown correct and Submit judges it wrong |
| Shuffle.ShuffleArray | app/page.tsx:26-33 | the shuffled sequence has the input's length and is a permutation of it, whatever the random draws |
| Page.DedupeById | app/page.tsx:94-100 | the loop with a seen-id set computes the dedupe filter's result |
| Page.GamePage.CanSubmit | app/page.tsx:235 | Submit is enabled only with attempts left, the answer hidden and all five slots filled |
| Page.GamePage.constructor | app/page.tsx:13-19 | the initial page has an empty catalog and pool, five empty slots, three attempts, no feedback and the answer hidden, and it keeps the invariant |
| Page.GamePage.LoadEvents | app/page.tsx:40-43 | the loaded catalog is stored and the pool is a permutation of it; from an empty board the invariant holds |
| Page.GamePage.HandleDrop | app/page.tsx:54-82 | the new slots and pool are those of the drop; feedback is cleared; the catalog, attempts and reveal flag are kept; a catalog event's drop keeps the invariant |
| Page.GamePage.HandleTileClick | app/page.tsx:191-194 | a click with no empty slot changes nothing; otherwise the tile is dropped on the first empty slot |
| Page.GamePage.HandleRemoveFromSlot | app/page.tsx:85-105 | the slot is emptied; the pool is the deduplicated pool with the event appended; the answer is hidden; the attempts are kept; the invariant is kept |
| Page.GamePage.ResetBoard | app/page.tsx:107-119 | all five slots are empty; the pool is a permutation of the unplaced events followed by the placed ones; feedback and reveal are cleared; the attempts are kept; the invariant is kept |
| Page.GamePage.CheckAnswer | app/page.tsx:121-144 | a board with an empty slot is left unchanged. Otherwise: the answer is revealed and Submit is disabled; the feedback is the id-based per-slot verdicts; one attempt is spent exactly when the board is not in canonical order |
| Page.RetryFirstSlot | app/page.tsx:54-105 | taking the first tile of a full board back and dropping it on its slot restores the slots and the pool, keeps the catalog and the attempts, clears the feedback and hides the answer |
| Page.WrongRound | app/page.tsx:121-144 | a wrong submission followed by that retry spends exactly one attempt, keeps the board full and hides the answer; Submit is enabled again while an attempt is left |
| Page.WrongAnswersExhaustTries | app/page.tsx:133-141 | from three attempts, three wrong answers leave none, the answer revealed and Submit disabled |
| Page.TakeBackWithoutAttempts | app/page.tsx:235 | with no attempt left, taking a tile back and placing one hides the answer but Submit stays disabled |

## Left out

- Loading the catalog: the fetch call, the loading flag and the error message. The loaded catalog is the parameter of `LoadEvents`.
- The `localStorage` write and the drag-and-drop wiring of the tile and slot components.
- Date parsing with `new Date(...).getTime()`. Each date is an integer key that orders dates chronologically. The shown verdict compares date strings; the model compares the keys, so equal strings are taken to mean equal keys and the reverse.
- `title`, `text` and `emoji` of an event: they are only displayed.
- The distribution of `Math.random`. The shuffle is proved to give a permutation for every choice of draws, not to be unbiased.
- Messages, confetti, the window size and every other piece of rendering.
- React's batching of state setters, including the `setAvailable` nested in the `setSlots` updater. Each handler is one sequential transition of the page state.
- The `Array.isArray` guard at the start of `handleDrop`: the model's slots and pool are always sequences.
- Page.GamePage.CheckAnswer: requires a catalog of at least five events when the board is full. With fewer, `correctOrder[i].id` would throw in the page. Under the board invariant a full board implies such a catalog (`Evaluator.AcceptedIffCanonical`).
- Page.GamePage.HandleDrop: keeps the invariant only for events of the catalog, the only ones a tile or slot can carry.
- Page.GamePage.LoadEvents: the invariant after loading is stated for an empty board and a catalog with distinct ids. A load over a filled board would not keep it.
