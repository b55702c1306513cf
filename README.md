# Table-driven finite-state machine with undo/redo

A model of the `FSM` class of `src/fsm.js`: a finite-state machine driven by
a configuration (an initial state and a table of declared states, each with
its event transitions), which keeps a current state, a history stack of the
states entered (always starting from the hard-coded baseline `"normal"`) and a
redo stack of undone states.

The model has three modules.

- `Table` (table.dfy): the configuration (`Config`, with the declared names
  in a `keys` sequence in enumeration order beside the `states` map), the
  transition lookup, and `StatesWith`, the filter behind `getStates(event)`,
  with lemmas that it keeps order (a subsequence) and distinctness.
- `History` (history.dfy): the mutable part of the machine as a value
  (`Snapshot`), one function per operation, and the lemmas that relate
  operations: the history invariant, undo/redo as inverse moves, trigger
  invalidating redo, undo exhaustion at the baseline, and the k-fold
  undo/redo round trip.
- `Machine` (machine.dfy): the class `FSM` with fields `state`, `history`
  (the source's `stateRecord`) and `undone` (`recordUndoneState`), updated
  in place by its methods. Every mutating method requires and ensures
  `Valid()` (the history is non-empty with the baseline at the bottom),
  states each field's new value, and ties `View()` to the `History` function
  of the same name, so the `History` lemmas apply to the object.
  `Walkthrough` is a client that replays a three-state example from the
  contracts alone.

Design decisions:

- Thrown errors become a `Result`: `InvalidState(target)` for `changeState`,
  `InvalidTransition(from, event)` for `trigger`. On failure nothing changes.
- The baseline is the constant `History.Baseline`. It does not depend on
  `config.initial`.
- The transition test follows the code's truthiness check on
  `transitions[event]` (src/fsm.js:45, 83). The event must be present and
  its destination must not be the empty string. A plain "contains the event as
  a key" reading would differ only for an empty destination name.
- The current state need not be a declared state. `config.initial` is not
  validated, and undo can land on the baseline `"normal"` even when the
  configuration does not declare it. `trigger` from an undeclared state fails
  (in the source, by a `TypeError` on the missing entry).
- `WellFormed(config)` says `keys` lists each key of `states` exactly once.
  That is how a JavaScript object enumerates its own keys. The constructor
  does not require it. Only the "every declared state exactly once" facts of
  `GetStates`, and the link between `Transition` and `StatesWith` (a state
  offers an event exactly when the filtered query lists it), depend on it.

## Model

| member | source | states |
|---|---|---|
| `Machine.FSM.constructor` | src/fsm.js:6-11 | a new machine is at `config.initial`, with history `["normal"]` and an empty redo stack; the invariant holds |
| `Machine.FSM.GetState` | src/fsm.js:17-19 | returns the current state and changes nothing |
| `Machine.FSM.ChangeState` | src/fsm.js:25-38 | succeeds iff the target is declared; then the state is the target, the history collapses to `["normal"]` for the baseline and otherwise grows by the target, and the redo stack is kept; on failure it reports `InvalidState` and no field changes |
| `Machine.FSM.Trigger` | src/fsm.js:44-58 | succeeds iff the current state is declared and has a (non-empty) destination for the event; then it returns that destination, moves there, records it by the same collapse/append rule and empties the redo stack; on failure it reports `InvalidTransition` and no field changes |
| `Machine.FSM.Reset` | src/fsm.js:63-65 | the state becomes `config.initial`; history and redo stack unchanged |
| `Machine.FSM.GetStates` | src/fsm.js:73-90 | without an event, every key in enumeration order; with one, exactly the declared keys whose transition table reacts to it, in the same relative order (a subsequence of all keys); for a well-formed configuration, without duplicates |
| `Machine.FSM.Undo` | src/fsm.js:98-108 | returns true iff the history has more than one entry; then its top moves onto the redo stack and the state is the new top; otherwise both stacks are unchanged and the state becomes the baseline |
| `Machine.FSM.Redo` | src/fsm.js:115-124 | returns true iff the redo stack is non-empty; then the state is its top, and that element moves onto the history; otherwise nothing changes |
| `Machine.FSM.ClearHistory` | src/fsm.js:129-132 | history becomes `["normal"]`, the redo stack empty, the state is kept |
| `History.Init` | src/fsm.js:6-11 | the initial snapshot: state `config.initial`, history at the baseline, nothing to redo |
| `History.Record` | src/fsm.js:28-32 | the recorded history ends with the entered state; it is the old history plus that state unless the state is the baseline, in which case it is the baseline alone; it keeps the history invariant |
| `History.ChangeState` | src/fsm.js:25-38 | success exactly for declared targets, with the error naming the target otherwise; the new history is `Record(old history, target)` (the old history kept below the target, or collapsed to the baseline), the result is synced (state on top of history), keeps the redo stack and the history invariant |
| `History.Trigger` | src/fsm.js:44-58 | success exactly when the current state offers the event; the new state is its destination, the new history is `Record(old history, destination)` (the old history kept below it, or collapsed to the baseline), redo is empty, the result is synced and keeps the history invariant |
| `History.Reset` | src/fsm.js:63-65 | only the state changes, to `config.initial` |
| `History.Undo` | src/fsm.js:98-108 | moves iff the history has more than one entry; moves exactly one element from history to redo, so `|history| + |redo|` is conserved; the result is always synced and keeps the invariant |
| `History.Redo` | src/fsm.js:115-124 | moves iff the redo stack is non-empty; moves exactly one element from redo to history, conserving `|history| + |redo|`; on failure the snapshot is unchanged |
| `History.ClearHistory` | src/fsm.js:129-132 | history at the baseline, redo empty, state kept |
| `History.UndoThenRedo` | src/fsm.js:98-124 | a successful undo followed by redo restores both stacks exactly, at the former top of history |
| `History.RedoThenUndo` | src/fsm.js:98-124 | a successful redo followed by undo restores both stacks exactly, at the former top of history |
| `History.TriggerThenUndo` | src/fsm.js:44-108 | undoing a successful trigger to a non-baseline state restores the previous history, with only that state left to redo |
| `History.ChangeStateThenUndo` | src/fsm.js:25-108 | undoing a jump to a non-baseline state restores the previous history, with the target added on top of the kept redo stack |
| `History.TriggerInvalidatesRedo` | src/fsm.js:44-124 | after a successful trigger, redo returns false |
| `History.ClearHistoryDisablesNavigation` | src/fsm.js:98-132 | right after clearing, undo returns false (and goes to the baseline) and redo returns false (state kept) |
| `History.UndoTimesShape` | src/fsm.js:98-108 | k successive undos below the history length remove the top k entries and push them onto the redo stack in reverse order; each of the first `|history| - 1` of them moves |
| `History.UndoExhaustion` | src/fsm.js:98-108 | undo moves exactly `|history| - 1` times, leaving `["normal"]` and every removed state on the redo stack; the next undo returns false and sets the state to the baseline |
| `History.UndoRedoRoundTrip` | src/fsm.js:98-124 | from a synced machine, k undos followed by k redos give back the same machine |
| `History.UndoTimesIgnoresState` | src/fsm.js:98-108 | one or more undos leave the same snapshot whatever the current state was before them |
| `History.UndoRedoRestoresStacks` | src/fsm.js:98-124 | from any machine (a reset one included), k > 0 undos followed by k redos restore both stacks exactly and end at the top of the history |
| `History.Run` | src/fsm.js:9-132 | every sequence of operations keeps the history non-empty with `"normal"` at the bottom |
| `Table.Transition` | src/fsm.js:45-86 | the lookup succeeds exactly when the current state is declared, its transition table has the event and the destination is not the empty string (the truthiness test, via `HasTransition`), and then yields that destination; for a well-formed configuration it succeeds from `s` exactly when `s` is listed by the filtered state query for that event, so `getStates(e)` lists exactly the declared states from which `trigger(e)` succeeds |
| `Table.StatesWith` | src/fsm.js:82-86 | a state is listed iff it is among the keys, declared, and reacts to the event; never longer than the keys |
| `Table.StatesWithIsSubsequence` | src/fsm.js:73-90 | the filtered list keeps the keys' relative order |
| `Table.StatesWithNoDuplicates` | src/fsm.js:73-90 | filtering distinct keys yields distinct keys |

## Left out

- The `console.log` of the state on undo's failure path (src/fsm.js:105): diagnostic output only.
- Exception objects and their types: both `throw new Error` and the implicit `TypeError` on an undeclared current state in `trigger` become one tagged failure whose post-state is unchanged.
- Prototype-chain lookups and inherited enumerable keys: `changeState` uses `hasOwnProperty` while `trigger` and `getStates` index the object directly. The model treats the configuration as a plain map of its own keys in both places.
- A state definition without a `transitions` object, or a `transitions` value that is not an object: the model's `StateDef` always has a transition map.
- Calling `getStates` with the value `undefined` versus omitting it: both are the `None` case of the optional event.
- `module.exports` and the authorship comment (src/fsm.js:135-137): packaging only.
