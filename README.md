# mobx-shallow-undo: the `trackUndo` controller in Dafny

`trackUndo(readObservable, setObservable)` attaches an undo/redo controller to
one externally owned mobx observable. It keeps a history array (`undoStack`)
seeded with the value read at construction and a cursor (`undoPointer`). It
also holds a subscription, a mobx reaction that appends every observed change
just after the cursor and drops the redo entries beyond it. `undo()` and
`redo()` move the cursor and write the entry under it back through the writer.
While they write, the subscription is cancelled and then re-created, so the
controller's own write is not recorded. `hasUndo` and `hasRedo` report whether
the cursor can move. `dispose()` cancels the subscription. After it, `undo()`
and `redo()` throw "Undo already disposed".

The model has three modules:

- `UndoState` (undo_state.dfy) describes the controller as a state machine
  over a `Snapshot`. A snapshot holds the history, the cursor, the disposed
  flag, whether the subscription is live (`tracking`) and the observable's
  value. Each operation is a function from one snapshot to the next, and its
  contract states what the operation does. The invariant `Valid` is the
  source's comment "always points to the current value", made precise.
- `UndoProperties` (undo_properties.dfy) proves properties of runs of
  operations: edits followed by undos, undos followed by redos, an edit
  discarding the redo entries, dispose freezing the history, and the invariant
  holding after any sequence of calls.
- `UndoTracker` (undo_tracker.dfy) holds the class `Tracker`. Its fields are
  the same state, updated in place. Each method is proved to take exactly the
  step its `UndoState` function describes. The module ends with client methods
  that replay the scenarios of test/undo.spec.ts against the class contracts.

The mobx subscription is modelled as the boolean `tracking`. The observable is
the field `value`, and both the writer and outside code write it through
`SetObservable`. That method hands the new value to the change callback
`OnChange` only while `tracking` is on and the value actually differs. This is
how a mobx reaction behaves on a boxed value; mobx is not part of this model.

## Model

| member | source | states |
|---|---|---|
| UndoState.Init | src/undo.ts:7-10 | construction seeds the history with the value read, puts the cursor on it, starts tracking, satisfies the invariant, and has neither undo nor redo available |
| UndoState.OnChange | src/undo.ts:13-20 | the change callback fails with AlreadyDisposed (state unchanged) exactly when disposed; otherwise the cursor moves up by one, the history up to the old cursor is kept, the new value sits under the cursor, every redo entry is gone (`!HasRedo`), and nothing else changes |
| UndoState.SetObservable | src/undo.ts:13-20 | a write to the observable never surfaces the callback's error; while subscribed, a distinct value truncates after the cursor and is appended with the cursor on it, leaving undo available and no redo; an equal value, or any write while unsubscribed, leaves history and cursor alone; the invariant is preserved |
| UndoState.WriteUntracked | src/undo.ts:32-36 | moving the cursor and writing the entry under it with the subscription off leaves the history unchanged, puts that entry in the observable and restores the invariant |
| UndoState.Undo | src/undo.ts:26-37 | fails with AlreadyDisposed exactly when disposed, leaving the state unchanged; at cursor 0 it is a no-op; otherwise the cursor drops by one, the history is unchanged, the observable holds the entry under the new cursor, and redo becomes available; the invariant is preserved |
| UndoState.Redo | src/undo.ts:38-46 | fails with AlreadyDisposed exactly when disposed; at the last entry it is a no-op; otherwise the cursor rises by one, the history is unchanged, the observable holds the entry under the new cursor, and undo becomes available; the invariant is preserved |
| UndoState.Dispose | src/undo.ts:53-56 | disposing stops tracking and sets the flag, keeping history, cursor and value, and the invariant still holds |
| UndoProperties.Apply | src/undo.ts:25-57 | any single call on the controller, or outside write to the observable, preserves the invariant |
| UndoProperties.Run | src/undo.ts:13-56 | over any sequence of calls the invariant holds; only undo and redo ever report AlreadyDisposed (the callback's defensive throw is unreachable from writes); once disposed the controller stays disposed with its history and cursor frozen, and every later undo and redo reports AlreadyDisposed |
| UndoProperties.SetAll | src/undo.ts:13-20 | a run of outside writes preserves the invariant and leaves the last value written in the observable |
| UndoProperties.UndoTimes | src/undo.ts:26-37 | back-to-back undos preserve the invariant and the disposed flag |
| UndoProperties.RedoTimes | src/undo.ts:38-46 | back-to-back redos preserve the invariant and the disposed flag |
| UndoProperties.EditsAppend | src/undo.ts:17-19 | a nonempty run of distinct outside edits yields the history up to the cursor followed by the edits, with the cursor on the last, undo available and no redo |
| UndoProperties.UndosStepBack | src/undo.ts:28-35 | k undos from a cursor of at least k move the cursor back by k, keep the history, put that entry in the observable and leave redo available |
| UndoProperties.EditsThenUndosRestore | test/undo.spec.ts:24-37 | as many undos as there were distinct edits restore the observable's value and the cursor from before the edits |
| UndoProperties.FreshEditsThenUndos | test/undo.spec.ts:39-53 | from a fresh controller, k distinct edits followed by k back-to-back undos restore the construction-time value, with no undo left and (k > 0) a redo available |
| UndoProperties.UndoThenRedo | test/undo.spec.ts:55-68 | a redo right after a successful undo restores the exact state before the undo |
| UndoProperties.RedoThenUndo | src/undo.ts:26-46 | an undo right after a successful redo restores the exact state before the redo |
| UndoProperties.UndosThenRedosRestore | src/undo.ts:26-46 | k undos followed by k redos restore the exact state before the undos |
| UndoProperties.FlagsMeanAvailability | src/undo.ts:47-52 | `hasUndo` holds exactly when undo would change the state, and `hasRedo` exactly when redo would |
| UndoProperties.RedosWithoutRedoEntries | src/undo.ts:40 | with no redo entry, any number of redos leave the state unchanged |
| UndoProperties.EditDiscardsRedo | test/undo.spec.ts:70-86 | a distinct outside edit, after any number of undos, leaves nothing to redo, and every later redo is a no-op |
| UndoProperties.DisposedIgnoresEdits | test/undo.spec.ts:88-93 | after dispose, any run of outside writes leaves history and cursor untouched |
| UndoProperties.DisposeTwice | src/undo.ts:53-56 | a second dispose changes nothing |
| UndoTracker.Tracker.constructor | src/undo.ts:7-23 | the new object is in the state `Init` describes: invariant holds, no undo, no redo |
| UndoTracker.Tracker.HasUndo | src/undo.ts:47-49 | the getter agrees with `hasUndo` of the object's state |
| UndoTracker.Tracker.HasRedo | src/undo.ts:50-52 | the getter agrees with `hasRedo` of the object's state |
| UndoTracker.Tracker.OnChange | src/undo.ts:14-20 | writing by index and then cutting the array's length takes exactly the `OnChange` step |
| UndoTracker.Tracker.SetObservable | src/undo.ts:14 | a write to the observable takes exactly the `SetObservable` step |
| UndoTracker.Tracker.Undo | src/undo.ts:26-37 | the unsubscribe/write/resubscribe bracket takes exactly the `Undo` step and keeps the invariant |
| UndoTracker.Tracker.Redo | src/undo.ts:38-46 | takes exactly the `Redo` step and keeps the invariant |
| UndoTracker.Tracker.Dispose | src/undo.ts:53-56 | takes exactly the `Dispose` step and keeps the invariant |
| UndoTracker.CanUndoInitialChange | test/undo.spec.ts:13-22 | 123, set to 456, undo: the observable reads 456 and then 123 |
| UndoTracker.CanRepeatedlyUndo | test/undo.spec.ts:24-37 | 123, 456, 789, two undos: 456 then 123, with no undo and a redo available |
| UndoTracker.CanUndoTwiceBackToBack | test/undo.spec.ts:39-53 | two undos issued together from 789 land on 123, with no undo and a redo available |
| UndoTracker.CanRedo | test/undo.spec.ts:55-68 | undo from 789 gives 456, redo gives 789 again |
| UndoTracker.ResetsRedoAfterChange | test/undo.spec.ts:70-86 | after an undo, setting 0 leaves no redo and a later redo keeps 0 |
| UndoTracker.StopsObservingAfterDispose | test/undo.spec.ts:88-93 | after dispose nothing is subscribed, a write is not recorded, and undo and redo report AlreadyDisposed |

## Left out

- The mobx library: `observable.box`, `reaction`, `action` and `runInAction`
  batching, and the reactive notification of `hasUndo`/`hasRedo`. The
  subscription is the flag `tracking`. A notification is an explicit
  `OnChange` call from `SetObservable`. Calls grouped in one action are
  plain sequential calls. The getters are functions of the state.
- The "fires only on a distinct change" rule of `SetObservable` is an
  assumption about mobx's reaction and default comparer. Values are compared
  with Dafny's `==` rather than JavaScript's `Object.is`.
- Exceptions thrown by the caller's reader or writer are not modelled. The
  writer is plain assignment to `value`. So the state left behind when the
  writer throws mid-undo (cursor already moved) is not captured.
- Thrown errors are the returned outcome `AlreadyDisposed`, with the state
  unchanged. No stack unwinding is modelled.
- The introspection with `mobx.getObserverTree` in test/undo.spec.ts:92 is
  represented by the `tracking == false` result instead.
- wallaby.js is test-runner configuration with no logic.
- A second `dispose()` is modelled as harmless, because cancelling an
  already cancelled mobx reaction does nothing. Like every method, `Dispose`
  requires the object invariant, which holds between all calls.
