/**
 * The controller returned by `trackUndo` (src/undo.ts) as an object whose
 * methods update its captured state in place: the history array, the cursor,
 * the disposed flag and the subscription, plus the observable value it
 * tracks. Each method is proved to perform exactly the step that module
 * UndoState describes, so every property proved there holds of the object.
 */
module UndoTracker {
  import opened UndoState

  class Tracker<T(==)> {
    var history: seq<T>    // undoStack
    var pointer: nat       // undoPointer
    var disposed: bool     // isDisposed
    var tracking: bool     // the change reaction is subscribed
    var value: T           // the tracked observable

    /** The object's state as a value. */
    ghost function State(): Snapshot<T>
      reads this
    {
      Snapshot(history, pointer, disposed, tracking, value)
    }

    /** The object invariant kept between calls. */
    ghost predicate Valid()
      reads this
    {
      UndoState.Valid(State())
    }

    /** `trackUndo` on an observable currently holding `init`. */
    constructor (init: T)
      ensures State() == Init(init)
      ensures Valid() && !HasUndo() && !HasRedo()
    {
      history := [init];
      pointer := 0;  // undoStack.length - 1
      disposed := false;
      value := init;
      tracking := true;
    }

    /** The `hasUndo` getter. */
    predicate HasUndo()
      reads this
      ensures HasUndo() <==> UndoState.HasUndo(State())
    {
      pointer != 0
    }

    /** The `hasRedo` getter. */
    predicate HasRedo()
      reads this
      ensures HasRedo() <==> UndoState.HasRedo(State())
    {
      pointer < |history| - 1
    }

    /**
     * The reaction callback: write the new value just after the cursor, move
     * the cursor onto it and cut the array's length there.
     */
    method OnChange(v: T) returns (o: Outcome)
      requires WellFormed(State())
      modifies this
      ensures Step(State(), o) == UndoState.OnChange(old(State()), v)
    {
      if disposed {
        return AlreadyDisposed;
      }
      pointer := pointer + 1;
      if pointer < |history| {
        history := history[pointer := v];
      } else {
        history := history + [v];
      }
      history := history[..pointer + 1];
      o := Ok;
    }

    /**
     * A write to the observable; the subscription delivers it to OnChange
     * when it is live and the value actually changes.
     */
    method SetObservable(v: T) returns (o: Outcome)
      requires WellFormed(State())
      modifies this
      ensures Step(State(), o) == UndoState.SetObservable(old(State()), v)
    {
      o := Ok;
      if v == value {
        return;
      }
      value := v;
      if tracking {
        o := OnChange(v);
      }
    }

    /** `undo()`. */
    method Undo() returns (o: Outcome)
      requires Valid()
      modifies this
      ensures Valid()
      ensures Step(State(), o) == UndoState.Undo(old(State()))
    {
      if disposed {
        return AlreadyDisposed;
      }
      if pointer == 0 {
        return Ok;
      }
      pointer := pointer - 1;
      tracking := false;                         // unsubscribe the change reaction
      var _ := SetObservable(history[pointer]);  // the writer puts back the entry under the cursor
      tracking := true;                          // subscribe again
      o := Ok;
    }

    /** `redo()`. */
    method Redo() returns (o: Outcome)
      requires Valid()
      modifies this
      ensures Valid()
      ensures Step(State(), o) == UndoState.Redo(old(State()))
    {
      if disposed {
        return AlreadyDisposed;
      }
      if pointer >= |history| - 1 {
        return Ok;
      }
      pointer := pointer + 1;
      tracking := false;                         // unsubscribe the change reaction
      var _ := SetObservable(history[pointer]);  // the writer puts back the entry under the cursor
      tracking := true;                          // subscribe again
      o := Ok;
    }

    /** `dispose()`. */
    method Dispose()
      requires Valid()
      modifies this
      ensures Valid()
      ensures State() == UndoState.Dispose(old(State()))
    {
      tracking := false;
      disposed := true;
    }
  }

  /** One outside change is undone back to the value read at construction. */
  method CanUndoInitialChange() returns (afterSet: int, afterUndo: int)
    ensures afterSet == 456 && afterUndo == 123
  {
    var t := new Tracker(123);
    var _ := t.SetObservable(456);
    afterSet := t.value;
    var _ := t.Undo();
    afterUndo := t.value;
  }

  /** Two outside changes are undone one at a time. */
  method CanRepeatedlyUndo() returns (first: int, second: int, hasUndo: bool, hasRedo: bool)
    ensures first == 456 && second == 123
    ensures !hasUndo && hasRedo
  {
    var t := new Tracker(123);
    var _ := t.SetObservable(456);
    var _ := t.SetObservable(789);
    var _ := t.Undo();
    first := t.value;
    var _ := t.Undo();
    second := t.value;
    hasUndo, hasRedo := t.HasUndo(), t.HasRedo();
  }

  /**
   * Two undos issued back to back, with no observation in between, land on
   * the construction-time value.
   */
  method CanUndoTwiceBackToBack() returns (v: int, hasUndo: bool, hasRedo: bool)
    ensures v == 123 && !hasUndo && hasRedo
  {
    var t := new Tracker(123);
    var _ := t.SetObservable(456);
    var _ := t.SetObservable(789);
    var _ := t.Undo();
    var _ := t.Undo();
    v, hasUndo, hasRedo := t.value, t.HasUndo(), t.HasRedo();
  }

  /** An undone change is redone. */
  method CanRedo() returns (afterUndo: int, afterRedo: int)
    ensures afterUndo == 456 && afterRedo == 789
  {
    var t := new Tracker(123);
    var _ := t.SetObservable(456);
    var _ := t.SetObservable(789);
    var _ := t.Undo();
    afterUndo := t.value;
    var _ := t.Redo();
    afterRedo := t.value;
  }

  /** An outside change after an undo discards the redo entry. */
  method ResetsRedoAfterChange() returns (afterRedo: int, hasRedo: bool)
    ensures afterRedo == 0 && !hasRedo
  {
    var t := new Tracker(123);
    var _ := t.SetObservable(456);
    var _ := t.SetObservable(789);
    var _ := t.Undo();
    var _ := t.SetObservable(0);
    hasRedo := t.HasRedo();
    var _ := t.Redo();
    afterRedo := t.value;
  }

  /**
   * After `dispose()` the subscription is gone, outside changes are not
   * recorded, and `undo()`/`redo()` report AlreadyDisposed.
   */
  method StopsObservingAfterDispose() returns (tracking: bool, history: seq<int>, undone: Outcome, redone: Outcome)
    ensures !tracking && history == [123]
    ensures undone == AlreadyDisposed && redone == AlreadyDisposed
  {
    var t := new Tracker(123);
    t.Dispose();
    var _ := t.SetObservable(456);
    tracking, history := t.tracking, t.history;
    undone := t.Undo();
    redone := t.Redo();
  }
}
