/**
 * The undo/redo controller built by `trackUndo` (src/undo.ts), described as a
 * state machine over plain values.
 *
 * A `Snapshot` holds the controller's captured state (the history array
 * `undoStack`, the cursor `undoPointer`, the `isDisposed` flag, whether the
 * change reaction is currently subscribed) together with the externally owned
 * observable value it tracks. Each operation of the controller is a function
 * from one snapshot to the next; the class in module UndoTracker performs the
 * same steps in place and is proved against these functions.
 *
 * The reactive subscription is modelled by the `tracking` flag: a write to the
 * observable reaches the change callback exactly when the subscription is live
 * and the written value differs from the current one.
 */
module UndoState {

  /** The single error the controller raises: an operation after `dispose`. */
  datatype Outcome = Ok | AlreadyDisposed

  /** The controller's captured state and the observable value it tracks. */
  datatype Snapshot<T> = Snapshot(
    history: seq<T>,  // undoStack
    pointer: nat,     // undoPointer
    disposed: bool,   // isDisposed
    tracking: bool,   // the change reaction is subscribed
    value: T          // the observable read by readObservable and written by setObservable
  )

  /** A state reached by one operation, with what the operation reported. */
  datatype Step<T> = Step(state: Snapshot<T>, outcome: Outcome)

  /**
   * The shape every snapshot keeps, also in the middle of an undo or redo:
   * the history is never empty, the cursor indexes it, and a disposed
   * controller has no live subscription.
   */
  predicate WellFormed<T>(s: Snapshot<T>)
  {
    |s.history| > 0 && s.pointer < |s.history| && (s.disposed ==> !s.tracking)
  }

  /**
   * The invariant between operations: the subscription is live exactly while
   * the controller is not disposed, and while it is live the cursor "always
   * points to the current value".
   */
  predicate Valid<T(==)>(s: Snapshot<T>)
  {
    && WellFormed(s)
    && s.tracking == !s.disposed
    && (!s.disposed ==> s.history[s.pointer] == s.value)
  }

  /** The `hasUndo` getter. */
  predicate HasUndo<T>(s: Snapshot<T>)
  {
    s.pointer != 0
  }

  /** The `hasRedo` getter. */
  predicate HasRedo<T>(s: Snapshot<T>)
  {
    s.pointer < |s.history| - 1
  }

  /**
   * `trackUndo(read, write)`: the history is seeded with the value read at
   * construction, the cursor points at it, and the subscription is started.
   */
  function Init<T(==)>(v: T): (r: Snapshot<T>)
    ensures Valid(r) && !r.disposed && r.value == v
    ensures !HasUndo(r) && !HasRedo(r)
  {
    Snapshot([v], 0, false, true, v)
  }

  /**
   * The reaction callback of `trackChanges`, invoked with the new value: after
   * `dispose` it fails; otherwise the value becomes the entry just after the
   * cursor, every entry beyond that is dropped and the cursor moves onto it.
   */
  function OnChange<T(==)>(s: Snapshot<T>, v: T): (r: Step<T>)
    requires WellFormed(s)
    ensures WellFormed(r.state)
    ensures r.outcome == AlreadyDisposed <==> s.disposed
    ensures s.disposed ==> r.state == s
    ensures !s.disposed ==>
              && r.state.pointer == s.pointer + 1
              && r.state.history[..r.state.pointer] == s.history[..s.pointer + 1]
              && r.state.history[r.state.pointer] == v
              && HasUndo(r.state) && !HasRedo(r.state)
              && r.state.(history := s.history, pointer := s.pointer) == s
  {
    if s.disposed then
      Step(s, AlreadyDisposed)
    else
      var p := s.pointer + 1;
      Step(s.(history := s.history[..p] + [v], pointer := p), Ok)
  }

  /**
   * A write of `v` to the observable, by outside code or by the controller's
   * own writer. Writing the value it already holds changes nothing; any other
   * write reaches the change callback only while the subscription is live.
   */
  function SetObservable<T(==)>(s: Snapshot<T>, v: T): (r: Step<T>)
    requires WellFormed(s)
    ensures WellFormed(r.state) && r.outcome == Ok
    ensures r.state.value == v
    ensures r.state.disposed == s.disposed && r.state.tracking == s.tracking
    ensures s.tracking && v != s.value ==>
              r.state.history == s.history[..s.pointer + 1] + [v] && r.state.pointer == s.pointer + 1
    ensures !(s.tracking && v != s.value) ==>
              r.state.history == s.history && r.state.pointer == s.pointer
    ensures Valid(s) ==> Valid(r.state)
    ensures Valid(s) && !s.disposed && v != s.value ==> HasUndo(r.state) && !HasRedo(r.state)
  {
    if v == s.value then
      Step(s, Ok)
    else
      var changed := s.(value := v);
      if s.tracking then OnChange(changed, v) else Step(changed, Ok)
  }

  /**
   * The bracket shared by `undo` and `redo`: move the cursor to `p`, stop the
   * subscription, write `history[p]` through the writer, and subscribe again.
   * Because the subscription is off during the write, the history is unchanged.
   */
  function WriteUntracked<T(==)>(s: Snapshot<T>, p: nat): (r: Snapshot<T>)
    requires Valid(s) && !s.disposed && p < |s.history|
    ensures Valid(r) && !r.disposed
    ensures r.history == s.history && r.pointer == p && r.value == s.history[p]
  {
    var stopped := s.(pointer := p, tracking := false);
    var written := SetObservable(stopped, s.history[p]).state;
    written.(tracking := true)
  }

  /**
   * `undo()`: fails after `dispose`, does nothing at the first entry, and
   * otherwise steps the cursor back and writes that entry to the observable.
   */
  function Undo<T(==)>(s: Snapshot<T>): (r: Step<T>)
    requires Valid(s)
    ensures Valid(r.state) && r.state.disposed == s.disposed
    ensures r.outcome == AlreadyDisposed <==> s.disposed
    ensures s.disposed || !HasUndo(s) ==> r.state == s
    ensures !s.disposed && HasUndo(s) ==>
              && r.state.pointer + 1 == s.pointer
              && r.state.history == s.history
              && r.state.value == s.history[r.state.pointer]
              && HasRedo(r.state)
  {
    if s.disposed then
      Step(s, AlreadyDisposed)
    else if s.pointer == 0 then
      Step(s, Ok)
    else
      Step(WriteUntracked(s, s.pointer - 1), Ok)
  }

  /**
   * `redo()`: fails after `dispose`, does nothing at the last entry, and
   * otherwise steps the cursor forward and writes that entry to the observable.
   */
  function Redo<T(==)>(s: Snapshot<T>): (r: Step<T>)
    requires Valid(s)
    ensures Valid(r.state) && r.state.disposed == s.disposed
    ensures r.outcome == AlreadyDisposed <==> s.disposed
    ensures s.disposed || !HasRedo(s) ==> r.state == s
    ensures !s.disposed && HasRedo(s) ==>
              && r.state.pointer == s.pointer + 1
              && r.state.history == s.history
              && r.state.value == s.history[r.state.pointer]
              && HasUndo(r.state)
  {
    if s.disposed then
      Step(s, AlreadyDisposed)
    else if s.pointer >= |s.history| - 1 then
      Step(s, Ok)
    else
      Step(WriteUntracked(s, s.pointer + 1), Ok)
  }

  /**
   * `dispose()`: cancels the subscription and marks the controller disposed;
   * the history, the cursor and the observable are left as they are.
   */
  function Dispose<T(==)>(s: Snapshot<T>): (r: Snapshot<T>)
    requires Valid(s)
    ensures Valid(r) && r.disposed && !r.tracking
    ensures r.history == s.history && r.pointer == s.pointer && r.value == s.value
  {
    s.(tracking := false, disposed := true)
  }
}
