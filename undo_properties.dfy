/**
 * Properties of the `trackUndo` controller over sequences of operations:
 * edits followed by undos, undos followed by redos, edits clearing the redo
 * entries, and what `dispose` freezes. Back-to-back calls (including the
 * ones a caller groups into one mobx action) are plain sequential steps here.
 */
module UndoProperties {
  import opened UndoState

  /** One call a client of the controller can make. */
  datatype Op<T> = Edit(v: T) | UndoOp | RedoOp | DisposeOp

  /** The state and the outcomes after a sequence of calls. */
  datatype Trace<T> = Trace(state: Snapshot<T>, outcomes: seq<Outcome>)

  /** Performs one call; an edit is an outside write to the observable. */
  function Apply<T(==)>(s: Snapshot<T>, op: Op<T>): (r: Step<T>)
    requires Valid(s)
    ensures Valid(r.state)
  {
    match op
    case Edit(v) => SetObservable(s, v)
    case UndoOp => Undo(s)
    case RedoOp => Redo(s)
    case DisposeOp => Step(Dispose(s), Ok)
  }

  /**
   * Performs the calls in order. The invariant holds after every call, an
   * edit never raises (the callback's defensive check is unreachable), and
   * once disposed the controller stays disposed, keeps its history and
   * cursor, and refuses every undo and redo.
   */
  function Run<T(==)>(s: Snapshot<T>, ops: seq<Op<T>>): (r: Trace<T>)
    requires Valid(s)
    ensures Valid(r.state) && |r.outcomes| == |ops|
    ensures s.disposed ==> r.state.disposed
    ensures s.disposed ==> r.state.history == s.history && r.state.pointer == s.pointer
    ensures forall i :: 0 <= i < |ops| && r.outcomes[i] == AlreadyDisposed ==> ops[i].UndoOp? || ops[i].RedoOp?
    ensures s.disposed ==> forall i :: 0 <= i < |ops| && (ops[i].UndoOp? || ops[i].RedoOp?) ==> r.outcomes[i] == AlreadyDisposed
    decreases |ops|
  {
    if ops == [] then
      Trace(s, [])
    else
      var first := Apply(s, ops[0]);
      var rest := Run(first.state, ops[1..]);
      Trace(rest.state, [first.outcome] + rest.outcomes)
  }

  /** Each value differs from the one before it, the first from `v0`. */
  predicate EachChanges<T(==)>(v0: T, vs: seq<T>)
    decreases |vs|
  {
    vs == [] || (vs[0] != v0 && EachChanges(vs[0], vs[1..]))
  }

  /** Outside code writes each of `vs` to the observable in turn. */
  function SetAll<T(==)>(s: Snapshot<T>, vs: seq<T>): (r: Snapshot<T>)
    requires Valid(s)
    ensures Valid(r) && r.disposed == s.disposed
    ensures vs != [] ==> r.value == vs[|vs| - 1]
    decreases |vs|
  {
    if vs == [] then s else SetAll(SetObservable(s, vs[0]).state, vs[1..])
  }

  /** `undo()` called `k` times back to back. */
  function UndoTimes<T(==)>(s: Snapshot<T>, k: nat): (r: Snapshot<T>)
    requires Valid(s)
    ensures Valid(r) && r.disposed == s.disposed
    decreases k
  {
    if k == 0 then s else UndoTimes(Undo(s).state, k - 1)
  }

  /** `redo()` called `k` times back to back. */
  function RedoTimes<T(==)>(s: Snapshot<T>, k: nat): (r: Snapshot<T>)
    requires Valid(s)
    ensures Valid(r) && r.disposed == s.disposed
  {
    if k == 0 then s else Redo(RedoTimes(s, k - 1)).state
  }

  /**
   * A run of distinct outside edits keeps the history up to the cursor and
   * appends the edits after it, leaving the cursor on the last one.
   */
  lemma {:induction false} EditsAppend<T>(s: Snapshot<T>, vs: seq<T>)
    requires Valid(s) && !s.disposed && EachChanges(s.value, vs)
    requires vs != []
    ensures SetAll(s, vs).history == s.history[..s.pointer + 1] + vs
    ensures SetAll(s, vs).pointer == s.pointer + |vs|
    ensures HasUndo(SetAll(s, vs)) && !HasRedo(SetAll(s, vs))
    decreases |vs|
  {
    var t := SetObservable(s, vs[0]).state;
    if vs[1..] != [] {
      EditsAppend(t, vs[1..]);
      assert t.history[..t.pointer + 1] == t.history;
      assert s.history[..s.pointer + 1] + vs == s.history[..s.pointer + 1] + [vs[0]] + vs[1..];
    }
  }

  /**
   * `k` undos from a cursor at or beyond `k` step the cursor back by `k`,
   * leave the history alone, put that entry in the observable, and leave
   * something to redo.
   */
  lemma {:induction false} UndosStepBack<T>(s: Snapshot<T>, k: nat)
    requires Valid(s) && !s.disposed && k <= s.pointer
    ensures UndoTimes(s, k).history == s.history
    ensures UndoTimes(s, k).pointer == s.pointer - k
    ensures UndoTimes(s, k).value == s.history[s.pointer - k]
    ensures k > 0 ==> HasRedo(UndoTimes(s, k))
    decreases k
  {
    if k > 0 {
      UndosStepBack(Undo(s).state, k - 1);
    }
  }

  /** As many undos as there were distinct edits bring the observable back. */
  lemma EditsThenUndosRestore<T>(s: Snapshot<T>, vs: seq<T>)
    requires Valid(s) && !s.disposed && EachChanges(s.value, vs)
    ensures UndoTimes(SetAll(s, vs), |vs|).value == s.value
    ensures UndoTimes(SetAll(s, vs), |vs|).pointer == s.pointer
  {
    if vs != [] {
      EditsAppend(s, vs);
      UndosStepBack(SetAll(s, vs), |vs|);
    }
  }

  /**
   * From a fresh controller, `k` distinct edits followed by `k` undos restore
   * the construction-time value, with nothing left to undo and (for `k > 0`)
   * something to redo.
   */
  lemma FreshEditsThenUndos<T>(v0: T, vs: seq<T>)
    requires EachChanges(v0, vs)
    ensures UndoTimes(SetAll(Init(v0), vs), |vs|).value == v0
    ensures !HasUndo(UndoTimes(SetAll(Init(v0), vs), |vs|))
    ensures vs != [] ==> HasRedo(UndoTimes(SetAll(Init(v0), vs), |vs|))
  {
    EditsThenUndosRestore(Init(v0), vs);
    if vs != [] {
      EditsAppend(Init(v0), vs);
      UndosStepBack(SetAll(Init(v0), vs), |vs|);
    }
  }

  /** `redo()` right after a successful `undo()` restores the state before it. */
  lemma UndoThenRedo<T>(s: Snapshot<T>)
    requires Valid(s) && !s.disposed && HasUndo(s)
    ensures Redo(Undo(s).state) == Step(s, Ok)
  {
  }

  /** `undo()` right after a successful `redo()` restores the state before it. */
  lemma RedoThenUndo<T>(s: Snapshot<T>)
    requires Valid(s) && !s.disposed && HasRedo(s)
    ensures Undo(Redo(s).state) == Step(s, Ok)
  {
  }

  /** `k` undos followed by `k` redos restore the state before the undos. */
  lemma {:induction false} UndosThenRedosRestore<T>(s: Snapshot<T>, k: nat)
    requires Valid(s) && !s.disposed && k <= s.pointer
    ensures RedoTimes(UndoTimes(s, k), k) == s
    decreases k
  {
    if k > 0 {
      var u := Undo(s).state;
      UndosThenRedosRestore(u, k - 1);
      UndoThenRedo(s);
    }
  }

  /**
   * `hasUndo` holds exactly when `undo()` would change something, and
   * `hasRedo` exactly when `redo()` would.
   */
  lemma FlagsMeanAvailability<T>(s: Snapshot<T>)
    requires Valid(s) && !s.disposed
    ensures HasUndo(s) <==> Undo(s).state != s
    ensures HasRedo(s) <==> Redo(s).state != s
  {
  }

  /** With nothing to redo, any number of `redo()` calls change nothing. */
  lemma {:induction false} RedosWithoutRedoEntries<T>(s: Snapshot<T>, k: nat)
    requires Valid(s) && !HasRedo(s)
    ensures RedoTimes(s, k) == s
  {
    if k > 0 {
      RedosWithoutRedoEntries(s, k - 1);
    }
  }

  /**
   * A new outside edit, after any number of undos, discards the redo
   * entries: there is nothing to redo afterwards, and every later `redo()`
   * is a no-op until the next `undo()`.
   */
  lemma EditDiscardsRedo<T>(s: Snapshot<T>, v: T, k: nat)
    requires Valid(s) && !s.disposed && v != s.value
    ensures !HasRedo(SetObservable(s, v).state)
    ensures RedoTimes(SetObservable(s, v).state, k) == SetObservable(s, v).state
  {
    RedosWithoutRedoEntries(SetObservable(s, v).state, k);
  }

  /**
   * Outside edits after `dispose` still change the observable but never
   * reach the history or the cursor.
   */
  lemma {:induction false} DisposedIgnoresEdits<T>(s: Snapshot<T>, vs: seq<T>)
    requires Valid(s) && s.disposed
    ensures SetAll(s, vs).history == s.history && SetAll(s, vs).pointer == s.pointer
    decreases |vs|
  {
    if vs != [] {
      DisposedIgnoresEdits(SetObservable(s, vs[0]).state, vs[1..]);
    }
  }

  /** A second `dispose()` changes nothing. */
  lemma DisposeTwice<T>(s: Snapshot<T>)
    requires Valid(s)
    ensures Dispose(Dispose(s)) == Dispose(s)
  {
  }
}
