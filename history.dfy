/**
 The mutable part of the machine as a value, and each operation of the
 machine as a function from one such value to the next. These functions are
 the specification of the methods of `Machine.FSM`; the lemmas here state
 what the operations promise when several are combined: the history keeps its
 baseline, undo and redo are inverse moves between the two stacks, a trigger
 invalidates redo, and undo runs out exactly at the baseline.
 */
module History {
  import opened Table

  /**
   The hard-coded name the history starts from and collapses back to. It is
   a fixed name, independent of the configuration's initial state.
   */
  const Baseline: string := "normal"

  /** The two failures the machine reports; on either one nothing changes. */
  datatype Error =
    | InvalidState(target: string)
    | InvalidTransition(from: string, event: string)

  datatype Result<T> = Ok(value: T) | Err(error: Error)

  /**
   The mutable state of a machine: the current state, the history stack
   (top at the end) and the stack of undone states available to redo (top at
   the end).
   */
  datatype Snapshot = Snapshot(state: string, history: seq<string>, undone: seq<string>)

  /** The outcome of undo or redo: whether it moved, and the state after it. */
  datatype Navigation = Navigation(moved: bool, after: Snapshot)

  /** The history invariant: never empty, and the baseline at the bottom. */
  predicate HistoryValid(h: seq<string>) {
    |h| > 0 && h[0] == Baseline
  }

  /** The current state is the top of the history. */
  predicate Synced(m: Snapshot) {
    |m.history| > 0 && m.state == m.history[|m.history| - 1]
  }

  function Top(s: seq<string>): (r: string)
    requires s != []
  {
    s[|s| - 1]
  }

  function Pop(s: seq<string>): (r: seq<string>)
    requires s != []
  {
    s[..|s| - 1]
  }

  /** A new machine: at the initial state, history at the baseline, nothing to redo. */
  function Init(c: Config): (m: Snapshot)
    ensures m.state == c.initial
    ensures m.history == [Baseline] && m.undone == []
  {
    Snapshot(c.initial, [Baseline], [])
  }

  /**
   How the history records entering state `s`: entering the baseline
   collapses it to the baseline alone, any other state is pushed on top.
   */
  function Record(h: seq<string>, s: string): (r: seq<string>)
    ensures r != [] && Top(r) == s
    ensures s != Baseline ==> Pop(r) == h
    ensures s == Baseline ==> |r| == 1
    ensures HistoryValid(h) ==> HistoryValid(r)
  {
    if s == Baseline then [Baseline] else h + [s]
  }

  /** Jump to a declared state, recording it; the redo stack is kept. */
  function ChangeState(c: Config, m: Snapshot, target: string): (r: Result<Snapshot>)
    ensures r.Ok? <==> target in c.states
    ensures r.Err? ==> r.error == InvalidState(target)
    ensures r.Ok? ==> r.value.state == target && r.value.undone == m.undone && Synced(r.value)
    ensures r.Ok? ==> r.value.history == Record(m.history, target)
    ensures r.Ok? && HistoryValid(m.history) ==> HistoryValid(r.value.history)
  {
    if target in c.states then Ok(Snapshot(target, Record(m.history, target), m.undone))
    else Err(InvalidState(target))
  }

  /**
   Follow the current state's transition for `event`, recording the
   destination; a new branch of history empties the redo stack.
   */
  function Trigger(c: Config, m: Snapshot, event: string): (r: Result<Snapshot>)
    ensures r.Ok? <==> Offers(c, m.state, event)
    ensures r.Err? ==> r.error == InvalidTransition(m.state, event)
    ensures r.Ok? ==> r.value.state == c.states[m.state].transitions[event]
    ensures r.Ok? ==> r.value.undone == [] && Synced(r.value)
    ensures r.Ok? ==> r.value.history == Record(m.history, r.value.state)
    ensures r.Ok? && HistoryValid(m.history) ==> HistoryValid(r.value.history)
  {
    match Transition(c, m.state, event)
    case Some(dest) => Ok(Snapshot(dest, Record(m.history, dest), []))
    case None => Err(InvalidTransition(m.state, event))
  }

  /** Back to the initial state without recording anything. */
  function Reset(c: Config, m: Snapshot): (r: Snapshot)
    ensures r.state == c.initial
    ensures r.history == m.history && r.undone == m.undone
  {
    m.(state := c.initial)
  }

  /**
   Move the top of the history onto the redo stack and go to the state below
   it. At the baseline nothing moves, but the state is still set to the
   bottom of the history.
   */
  function Undo(m: Snapshot): (r: Navigation)
    requires m.history != []
    ensures r.moved <==> |m.history| > 1
    ensures |r.after.history| + |r.after.undone| == |m.history| + |m.undone|
    ensures r.moved ==> r.after.history == Pop(m.history) && r.after.undone == m.undone + [Top(m.history)]
    ensures !r.moved ==> r.after.history == m.history && r.after.undone == m.undone
    ensures Synced(r.after)
    ensures HistoryValid(m.history) ==> HistoryValid(r.after.history)
  {
    if |m.history| > 1 then
      var h := Pop(m.history);
      Navigation(true, Snapshot(Top(h), h, m.undone + [Top(m.history)]))
    else
      Navigation(false, m.(state := m.history[0]))
  }

  /** Move the top of the redo stack back onto the history and go to it. */
  function Redo(m: Snapshot): (r: Navigation)
    ensures r.moved <==> m.undone != []
    ensures |r.after.history| + |r.after.undone| == |m.history| + |m.undone|
    ensures r.moved ==> r.after.history == m.history + [Top(m.undone)] && r.after.undone == Pop(m.undone)
    ensures r.moved ==> Synced(r.after)
    ensures !r.moved ==> r.after == m
    ensures HistoryValid(m.history) ==> HistoryValid(r.after.history)
  {
    if m.undone != [] then
      var s := Top(m.undone);
      Navigation(true, Snapshot(s, m.history + [s], Pop(m.undone)))
    else
      Navigation(false, m)
  }

  /** Forget the whole history: back to the baseline with nothing to redo. */
  function ClearHistory(m: Snapshot): (r: Snapshot)
    ensures r.state == m.state
    ensures r.history == [Baseline] && r.undone == []
  {
    m.(history := [Baseline], undone := [])
  }

  /** A successful undo followed by redo restores both stacks exactly. */
  lemma UndoThenRedo(m: Snapshot)
    requires |m.history| > 1
    ensures Undo(m).moved && Redo(Undo(m).after).moved
    ensures Redo(Undo(m).after).after == Snapshot(Top(m.history), m.history, m.undone)
  {
  }

  /** A successful redo followed by undo restores both stacks exactly. */
  lemma RedoThenUndo(m: Snapshot)
    requires m.history != [] && m.undone != []
    ensures Redo(m).moved && Undo(Redo(m).after).moved
    ensures Undo(Redo(m).after).after == Snapshot(Top(m.history), m.history, m.undone)
  {
  }

  /**
   Undoing a successful trigger to a state other than the baseline returns to
   the history before it, with only that state left to redo.
   */
  lemma TriggerThenUndo(c: Config, m: Snapshot, event: string)
    requires m.history != []
    requires Trigger(c, m, event).Ok? && Trigger(c, m, event).value.state != Baseline
    ensures var u := Undo(Trigger(c, m, event).value);
      u.moved && u.after == Snapshot(Top(m.history), m.history, [Trigger(c, m, event).value.state])
  {
  }

  /**
   Undoing a jump to a state other than the baseline returns to the history
   before it, with that state pushed on the redo stack it left intact.
   */
  lemma ChangeStateThenUndo(c: Config, m: Snapshot, target: string)
    requires m.history != [] && target in c.states && target != Baseline
    ensures var u := Undo(ChangeState(c, m, target).value);
      u.moved && u.after == Snapshot(Top(m.history), m.history, m.undone + [target])
  {
  }

  /** After a successful trigger there is nothing to redo. */
  lemma TriggerInvalidatesRedo(c: Config, m: Snapshot, event: string)
    requires Trigger(c, m, event).Ok?
    ensures !Redo(Trigger(c, m, event).value).moved
  {
  }

  /**
   Right after clearing the history neither undo nor redo moves; undo still
   sets the state to the baseline.
   */
  lemma ClearHistoryDisablesNavigation(m: Snapshot)
    ensures !Undo(ClearHistory(m)).moved && Undo(ClearHistory(m)).after.state == Baseline
    ensures !Redo(ClearHistory(m)).moved && Redo(ClearHistory(m)).after.state == m.state
  {
  }

  /** `k` undos in a row. */
  function UndoTimes(m: Snapshot, k: nat): (r: Snapshot)
    requires m.history != []
    ensures r.history != []
  {
    if k == 0 then m else Undo(UndoTimes(m, k - 1)).after
  }

  /** `k` redos in a row. */
  function RedoTimes(m: Snapshot, k: nat): (r: Snapshot)
    decreases k
  {
    if k == 0 then m else RedoTimes(Redo(m).after, k - 1)
  }

  function Reversed(s: seq<string>): (r: seq<string>)
    ensures |r| == |s|
    ensures forall i :: 0 <= i < |s| ==> r[i] == s[|s| - 1 - i]
  {
    if s == [] then [] else Reversed(s[1..]) + [s[0]]
  }

  /**
   After `k` undos that all moved, the history has lost its top `k` entries,
   and they lie on the redo stack in reverse order.
   */
  lemma {:induction false} UndoTimesShape(m: Snapshot, k: nat)
    requires m.history != [] && k < |m.history|
    ensures UndoTimes(m, k).history == m.history[..|m.history| - k]
    ensures UndoTimes(m, k).undone == m.undone + Reversed(m.history[|m.history| - k..])
    ensures k > 0 ==> Synced(UndoTimes(m, k))
    ensures k < |m.history| - 1 ==> Undo(UndoTimes(m, k)).moved
  {
    var n := |m.history|;
    if k == 0 {
      assert m.history[..n] == m.history;
      assert m.history[n..] == [];
    } else {
      UndoTimesShape(m, k - 1);
      var x := UndoTimes(m, k - 1);
      assert x.history == m.history[..n - k + 1];
      assert Pop(x.history) == m.history[..n - k];
      assert Top(x.history) == m.history[n - k];
      assert m.history[n - k..][1..] == m.history[n - k + 1..];
      assert Reversed(m.history[n - k..]) == Reversed(m.history[n - k + 1..]) + [m.history[n - k]];
    }
  }

  /**
   Undo runs out exactly at the baseline: from a valid history, every one of
   the first |history| - 1 undos moves, after them only the baseline is left
   and every state undone is on the redo stack, and the next undo fails and
   sets the state to the baseline.
   */
  lemma UndoExhaustion(m: Snapshot)
    requires HistoryValid(m.history)
    ensures forall k: nat :: k < |m.history| - 1 ==> Undo(UndoTimes(m, k)).moved
    ensures var x := UndoTimes(m, |m.history| - 1);
      && x.history == [Baseline]
      && x.undone == m.undone + Reversed(m.history[1..])
      && Undo(x) == Navigation(false, Snapshot(Baseline, [Baseline], x.undone))
  {
    forall k: nat | k < |m.history| - 1 ensures Undo(UndoTimes(m, k)).moved {
      UndoTimesShape(m, k);
    }
    UndoTimesShape(m, |m.history| - 1);
  }

  /**
   Undoing `k` times and then redoing `k` times, with nothing in between,
   gives back the machine exactly, provided its state is the top of its
   history.
   */
  lemma {:induction false} UndoRedoRoundTrip(m: Snapshot, k: nat)
    requires Synced(m) && k < |m.history|
    ensures RedoTimes(UndoTimes(m, k), k) == m
  {
    if k > 0 {
      var x := UndoTimes(m, k - 1);
      UndoTimesShape(m, k - 1);
      UndoThenRedo(x);
      assert Redo(UndoTimes(m, k)).after == x;
      UndoRedoRoundTrip(m, k - 1);
    }
  }

  /** The stacks an undo leaves behind do not depend on the current state. */
  lemma {:induction false} UndoTimesIgnoresState(m: Snapshot, n: Snapshot, k: nat)
    requires m.history != [] && m.history == n.history && m.undone == n.undone && k > 0
    ensures UndoTimes(m, k) == UndoTimes(n, k)
  {
    if k > 1 {
      UndoTimesIgnoresState(m, n, k - 1);
    }
  }

  /**
   Undoing `k > 0` times and then redoing `k` times restores both stacks
   exactly whatever the current state was (after a reset, say), and leaves
   the state at the top of the history.
   */
  lemma UndoRedoRestoresStacks(m: Snapshot, k: nat)
    requires 0 < k < |m.history|
    ensures RedoTimes(UndoTimes(m, k), k) == Snapshot(Top(m.history), m.history, m.undone)
  {
    var s := m.(state := Top(m.history));
    UndoTimesIgnoresState(m, s, k);
    UndoRedoRoundTrip(s, k);
  }

  /** Every operation of the machine that can change its state. */
  datatype Op =
    | ChangeStateOp(target: string)
    | TriggerOp(event: string)
    | ResetOp
    | UndoOp
    | RedoOp
    | ClearHistoryOp

  /** One operation; a failed change of state or trigger leaves everything as it was. */
  function Step(c: Config, m: Snapshot, op: Op): (r: Snapshot)
    requires m.history != []
  {
    match op
    case ChangeStateOp(t) => (match ChangeState(c, m, t) case Ok(n) => n case Err(_) => m)
    case TriggerOp(e) => (match Trigger(c, m, e) case Ok(n) => n case Err(_) => m)
    case ResetOp => Reset(c, m)
    case UndoOp => Undo(m).after
    case RedoOp => Redo(m).after
    case ClearHistoryOp => ClearHistory(m)
  }

  /**
   Any sequence of operations from a valid history keeps it valid: never
   empty, the baseline at the bottom.
   */
  function Run(c: Config, m: Snapshot, ops: seq<Op>): (r: Snapshot)
    requires HistoryValid(m.history)
    ensures HistoryValid(r.history)
    decreases |ops|
  {
    if ops == [] then m else Run(c, Step(c, m, ops[0]), ops[1..])
  }
}
