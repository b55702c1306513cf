/**
 The state machine object: an immutable configuration, the current state,
 the history stack and the redo stack, updated in place by its methods. Each
 method is tied, through `View()`, to the function of module `History` that
 specifies it, so every lemma proved there holds of the object.
 */
module Machine {
  import opened Table
  import History

  class FSM {
    const config: Config
    /** The current state. */
    var state: string
    /** The states entered so far, the baseline at the bottom and the latest on top. */
    var history: seq<string>
    /** The states undone and not yet redone, the most recently undone on top. */
    var undone: seq<string>

    /** The object invariant: the history is never empty and starts at the baseline. */
    ghost predicate Valid()
      reads this
    {
      History.HistoryValid(history)
    }

    /** The object's mutable state as a value. */
    ghost function View(): History.Snapshot
      reads this
    {
      History.Snapshot(state, history, undone)
    }

    constructor (config: Config)
      ensures Valid()
      ensures this.config == config
      ensures state == config.initial && history == [History.Baseline] && undone == []
      ensures View() == History.Init(config)
    {
      this.config := config;
      state := config.initial;
      history := [History.Baseline];
      undone := [];
    }

    /** The current state; nothing changes. */
    method GetState() returns (s: string)
      ensures s == state
    {
      s := state;
    }

    /**
     Jump to `target` if it is declared; otherwise report `InvalidState` and
     change nothing.
     */
    method ChangeState(target: string) returns (r: History.Result<()>)
      requires Valid()
      modifies this
      ensures Valid()
      ensures r.Ok? <==> target in config.states
      ensures r.Ok? ==> state == target && history == History.Record(old(history), target) && undone == old(undone)
      ensures r.Err? ==> r.error == History.InvalidState(target) && View() == old(View())
      ensures History.ChangeState(config, old(View()), target) == if r.Ok? then History.Ok(View()) else History.Err(r.error)
    {
      if target in config.states {
        state := target;
        history := History.Record(history, state);
        r := History.Ok(());
      } else {
        r := History.Err(History.InvalidState(target));
      }
    }

    /**
     Follow the current state's transition for `event` and return the new
     state, emptying the redo stack; if there is none, report
     `InvalidTransition` and change nothing.
     */
    method Trigger(event: string) returns (r: History.Result<string>)
      requires Valid()
      modifies this
      ensures Valid()
      ensures r.Ok? <==> Offers(config, old(state), event)
      ensures r.Ok? ==> r.value == config.states[old(state)].transitions[event] && state == r.value
      ensures r.Ok? ==> history == History.Record(old(history), r.value) && undone == []
      ensures r.Err? ==> r.error == History.InvalidTransition(old(state), event) && View() == old(View())
      ensures History.Trigger(config, old(View()), event) == if r.Ok? then History.Ok(View()) else History.Err(r.error)
    {
      if Offers(config, state, event) {
        state := config.states[state].transitions[event];
        history := History.Record(history, state);
        undone := [];
        r := History.Ok(state);
      } else {
        r := History.Err(History.InvalidTransition(state, event));
      }
    }

    /** Go back to the initial state; both stacks are left as they are. */
    method Reset()
      requires Valid()
      modifies this
      ensures Valid()
      ensures state == config.initial && history == old(history) && undone == old(undone)
      ensures View() == History.Reset(config, old(View()))
    {
      state := config.initial;
    }

    /**
     The declared states in enumeration order, or, given an event, those of
     them whose transition table reacts to it.
     */
    method GetStates(event: Option<string>) returns (r: seq<string>)
      ensures event.None? ==> r == config.keys
      ensures event.Some? ==> r == StatesWith(config, event.value, config.keys)
      ensures IsSubsequence(r, config.keys)
      ensures WellFormed(config) ==> NoDuplicates(r)
      ensures WellFormed(config) ==>
        forall k :: k in r <==> k in config.states && (event.None? || HasTransition(config.states[k], event.value))
    {
      r := [];
      if event.None? {
        for i := 0 to |config.keys|
          invariant r == config.keys[..i]
        {
          r := r + [config.keys[i]];
        }
        assert config.keys[..|config.keys|] == config.keys;
        SubsequenceReflexive(r);
      } else {
        var e := event.value;
        for i := 0 to |config.keys|
          invariant r == StatesWith(config, e, config.keys[..i])
        {
          var k := config.keys[i];
          assert config.keys[..i + 1][..i] == config.keys[..i];
          if Offers(config, k, e) {
            r := r + [k];
          }
        }
        assert config.keys[..|config.keys|] == config.keys;
        StatesWithIsSubsequence(config, e, config.keys);
        if WellFormed(config) {
          StatesWithNoDuplicates(config, e, config.keys);
        }
      }
    }

    /**
     Go back one step: move the top of the history onto the redo stack and
     go to the state below it. With only the baseline left, return false,
     move nothing, and go to the baseline.
     */
    method Undo() returns (moved: bool)
      requires Valid()
      modifies this
      ensures Valid()
      ensures moved <==> |old(history)| > 1
      ensures moved ==> history == old(history)[..|old(history)| - 1]
      ensures moved ==> undone == old(undone) + [old(history)[|old(history)| - 1]]
      ensures moved ==> state == history[|history| - 1]
      ensures !moved ==> history == old(history) && undone == old(undone) && state == History.Baseline
      ensures History.Undo(old(View())) == History.Navigation(moved, View())
    {
      if |history| > 1 {
        var top := history[|history| - 1];
        history := history[..|history| - 1];
        undone := undone + [top];
        state := history[|history| - 1];
        moved := true;
      } else {
        state := history[0];
        moved := false;
      }
    }

    /**
     Go forward one undone step: go to the top of the redo stack and move it
     back onto the history. With nothing to redo, return false and change
     nothing.
     */
    method Redo() returns (moved: bool)
      requires Valid()
      modifies this
      ensures Valid()
      ensures moved <==> old(undone) != []
      ensures moved ==> state == old(undone)[|old(undone)| - 1]
      ensures moved ==> history == old(history) + [state] && undone == old(undone)[..|old(undone)| - 1]
      ensures !moved ==> View() == old(View())
      ensures History.Redo(old(View())) == History.Navigation(moved, View())
    {
      if |undone| > 0 {
        state := undone[|undone| - 1];
        var top := undone[|undone| - 1];
        undone := undone[..|undone| - 1];
        history := history + [top];
        moved := true;
      } else {
        moved := false;
      }
    }

    /** Reset the history to the baseline and empty the redo stack; the state is kept. */
    method ClearHistory()
      requires Valid()
      modifies this
      ensures Valid()
      ensures state == old(state) && history == [History.Baseline] && undone == []
      ensures View() == History.ClearHistory(old(View()))
    {
      history := [History.Baseline];
      undone := [];
    }
  }

  /**
   A client of the object's contracts: the walk through a three-state
   configuration (normal, active, paused) going forward twice and then
   undoing past the baseline and redoing once.
   */
  method Walkthrough() {
    var states := map[
      "normal" := StateDef(map["go" := "active"]),
      "active" := StateDef(map["stop" := "normal", "pause" := "paused"]),
      "paused" := StateDef(map["resume" := "active"])];
    var c := Config("normal", ["normal", "active", "paused"], states);
    var m := new FSM(c);
    var s := m.Trigger("go");
    assert s == History.Ok("active");
    s := m.Trigger("pause");
    assert s == History.Ok("paused");
    var b := m.Undo();
    assert b && m.state == "active";
    b := m.Undo();
    assert b && m.state == "normal";
    b := m.Undo();
    assert !b && m.state == "normal";
    b := m.Redo();
    assert b && m.state == "active";
    var all := m.GetStates(None);
    assert all == ["normal", "active", "paused"];
  }
}
