/**
 The configuration of a state machine: its initial state and its table of
 declared states, each with the events it reacts to and where they lead.
 Also the query that lists the declared states, optionally only those that
 react to a given event.
 */
module Table {

  datatype Option<T> = None | Some(value: T)

  /** One declared state: its transition table, event name to destination state name. */
  datatype StateDef = StateDef(transitions: map<string, string>)

  /**
   The immutable configuration. `states` maps each declared state name to its
   definition; `keys` lists the declared names in the order in which the
   configuration object enumerates them.
   */
  datatype Config = Config(initial: string, keys: seq<string>, states: map<string, StateDef>)

  predicate NoDuplicates(s: seq<string>) {
    forall i, j :: 0 <= i < j < |s| ==> s[i] != s[j]
  }

  /**
   A configuration object has each key once, and its enumeration visits
   exactly its keys.
   */
  predicate WellFormed(c: Config) {
    && NoDuplicates(c.keys)
    && (forall k :: k in c.keys ==> k in c.states)
    && (forall k :: k in c.states ==> k in c.keys)
  }

  /**
   The lookup `transitions[event]` succeeds as a condition: the event is
   present and its destination is not the empty string (which is falsy).
   */
  predicate HasTransition(d: StateDef, event: string) {
    event in d.transitions && d.transitions[event] != ""
  }

  /** State `s` is declared and has a transition for `event`. */
  predicate Offers(c: Config, s: string, event: string) {
    s in c.states && HasTransition(c.states[s], event)
  }

  /**
   The destination of `event` from state `s`, if `s` offers it. For a
   well-formed configuration the lookup succeeds exactly from the states the
   filtered state query lists for `event`: the same truthiness test guards
   the trigger and filters the query.
   */
  function Transition(c: Config, s: string, event: string): (r: Option<string>)
    ensures r.Some? <==> s in c.states && event in c.states[s].transitions && c.states[s].transitions[event] != ""
    ensures r.Some? ==> r.value == c.states[s].transitions[event]
    ensures WellFormed(c) ==> (r.Some? <==> s in StatesWith(c, event, c.keys))
  {
    if Offers(c, s, event) then Some(c.states[s].transitions[event]) else None
  }

  /**
   The names in `keys`, in their order, that are declared and react to
   `event`: the specification of the filtering loop of the state query.
   */
  function StatesWith(c: Config, event: string, keys: seq<string>): (r: seq<string>)
    ensures |r| <= |keys|
    ensures forall k :: k in r <==> k in keys && Offers(c, k, event)
    decreases |keys|
  {
    if keys == [] then []
    else
      var k := keys[|keys| - 1];
      assert forall x :: x in keys <==> x in keys[..|keys| - 1] || x == k;
      StatesWith(c, event, keys[..|keys| - 1]) + (if Offers(c, k, event) then [k] else [])
  }

  /**
   `a` is a subsequence of `b`: `a` is obtained from `b` by deleting elements,
   keeping the order of the rest. Matching greedily from the back decides it.
   */
  predicate IsSubsequence(a: seq<string>, b: seq<string>)
    decreases |b|
  {
    if a == [] then true
    else if b == [] then false
    else if a[|a| - 1] == b[|b| - 1] then IsSubsequence(a[..|a| - 1], b[..|b| - 1])
    else IsSubsequence(a, b[..|b| - 1])
  }

  lemma {:induction false} SubsequenceReflexive(s: seq<string>)
    ensures IsSubsequence(s, s)
    decreases |s|
  {
    if s != [] {
      SubsequenceReflexive(s[..|s| - 1]);
    }
  }

  /** The filtered states keep the relative order of `keys`. */
  lemma {:induction false} StatesWithIsSubsequence(c: Config, event: string, keys: seq<string>)
    ensures IsSubsequence(StatesWith(c, event, keys), keys)
    decreases |keys|
  {
    if keys != [] {
      var init, k := keys[..|keys| - 1], keys[|keys| - 1];
      var r0 := StatesWith(c, event, init);
      StatesWithIsSubsequence(c, event, init);
      if Offers(c, k, event) {
        var r := r0 + [k];
        assert r[..|r| - 1] == r0;
      } else {
        assert StatesWith(c, event, keys) == r0;
        if r0 != [] {
          assert r0[|r0| - 1] in r0;
          assert r0[|r0| - 1] != k;
        }
      }
    }
  }

  /** Filtering distinct names yields distinct names. */
  lemma {:induction false} StatesWithNoDuplicates(c: Config, event: string, keys: seq<string>)
    requires NoDuplicates(keys)
    ensures NoDuplicates(StatesWith(c, event, keys))
    decreases |keys|
  {
    if keys != [] {
      var init, k := keys[..|keys| - 1], keys[|keys| - 1];
      assert NoDuplicates(init);
      StatesWithNoDuplicates(c, event, init);
      var r0 := StatesWith(c, event, init);
      if Offers(c, k, event) {
        assert k !in init;
        assert k !in r0;
        var r := r0 + [k];
        forall i, j | 0 <= i < j < |r| ensures r[i] != r[j] {
          if j == |r| - 1 {
            assert r[i] in r0;
          }
        }
      } else {
        assert StatesWith(c, event, keys) == r0;
      }
    }
  }
}
