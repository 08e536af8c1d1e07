/** The automaton description of fsm_config.go: a plain value handed to the
    engine, plus the in-place AddTransition builder step. */
module FsmConfig {

  import opened Wrappers

  /** A nested transition table: `t[s][i]` is the successor of state `s` on
      symbol `i`. Go's nil map reads exactly like an empty one, so both are
      the empty map here. */
  type Table<S, I> = map<S, map<I, S>>

  /** FSMConfig: states, alphabet and final states are Go slices (order kept,
      duplicates tolerated); the transition relation is a partial function. */
  datatype Config<S, I> = Config(
    states: seq<S>,
    alphabet: seq<I>,
    initialState: S,
    finalStates: seq<S>,
    transitions: Table<S, I>)

  /** The partial function (state, symbol) -> state that a table denotes:
      None when there is no inner table for `s` or no entry for `i` in it. */
  function Lookup<S, I>(t: Table<S, I>, s: S, i: I): (r: Option<S>)
    ensures r.Some? <==> s in t && i in t[s]
    ensures r.Some? ==> r.value == t[s][i]
  {
    if s in t && i in t[s] then Some(t[s][i]) else None
  }

  /** The table after `AddTransition(from, input, to)`: a missing inner map for
      `from` is first replaced by an empty one, then `input` is bound to `to`. */
  function WithTransition<S, I>(t: Table<S, I>, from: S, input: I, to: S): (r: Table<S, I>)
    ensures r.Keys == t.Keys + {from}
    ensures input in r[from] && r[from][input] == to
    ensures from in t ==> r[from].Keys == t[from].Keys + {input}
    ensures from !in t ==> r[from].Keys == {input}
    ensures forall s :: s in t && s != from ==> r[s] == t[s]
    ensures forall i :: from in t && i in t[from] && i != input ==> r[from][i] == t[from][i]
  {
    var inner := if from in t then t[from] else map[];
    t[from := inner[input := to]]
  }

  /** Adding a transition binds exactly the pair (from, input), overwriting an
      earlier binding, and leaves the partial function unchanged elsewhere. */
  lemma LookupAfterAdd<S, I>(t: Table<S, I>, from: S, input: I, to: S, s: S, i: I)
    ensures Lookup(WithTransition(t, from, input, to), s, i)
         == if s == from && i == input then Some(to) else Lookup(t, s, i)
  {
  }

  /** Adding the same transition twice has the effect of adding it once. */
  lemma AddTransitionIdempotent<S, I>(t: Table<S, I>, from: S, input: I, to: S)
    ensures WithTransition(WithTransition(t, from, input, to), from, input, to)
         == WithTransition(t, from, input, to)
  {
    var once := WithTransition(t, from, input, to);
    var twice := WithTransition(once, from, input, to);
    assert twice.Keys == once.Keys;
    assert twice[from] == once[from];
  }

  /** A caller-owned FSMConfig variable. Go's AddTransition has a pointer
      receiver, so it updates the variable in place; this class is that
      variable. */
  class ConfigBuilder<S(==), I(==)> {
    var config: Config<S, I>

    constructor (config: Config<S, I>)
      ensures this.config == config
    {
      this.config := config;
    }

    /** Only the transition table changes; states, alphabet, initial state and
        final states are left as they were. */
    method AddTransition(from: S, input: I, to: S)
      modifies this
      ensures config == old(config).(transitions := WithTransition(old(config).transitions, from, input, to))
    {
      var transitions := config.transitions;
      if from !in transitions {
        transitions := transitions[from := map[]];
      }
      transitions := transitions[from := transitions[from][input := to]];
      config := config.(transitions := transitions);
    }
  }
}
