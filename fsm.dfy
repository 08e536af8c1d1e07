/** The generic deterministic automaton engine of internal/fsm.go:
    construction-time validation, the run state (current state and history)
    and the read-only queries. */
module Fsm {

  import opened Wrappers
  import opened FsmConfig

  /** Construction errors. The payload is what the Go message names; the
      sentinel each one wraps is, in order: ErrNoStates, ErrNoAlphabet,
      ErrInvalidInitial, ErrInvalidFinal, ErrInvalidTransition (source),
      ErrInvalidInput, ErrInvalidTransition (destination). */
  datatype ConfigError<S, I> =
    | NoStates
    | NoAlphabet
    | InvalidInitial
    | InvalidFinal(state: S)
    | InvalidTransitionFrom(state: S)
    | InvalidInput(input: I)
    | InvalidTransitionTo(state: S)

  /** Run-time errors of a single step; both wrap ErrNoTransition. */
  datatype TransitionError<S, I> =
    | NoTransitionForState(state: S)
    | NoTransitionForInput(state: S, input: I)

  /** The error of Process and Execute: the failing position and its cause. */
  datatype ProcessError<S, I> = ProcessError(position: nat, cause: TransitionError<S, I>)

  /** The O(1) lookup sets built by a successful validation. */
  datatype LookupSets<S, I> = LookupSets(alphabetSet: set<I>, finalStateSet: set<S>)

  /** The set view of a slice. */
  function Elements<T>(s: seq<T>): set<T>
  {
    set x | x in s
  }

  /** Only the empty slice has an empty set view. */
  lemma EmptyElements<T>(s: seq<T>)
    ensures |Elements(s)| == 0 <==> s == []
  {
    if s != [] {
      assert s[0] in Elements(s);
    }
  }

  // ---------------------------------------------------------------------
  // Well-formedness of a configuration and the errors validation reports
  // ---------------------------------------------------------------------

  /** States and alphabet are non-empty and the initial state is declared. */
  ghost predicate BasicsDeclared<S, I>(c: Config<S, I>)
  {
    |c.states| > 0 && |c.alphabet| > 0 && c.initialState in c.states
  }

  /** The first `k` final states are declared states. */
  ghost predicate FinalsDeclaredUpTo<S, I>(c: Config<S, I>, k: int)
    requires 0 <= k <= |c.finalStates|
  {
    forall j :: 0 <= j < k ==> c.finalStates[j] in c.states
  }

  /** The inner table of `from` mentions only alphabet symbols and declared
      destinations, and `from` itself is declared. */
  ghost predicate RowDeclared<S, I>(c: Config<S, I>, from: S)
    requires from in c.transitions
  {
    && from in c.states
    && forall i :: i in c.transitions[from] ==> i in c.alphabet && c.transitions[from][i] in c.states
  }

  /** Every condition validation checks holds. */
  ghost predicate WellFormed<S, I>(c: Config<S, I>)
  {
    && BasicsDeclared(c)
    && FinalsDeclaredUpTo(c, |c.finalStates|)
    && forall from :: from in c.transitions ==> RowDeclared(c, from)
  }

  /** `e` is an error validation may report for `c`. The checks run in a fixed
      order, so each error presupposes that the earlier checks passed. Final
      states are scanned in slice order, so the first undeclared one is
      reported; the transition table is a Go map scanned in unspecified
      order, so any offending entry may be the one reported. */
  ghost predicate Reports<S, I>(c: Config<S, I>, e: ConfigError<S, I>)
  {
    match e
    case NoStates => |c.states| == 0
    case NoAlphabet => |c.states| > 0 && |c.alphabet| == 0
    case InvalidInitial => |c.states| > 0 && |c.alphabet| > 0 && c.initialState !in c.states
    case InvalidFinal(f) =>
      && BasicsDeclared(c)
      && exists k :: 0 <= k < |c.finalStates| && c.finalStates[k] == f && f !in c.states
                     && FinalsDeclaredUpTo(c, k)
    case InvalidTransitionFrom(s) =>
      && BasicsDeclared(c) && FinalsDeclaredUpTo(c, |c.finalStates|)
      && s in c.transitions && s !in c.states
    case InvalidInput(i) =>
      && BasicsDeclared(c) && FinalsDeclaredUpTo(c, |c.finalStates|)
      && exists from :: from in c.transitions && from in c.states
                        && i in c.transitions[from] && i !in c.alphabet
    case InvalidTransitionTo(s) =>
      && BasicsDeclared(c) && FinalsDeclaredUpTo(c, |c.finalStates|)
      && exists from, i :: from in c.transitions && from in c.states && i in c.transitions[from]
                           && i in c.alphabet && c.transitions[from][i] == s && s !in c.states
  }

  /** validateAndBuildLookupSets: the checks run in the order above, with the
      same loops filling the same temporary sets. */
  method ValidateAndBuildLookupSets<S(==), I(==)>(config: Config<S, I>)
    returns (r: Result<LookupSets<S, I>, ConfigError<S, I>>)
    ensures r.Success? <==> WellFormed(config)
    ensures r.Success? ==> r.value == LookupSets(Elements(config.alphabet), Elements(config.finalStates))
    ensures r.Failure? ==> Reports(config, r.error)
    ensures r == Failure(NoStates) <==> |config.states| == 0
    ensures r == Failure(NoAlphabet) <==> |config.states| > 0 && |config.alphabet| == 0
    ensures r == Failure(InvalidInitial) <==>
              |config.states| > 0 && |config.alphabet| > 0 && config.initialState !in config.states
    ensures (r.Failure? && r.error.InvalidFinal?) <==>
              BasicsDeclared(config) && !FinalsDeclaredUpTo(config, |config.finalStates|)
  {
    if |config.states| == 0 {
      return Failure(NoStates);
    }
    if |config.alphabet| == 0 {
      return Failure(NoAlphabet);
    }

    var stateSet: set<S> := {};
    for k := 0 to |config.states|
      invariant forall x :: x in stateSet <==> x in config.states[..k]
    {
      assert config.states[..k + 1] == config.states[..k] + [config.states[k]];
      stateSet := stateSet + {config.states[k]};
    }
    assert config.states[..|config.states|] == config.states;

    if config.initialState !in stateSet {
      return Failure(InvalidInitial);
    }

    if |config.finalStates| > 0 {
      for k := 0 to |config.finalStates|
        invariant FinalsDeclaredUpTo(config, k)
      {
        if config.finalStates[k] !in stateSet {
          return Failure(InvalidFinal(config.finalStates[k]));
        }
      }
    }

    var alphabetSet: set<I> := {};
    for k := 0 to |config.alphabet|
      invariant alphabetSet == Elements(config.alphabet[..k])
    {
      assert config.alphabet[..k + 1] == config.alphabet[..k] + [config.alphabet[k]];
      alphabetSet := alphabetSet + {config.alphabet[k]};
    }
    assert config.alphabet[..|config.alphabet|] == config.alphabet;

    var pending := config.transitions.Keys;
    while pending != {}
      invariant pending <= config.transitions.Keys
      invariant forall from :: from in config.transitions && from !in pending ==> RowDeclared(config, from)
      decreases pending
    {
      var fromState :| fromState in pending;
      if fromState !in stateSet {
        return Failure(InvalidTransitionFrom(fromState));
      }
      var transitions := config.transitions[fromState];
      var unchecked := transitions.Keys;
      while unchecked != {}
        invariant unchecked <= transitions.Keys
        invariant forall i :: i in transitions && i !in unchecked ==> i in config.alphabet && transitions[i] in config.states
        decreases unchecked
      {
        var input :| input in unchecked;
        if input !in alphabetSet {
          return Failure(InvalidInput(input));
        }
        if transitions[input] !in stateSet {
          return Failure(InvalidTransitionTo(transitions[input]));
        }
        unchecked := unchecked - {input};
      }
      pending := pending - {fromState};
    }

    var finalStateSet: set<S> := {};
    for k := 0 to |config.finalStates|
      invariant finalStateSet == Elements(config.finalStates[..k])
    {
      assert config.finalStates[..k + 1] == config.finalStates[..k] + [config.finalStates[k]];
      finalStateSet := finalStateSet + {config.finalStates[k]};
    }
    assert config.finalStates[..|config.finalStates|] == config.finalStates;

    return Success(LookupSets(alphabetSet, finalStateSet));
  }

  /** A configuration is rejected exactly when it is not well formed. */
  lemma ReportedMeansIllFormed<S, I>(c: Config<S, I>, e: ConfigError<S, I>)
    requires Reports(c, e)
    ensures !WellFormed(c)
  {
  }

  // ---------------------------------------------------------------------
  // Runs of the automaton
  // ---------------------------------------------------------------------

  /** The states entered while feeding `xs` from `s`, stopping before the
      first symbol that has no transition: the longest defined path. */
  function Trace<S, I>(t: Table<S, I>, s: S, xs: seq<I>): (r: seq<S>)
    ensures |r| <= |xs|
    decreases |xs|
  {
    if xs == [] then []
    else
      match Lookup(t, s, xs[0])
      case None => []
      case Some(next) => [next] + Trace(t, next, xs[1..])
  }

  /** The trace is a path of the table, and it stops only where the table
      has no transition: it is the longest defined path. */
  lemma {:induction false} TraceIsLongestPath<S, I>(t: Table<S, I>, s: S, xs: seq<I>)
    ensures var r := Trace(t, s, xs);
            && (forall k :: 0 <= k < |r| ==> Lookup(t, ([s] + r)[k], xs[k]) == Some(r[k]))
            && (|r| < |xs| ==> Lookup(t, ([s] + r)[|r|], xs[|r|]).None?)
    decreases |xs|
  {
    if xs != [] && Lookup(t, s, xs[0]).Some? {
      var next := t[s][xs[0]];
      var rest := Trace(t, next, xs[1..]);
      var r := Trace(t, s, xs);
      TraceIsLongestPath(t, next, xs[1..]);
      assert r == [next] + rest;
      forall k | 1 <= k < |r|
        ensures Lookup(t, ([s] + r)[k], xs[k]) == Some(r[k])
      {
        assert ([s] + r)[k] == ([next] + rest)[k - 1];
        assert r[k] == rest[k - 1];
        assert xs[k] == xs[1..][k - 1];
      }
      if |r| < |xs| {
        assert ([s] + r)[|r|] == ([next] + rest)[|rest|];
        assert xs[|r|] == xs[1..][|rest|];
      }
    }
  }

  /** The state a run of `xs` from `s` ends in (where it stopped, on failure). */
  function Reached<S, I>(t: Table<S, I>, s: S, xs: seq<I>): S
  {
    var r := Trace(t, s, xs);
    if r == [] then s else r[|r| - 1]
  }

  /** The error a step from `s` on `input` reports when it has no transition. */
  function TransitionFailure<S, I>(t: Table<S, I>, s: S, input: I): TransitionError<S, I>
  {
    if s !in t then NoTransitionForState(s) else NoTransitionForInput(s, input)
  }

  /** The outcome Process reports for `xs` fed from `s`: success when the
      whole sequence is applied, otherwise the first failing position. */
  function ProcessOutcome<S, I>(t: Table<S, I>, s: S, xs: seq<I>): Option<ProcessError<S, I>>
  {
    var n := |Trace(t, s, xs)|;
    if n == |xs| then None
    else Some(ProcessError(n, TransitionFailure(t, Reached(t, s, xs), xs[n])))
  }

  /** A run that completes `a` continues with the run of `b` from where `a`
      ended. */
  lemma {:induction false} TraceAppend<S, I>(t: Table<S, I>, s: S, a: seq<I>, b: seq<I>)
    requires |Trace(t, s, a)| == |a|
    ensures Trace(t, s, a + b) == Trace(t, s, a) + Trace(t, Reached(t, s, a), b)
    decreases |a|
  {
    if a != [] {
      var next := t[s][a[0]];
      var rest := Trace(t, next, a[1..]);
      assert Lookup(t, s, a[0]) == Some(next);
      assert Trace(t, s, a) == [next] + rest;
      assert (a + b)[0] == a[0];
      assert (a + b)[1..] == a[1..] + b;
      assert Trace(t, s, a + b) == [next] + Trace(t, next, a[1..] + b);
      TraceAppend(t, next, a[1..], b);
      assert Reached(t, s, a) == Reached(t, next, a[1..]) by {
        if rest != [] {
          assert ([next] + rest)[|rest|] == rest[|rest| - 1];
        }
      }
    } else {
      assert a + b == b;
    }
  }

  /** A run that completes the prefix `xs[..i]` and then has no transition for
      `xs[i]` is exactly that prefix run. */
  lemma TraceStopsAt<S, I>(t: Table<S, I>, s: S, xs: seq<I>, i: nat)
    requires i < |xs| && |Trace(t, s, xs[..i])| == i
    requires Lookup(t, Reached(t, s, xs[..i]), xs[i]).None?
    ensures Trace(t, s, xs) == Trace(t, s, xs[..i])
    ensures Reached(t, s, xs) == Reached(t, s, xs[..i])
    ensures ProcessOutcome(t, s, xs) == Some(ProcessError(i, TransitionFailure(t, Reached(t, s, xs[..i]), xs[i])))
  {
    TraceAppend(t, s, xs[..i], xs[i..]);
    assert xs[..i] + xs[i..] == xs;
  }

  /** A run that completes the prefix `xs[..i]` and has a transition for
      `xs[i]` extends by that one state. */
  lemma TraceExtends<S, I>(t: Table<S, I>, s: S, xs: seq<I>, i: nat)
    requires i < |xs| && |Trace(t, s, xs[..i])| == i
    requires Lookup(t, Reached(t, s, xs[..i]), xs[i]).Some?
    ensures Trace(t, s, xs[..i + 1])
         == Trace(t, s, xs[..i]) + [Lookup(t, Reached(t, s, xs[..i]), xs[i]).value]
    ensures |Trace(t, s, xs[..i + 1])| == i + 1
    ensures Reached(t, s, xs[..i + 1]) == Lookup(t, Reached(t, s, xs[..i]), xs[i]).value
  {
    TraceAppend(t, s, xs[..i], [xs[i]]);
    assert xs[..i] + [xs[i]] == xs[..i + 1];
  }

  /** One applied symbol of Process, stated on the history and the consumed
      symbols appended to `h0` and `c0`. */
  lemma ProcessStep<S, I>(t: Table<S, I>, s: S, xs: seq<I>, i: nat, h0: seq<S>, c0: seq<I>, next: S)
    requires i < |xs| && |Trace(t, s, xs[..i])| == i
    requires Lookup(t, Reached(t, s, xs[..i]), xs[i]) == Some(next)
    ensures |Trace(t, s, xs[..i + 1])| == i + 1
    ensures h0 + Trace(t, s, xs[..i]) + [next] == h0 + Trace(t, s, xs[..i + 1])
    ensures Reached(t, s, xs[..i + 1]) == next
    ensures c0 + xs[..i] + [xs[i]] == c0 + xs[..i + 1]
  {
    TraceExtends(t, s, xs, i);
    assert xs[..i + 1] == xs[..i] + [xs[i]];
  }

  /** Validation makes every reachable state a declared one: the initial
      state and every transition target are checked. */
  lemma {:induction false} TraceDeclared<S, I>(c: Config<S, I>, s: S, xs: seq<I>)
    requires WellFormed(c) && s in c.states
    ensures forall k :: 0 <= k < |Trace(c.transitions, s, xs)| ==> Trace(c.transitions, s, xs)[k] in c.states
    decreases |xs|
  {
    if xs != [] && Lookup(c.transitions, s, xs[0]).Some? {
      var next := c.transitions[s][xs[0]];
      assert RowDeclared(c, s);
      TraceDeclared(c, next, xs[1..]);
    }
  }

  /** NewFSM: validate, then start a run at the initial state. */
  method NewFSM<S(==), I(==)>(config: Config<S, I>) returns (r: Result<FSM<S, I>, ConfigError<S, I>>)
    ensures r.Success? <==> WellFormed(config)
    ensures r.Failure? ==> Reports(config, r.error)
    ensures r.Success? ==> && fresh(r.value) && r.value.Valid() && r.value.config == config
                           && r.value.currentState == config.initialState
                           && r.value.stateHistory == [config.initialState]
  {
    var sets := ValidateAndBuildLookupSets(config);
    if sets.Failure? {
      return Failure(sets.error);
    }
    var fsm := new FSM(config, sets.value.alphabetSet, sets.value.finalStateSet);
    return Success(fsm);
  }

  /** An engine over a validated configuration. The configuration and the
      lookup sets never change; `currentState` and `stateHistory` are the run
      state. */
  class FSM<S(==), I(==)> {
    const config: Config<S, I>
    var currentState: S
    var stateHistory: seq<S>
    const alphabetSet: set<I>
    const finalStateSet: set<S>
    /** The symbols applied since the last reset; the history is their trace. */
    ghost var consumed: seq<I>

    ghost predicate Valid()
      reads this
    {
      && WellFormed(config)
      && alphabetSet == Elements(config.alphabet)
      && finalStateSet == Elements(config.finalStates)
      && |Trace(config.transitions, config.initialState, consumed)| == |consumed|
      && stateHistory == [config.initialState] + Trace(config.transitions, config.initialState, consumed)
      && currentState == stateHistory[|stateHistory| - 1]
      && forall k :: 0 <= k < |stateHistory| ==> stateHistory[k] in config.states
    }

    constructor (config: Config<S, I>, alphabetSet: set<I>, finalStateSet: set<S>)
      requires WellFormed(config)
      requires alphabetSet == Elements(config.alphabet) && finalStateSet == Elements(config.finalStates)
      ensures Valid() && this.config == config
      ensures currentState == config.initialState && stateHistory == [config.initialState] && consumed == []
    {
      this.config := config;
      this.alphabetSet := alphabetSet;
      this.finalStateSet := finalStateSet;
      currentState := config.initialState;
      stateHistory := [config.initialState];
      consumed := [];
    }

    /** Back to the initial state with a one-element history. The new state
        does not depend on the old one, so repeated resets equal one reset. */
    method Reset()
      requires Valid()
      modifies this
      ensures Valid()
      ensures currentState == config.initialState && stateHistory == [config.initialState] && consumed == []
    {
      currentState := config.initialState;
      stateHistory := [currentState];
      consumed := [];
    }

    function CurrentState(): (s: S)
      reads this
      requires Valid()
      ensures s in config.states
      ensures s == Reached(config.transitions, config.initialState, consumed)
    {
      currentState
    }

    /** A copy of the history: a sequence is a value, so the caller cannot
        reach the engine's own history through it. */
    function StateHistory(): (h: seq<S>)
      reads this
      requires Valid()
      ensures |h| == |consumed| + 1
      ensures h[0] == config.initialState && h[|h| - 1] == currentState
      ensures forall k :: 0 <= k < |consumed| ==> Lookup(config.transitions, h[k], consumed[k]) == Some(h[k + 1])
    {
      TraceIsLongestPath(config.transitions, config.initialState, consumed);
      stateHistory
    }

    /** One step. On failure nothing changes; on success the successor becomes
        current and is appended to the history. */
    method Transition(input: I) returns (err: Option<TransitionError<S, I>>)
      requires Valid()
      modifies this
      ensures Valid()
      ensures err.None? <==> Lookup(config.transitions, old(currentState), input).Some?
      ensures err.Some? ==> && err.value == TransitionFailure(config.transitions, old(currentState), input)
                            && currentState == old(currentState) && stateHistory == old(stateHistory)
                            && consumed == old(consumed)
      ensures err.None? ==> && currentState == config.transitions[old(currentState)][input]
                            && stateHistory == old(stateHistory) + [currentState]
                            && consumed == old(consumed) + [input]
    {
      if currentState !in config.transitions {
        return Some(NoTransitionForState(currentState));
      }
      var stateTransitions := config.transitions[currentState];
      if input !in stateTransitions {
        return Some(NoTransitionForInput(currentState, input));
      }
      var nextState := stateTransitions[input];
      assert RowDeclared(config, currentState);
      TraceAppend(config.transitions, config.initialState, consumed, [input]);
      currentState := nextState;
      stateHistory := stateHistory + [nextState];
      consumed := consumed + [input];
      return None;
    }

    /** Feeds `inputs` from the current state without resetting, stopping at
        the first failing position; the steps before it stay applied. */
    method Process(inputs: seq<I>) returns (err: Option<ProcessError<S, I>>)
      requires Valid()
      modifies this
      ensures Valid()
      ensures stateHistory == old(stateHistory) + Trace(config.transitions, old(currentState), inputs)
      ensures currentState == Reached(config.transitions, old(currentState), inputs)
      ensures consumed == old(consumed) + inputs[..|Trace(config.transitions, old(currentState), inputs)|]
      ensures err == ProcessOutcome(config.transitions, old(currentState), inputs)
      ensures inputs == [] ==> err.None? && currentState == old(currentState) && stateHistory == old(stateHistory)
    {
      ghost var start, t := currentState, config.transitions;
      for i := 0 to |inputs|
        invariant Valid()
        invariant |Trace(t, start, inputs[..i])| == i
        invariant stateHistory == old(stateHistory) + Trace(t, start, inputs[..i])
        invariant currentState == Reached(t, start, inputs[..i])
        invariant consumed == old(consumed) + inputs[..i]
      {
        ghost var before := currentState;
        var e := Transition(inputs[i]);
        if e.Some? {
          TraceStopsAt(t, start, inputs, i);
          return Some(ProcessError(i, e.value));
        }
        ProcessStep(t, start, inputs, i, old(stateHistory), old(consumed), currentState);
      }
      assert inputs[..|inputs|] == inputs;
      return None;
    }

    /** A fresh run: Reset followed by Process. */
    method Execute(inputs: seq<I>) returns (err: Option<ProcessError<S, I>>)
      requires Valid()
      modifies this
      ensures Valid()
      ensures stateHistory == [config.initialState] + Trace(config.transitions, config.initialState, inputs)
      ensures currentState == Reached(config.transitions, config.initialState, inputs)
      ensures err == ProcessOutcome(config.transitions, config.initialState, inputs)
      ensures consumed == inputs[..|Trace(config.transitions, config.initialState, inputs)|]
      ensures err.None? ==> |stateHistory| == |inputs| + 1
      ensures err.None? ==> forall k :: 0 <= k < |inputs| ==>
                Lookup(config.transitions, stateHistory[k], inputs[k]) == Some(stateHistory[k + 1])
      ensures err.Some? ==> |stateHistory| == err.value.position + 1
    {
      Reset();
      err := Process(inputs);
      TraceIsLongestPath(config.transitions, config.initialState, inputs);
    }

    /** Acceptance: false whenever no state is final. */
    function IsInFinalState(): (b: bool)
      reads this
      requires Valid()
      ensures b <==> currentState in config.finalStates
      ensures config.finalStates == [] ==> !b
    {
      if |finalStateSet| == 0 then
        EmptyElements(config.finalStates);
        false
      else currentState in finalStateSet
    }

    /** Alphabet membership; the transition table is not consulted. */
    function ValidateInput(input: I): (b: bool)
      reads this
      requires Valid()
      ensures b <==> input in config.alphabet
    {
      input in alphabetSet
    }
  }
}
