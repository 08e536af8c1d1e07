/** The modulo-3 client of examples/modthree/modthree.go: a three-state
    automaton over {'0', '1'} in which EVERY state is final, so acceptance
    carries no information and the remainder is read off the current state. */
module ModThree {

  import opened FsmConfig
  import opened Fsm
  import opened Binary

  /** The hard-coded transition table δ. */
  function Delta(): Table<int, char>
  {
    map[
      0 := map['0' := 0, '1' := 1],
      1 := map['0' := 2, '1' := 0],
      2 := map['0' := 1, '1' := 2]]
  }

  /** δ(s, b) = (2s + b) mod 3 on every state and bit. */
  lemma DeltaEncodesModThree()
    ensures EncodesModThree(Delta())
  {
  }

  /** The hard-coded configuration: Q = {0, 1, 2}, alphabet {'0', '1'},
      q0 = 0, F = Q. It is well formed, so the constructor's panic branch
      cannot be taken. */
  function ModThreeConfig(): (c: Config<int, char>)
    ensures WellFormed(c)
    ensures c.transitions == Delta() && EncodesModThree(c.transitions)
    ensures c.alphabet == ['0', '1'] && c.initialState == 0
    ensures Elements(c.finalStates) == Elements(c.states) == {0, 1, 2}
  {
    var c := Config([0, 1, 2], ['0', '1'], 0, [0, 1, 2], Delta());
    assert Elements(c.states) == {0, 1, 2} by {
      assert c.states[0] == 0 && c.states[1] == 1 && c.states[2] == 2;
    }
    assert forall from :: from in c.transitions ==> RowDeclared(c, from);
    DeltaEncodesModThree();
    c
  }

  /** Every state a run can visit, from the initial state on any input, is
      final. */
  lemma EveryReachableStateIsFinal(xs: seq<char>)
    ensures forall k :: 0 <= k < |Trace(ModThreeConfig().transitions, 0, xs)| ==>
              Trace(ModThreeConfig().transitions, 0, xs)[k] in ModThreeConfig().finalStates
  {
    TraceDeclared(ModThreeConfig(), 0, xs);
  }

  /** ModThreeGeneric: owns an engine built from ModThreeConfig. */
  class ModThreeGeneric {
    const fsm: FSM<int, char>

    /** The engine is valid and has the configuration's alphabet, initial
        state, table and final states; the constructor fixes the
        configuration itself, which is a constant. */
    ghost predicate Valid()
      reads this, fsm
    {
      && fsm.Valid()
      && fsm.config.alphabet == ['0', '1']
      && fsm.config.initialState == 0
      && EncodesModThree(fsm.config.transitions)
      && Elements(fsm.config.finalStates) == Elements(fsm.config.states) == {0, 1, 2}
    }

    /** NewModThreeGeneric. */
    constructor ()
      ensures Valid() && fresh(fsm) && fsm.config == ModThreeConfig()
      ensures fsm.currentState == 0 && fsm.stateHistory == [0]
    {
      var r := NewFSM(ModThreeConfig());
      // ModThreeConfig is well formed, so r is a Success
      fsm := r.value;
    }

    /** "" and "0" yield no symbols; otherwise every character must be in the
        engine's alphabet, and the first one that is not is reported. */
    method ParseInput(binaryStr: string) returns (r: ParseResult)
      requires Valid()
      ensures binaryStr == "" || binaryStr == "0" ==> r == NoSymbols
      ensures binaryStr != "" && binaryStr != "0" ==> !r.NoSymbols? && (r.Symbols? <==> IsBitString(binaryStr))
      ensures r.Symbols? ==> r.symbols == binaryStr
      ensures r.InvalidChar? ==> && r.position < |binaryStr| && r.ch == binaryStr[r.position]
                                 && !IsBit(r.ch) && IsBitString(binaryStr[..r.position])
    {
      if binaryStr == "" || binaryStr == "0" {
        return NoSymbols;
      }
      var inputs := new char[|binaryStr|];
      for i := 0 to |binaryStr|
        invariant inputs[..i] == binaryStr[..i]
        invariant IsBitString(binaryStr[..i])
      {
        var symbol := binaryStr[i];
        if !fsm.ValidateInput(symbol) {
          return InvalidChar(symbol, i);
        }
        inputs[i] := symbol;
        assert binaryStr[..i + 1] == binaryStr[..i] + [symbol];
      }
      assert binaryStr[..|binaryStr|] == binaryStr;
      return Symbols(inputs[..]);
    }

    /** The remainder of the binary number modulo 3, and whether the string
        was a bit string. "" and "0" answer (0, true) without running the
        engine, which then keeps whatever state it had. */
    method ComputeModThree(binaryStr: string) returns (remainder: int, ok: bool)
      requires Valid()
      modifies fsm
      ensures Valid()
      ensures ok <==> IsBitString(binaryStr)
      ensures remainder == if ok then BinaryValue(binaryStr) % 3 else 0
      ensures 0 <= remainder < 3
      ensures ok && binaryStr != "" && binaryStr != "0" ==>
                && fsm.currentState == remainder
                && fsm.stateHistory == [0] + Trace(fsm.config.transitions, 0, binaryStr)
                && |fsm.stateHistory| == |binaryStr| + 1
                && fsm.consumed == binaryStr
      ensures !ok || binaryStr == "" || binaryStr == "0" ==>
                fsm.currentState == old(fsm.currentState) && fsm.stateHistory == old(fsm.stateHistory)
      ensures fsm.IsInFinalState()
    {
      var parsed := ParseInput(binaryStr);
      if parsed.InvalidChar? {
        assert !IsBitString(binaryStr) by {
          assert !IsBit(binaryStr[parsed.position]);
        }
        return 0, false;
      }
      if parsed.NoSymbols? {
        assert binaryStr == "" || binaryStr == [binaryStr[0]];
        return 0, true;
      }
      RunComputesRemainder(fsm.config.transitions, parsed.symbols);
      var err := fsm.Execute(parsed.symbols);
      if err.Some? {
        assert false;
        return 0, false;
      }
      return fsm.CurrentState(), true;
    }

    /** Divisible iff the string is a bit string whose value is a multiple
        of 3. */
    method IsDivisibleByThree(binaryStr: string) returns (b: bool)
      requires Valid()
      modifies fsm
      ensures Valid()
      ensures b <==> IsBitString(binaryStr) && BinaryValue(binaryStr) % 3 == 0
      ensures IsBitString(binaryStr) && binaryStr != "" && binaryStr != "0" ==>
                && fsm.currentState == BinaryValue(binaryStr) % 3
                && fsm.stateHistory == [0] + Trace(fsm.config.transitions, 0, binaryStr)
                && fsm.consumed == binaryStr
      ensures !IsBitString(binaryStr) || binaryStr == "" || binaryStr == "0" ==>
                fsm.currentState == old(fsm.currentState) && fsm.stateHistory == old(fsm.stateHistory)
    {
      var remainder, ok := ComputeModThree(binaryStr);
      return ok && remainder == 0;
    }
  }
}
