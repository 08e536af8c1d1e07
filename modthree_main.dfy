/** The modulo-3 client of modthree_generic.go (package main): the same
    automaton, but with only state 0 final. */
module ModThreeMain {

  import opened FsmConfig
  import opened Fsm
  import opened Binary

  /** The hard-coded transition table δ. */
  function Delta(): Table<int, char>
  {
    map[
      0 := map['0' := 0, '1' := 1],
      1 := map['0' := 2, '1' := 0],
      2 := map['0' := 1, '1' := 2]]
  }

  /** δ(s, b) = (2s + b) mod 3 on every state and bit. */
  lemma DeltaEncodesModThree()
    ensures EncodesModThree(Delta())
  {
  }

  /** The hard-coded configuration: Q = {0, 1, 2}, alphabet {'0', '1'},
      q0 = 0, F = {0}. It is well formed, so the constructor's panic branch
      cannot be taken. */
  function ModThreeConfig(): (c: Config<int, char>)
    ensures WellFormed(c)
    ensures c.transitions == Delta() && EncodesModThree(c.transitions)
    ensures c.alphabet == ['0', '1'] && c.initialState == 0
    ensures Elements(c.states) == {0, 1, 2} && Elements(c.finalStates) == {0}
  {
    var c := Config([0, 1, 2], ['0', '1'], 0, [0], Delta());
    assert Elements(c.states) == {0, 1, 2} by {
      assert c.states[0] == 0 && c.states[1] == 1 && c.states[2] == 2;
    }
    assert Elements(c.finalStates) == {0} by {
      assert c.finalStates[0] == 0;
    }
    assert forall from :: from in c.transitions ==> RowDeclared(c, from);
    DeltaEncodesModThree();
    c
  }

  /** ModThreeGeneric: owns an engine built from ModThreeConfig. */
  class ModThreeGeneric {
    const fsm: FSM<int, char>

    /** The engine is valid and has the configuration's alphabet, initial
        state, table and final states; the constructor fixes the
        configuration itself, which is a constant. */
    ghost predicate Valid()
      reads this, fsm
    {
      && fsm.Valid()
      && fsm.config.alphabet == ['0', '1']
      && fsm.config.initialState == 0
      && EncodesModThree(fsm.config.transitions)
      && Elements(fsm.config.finalStates) == {0}
    }

    /** NewModThreeGeneric. */
    constructor ()
      ensures Valid() && fresh(fsm) && fsm.config == ModThreeConfig()
      ensures fsm.currentState == 0 && fsm.stateHistory == [0]
    {
      var r := NewFSM(ModThreeConfig());
      // ModThreeConfig is well formed, so r is a Success
      fsm := r.value;
    }

    /** "" and "0" yield no symbols; otherwise every character must be in the
        engine's alphabet, and the first one that is not is reported. */
    method ParseInput(binaryStr: string) returns (r: ParseResult)
      requires Valid()
      ensures binaryStr == "" || binaryStr == "0" ==> r == NoSymbols
      ensures binaryStr != "" && binaryStr != "0" ==> !r.NoSymbols? && (r.Symbols? <==> IsBitString(binaryStr))
      ensures r.Symbols? ==> r.symbols == binaryStr
      ensures r.InvalidChar? ==> && r.position < |binaryStr| && r.ch == binaryStr[r.position]
                                 && !IsBit(r.ch) && IsBitString(binaryStr[..r.position])
    {
      if binaryStr == "" || binaryStr == "0" {
        return NoSymbols;
      }
      var inputs := new char[|binaryStr|];
      for i := 0 to |binaryStr|
        invariant inputs[..i] == binaryStr[..i]
        invariant IsBitString(binaryStr[..i])
      {
        var symbol := binaryStr[i];
        if !fsm.ValidateInput(symbol) {
          return InvalidChar(symbol, i);
        }
        inputs[i] := symbol;
        assert binaryStr[..i + 1] == binaryStr[..i] + [symbol];
      }
      assert binaryStr[..|binaryStr|] == binaryStr;
      return Symbols(inputs[..]);
    }

    /** As written: true exactly when the string parses, whatever its
        remainder. On a bit string other than "" and "0" the engine is left in
        the remainder state, which is final exactly when the value is a
        multiple of 3; otherwise the engine keeps the state it had. */
    method IsDivisibleByThree(binaryStr: string) returns (b: bool)
      requires Valid()
      modifies fsm
      ensures Valid()
      ensures b <==> IsBitString(binaryStr)
      ensures IsBitString(binaryStr) && binaryStr != "" && binaryStr != "0" ==>
                && fsm.currentState == BinaryValue(binaryStr) % 3
                && fsm.stateHistory == [0] + Trace(fsm.config.transitions, 0, binaryStr)
                && fsm.consumed == binaryStr
                && (fsm.IsInFinalState() <==> BinaryValue(binaryStr) % 3 == 0)
      ensures !IsBitString(binaryStr) || binaryStr == "" || binaryStr == "0" ==>
                fsm.currentState == old(fsm.currentState) && fsm.stateHistory == old(fsm.stateHistory)
    {
      var inputs := ParseInput(binaryStr);
      if inputs.InvalidChar? {
        assert !IsBit(binaryStr[inputs.position]);
        return false;
      }
      if inputs.NoSymbols? {
        return true;
      }
      RunComputesRemainder(fsm.config.transitions, inputs.symbols);
      var err := fsm.Execute(inputs.symbols);
      if err.Some? {
        assert false;
        return false;
      }
      return true;
    }

    /** The evidently intended check: after a successful run, answer whether
        the engine accepts, i.e. whether it stopped in the final state 0.
        "" and "0" still answer true without running the engine. */
    method IsDivisibleByThreeCorrected(binaryStr: string) returns (b: bool)
      requires Valid()
      modifies fsm
      ensures Valid()
      ensures b <==> IsBitString(binaryStr) && BinaryValue(binaryStr) % 3 == 0
      ensures IsBitString(binaryStr) && binaryStr != "" && binaryStr != "0" ==>
                && fsm.currentState == BinaryValue(binaryStr) % 3
                && fsm.stateHistory == [0] + Trace(fsm.config.transitions, 0, binaryStr)
                && fsm.consumed == binaryStr
      ensures !IsBitString(binaryStr) || binaryStr == "" || binaryStr == "0" ==>
                fsm.currentState == old(fsm.currentState) && fsm.stateHistory == old(fsm.stateHistory)
    {
      var inputs := ParseInput(binaryStr);
      if inputs.InvalidChar? {
        assert !IsBit(binaryStr[inputs.position]);
        return false;
      }
      if inputs.NoSymbols? {
        assert binaryStr == "" || binaryStr == [binaryStr[0]];
        return true;
      }
      RunComputesRemainder(fsm.config.transitions, inputs.symbols);
      var err := fsm.Execute(inputs.symbols);
      if err.Some? {
        assert false;
        return false;
      }
      return fsm.IsInFinalState();
    }
  }

  /** The as-written IsDivisibleByThree reports "1" (value 1, remainder 1) as
      divisible by three. */
  method OneReportedDivisible() returns (reported: bool)
    ensures reported && BinaryValue("1") % 3 == 1
  {
    assert IsBitString("1") && BinaryValue("1") == 1 by {
      assert "1"[..0] == [];
    }
    var m := new ModThreeGeneric();
    reported := m.IsDivisibleByThree("1");
  }
}
