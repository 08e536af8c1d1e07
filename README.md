# finiteautomation: a verified Dafny model of the generic DFA engine

This project models the generic deterministic finite-automaton engine of
the Go repository `finiteautomation`, its configuration builder, and the two
binary modulo-3 clients built on it.

- `wrappers.dfy` (`Wrappers`): `Option` (a Go `error` that is nil on success)
  and `Result` (a Go `(value, error)` pair).
- `fsm_config.dfy` (`FsmConfig`): the `FSMConfig` value as the datatype
  `Config<S, I>`. It holds the states, alphabet and final states as slices, the
  initial state, and a nested transition table `map<S, map<I, S>>`. `Lookup`
  is the partial function the table denotes. `WithTransition` is the table after
  `AddTransition`, and `ConfigBuilder.AddTransition` is the in-place update
  through the method's pointer receiver.
- `fsm.dfy` (`Fsm`): the engine.
  - Construction-time validation is the method `ValidateAndBuildLookupSets`.
    It runs the checks in the source's order and fills the same temporary sets
    with loops.
  - `WellFormed` is the condition validation accepts. `Reports` says which
    error may be reported for an ill-formed configuration.
  - `NewFSM` returns a `Result` in place of Go's `(*FSM, error)`.
  - The class `FSM` holds the run state: `currentState` and `stateHistory`.
    Its methods are `Reset`, `Transition`, `Process` and `Execute`; its
    queries are `CurrentState`, `StateHistory`, `IsInFinalState` and
    `ValidateInput`.
  - A run is specified by `Trace`, the longest defined path of the table from a
    state over a symbol sequence. A failing `Process` stops at position
    `|Trace|`.
  - The invariant `FSM.Valid()` uses a ghost field `consumed`, the symbols
    applied since the last reset. It says that the history is
    `[initial] + Trace(table, initial, consumed)`, that the current state is the
    last history element, and that every history element is a declared state.
- `binary.dfy` (`Binary`): bit strings, their value `BinaryValue` (most
  significant bit first), the parse result shared by both clients, and the
  end-to-end lemma. The lemma says a table with δ(s, b) = (2s + b) mod 3,
  run from 0 over a bit string, ends in the value mod 3.
- `modthree.dfy` (`ModThree`): `examples/modthree/modthree.go`. Every state
  is final. It has `ParseInput`, `ComputeModThree` and `IsDivisibleByThree`.
- `modthree_main.dfy` (`ModThreeMain`): `modthree_generic.go` (package
  `main`). Only state 0 is final. It has `ParseInput` and `IsDivisibleByThree`,
  as written and corrected (see Findings).

States of the clients are `int` (Go's `ModState int`). Symbols are `char`
(Go's `BinarySymbol rune`). The Go packages `internal` and `finiteautomation`
are treated as one engine.

For `""` and `"0"` both clients return early
(`examples/modthree/modthree.go:95-98`, `modthree_generic.go:87-90`) without
resetting the engine, so the engine keeps its earlier state; the contracts say
exactly that.

## Model

| member | source | states |
|---|---|---|
| FsmConfig.WithTransition | fsm_config.go:16-24 | after adding (from, input, to) the entry for (from, input) is `to`; other outer keys keep their inner maps; other entries of `from`'s map are unchanged; a missing inner map becomes the single binding; the key sets grow by exactly `from` and `input` |
| FsmConfig.LookupAfterAdd | fsm_config.go:16-24 | as a partial function, the new table differs from the old one only at (from, input), whose old binding is overwritten |
| FsmConfig.AddTransitionIdempotent | fsm_config.go:23 | adding the same transition twice equals adding it once |
| FsmConfig.ConfigBuilder.AddTransition | fsm_config.go:16-24 | the table becomes `WithTransition` of the old one; states, alphabet, initial state and final states are unchanged |
| Fsm.ValidateAndBuildLookupSets | internal/fsm.go:28-89 | succeeds iff the configuration is well formed, and then returns the alphabet and final-state sets; NoStates iff no states; NoAlphabet iff states but no alphabet; InvalidInitial iff both are present but the initial state is undeclared; InvalidFinal iff those pass and some final state is undeclared (the first one is reported); any other error names an offending transition |
| Fsm.ReportedMeansIllFormed | internal/fsm.go:33-80 | every error validation may report implies the configuration is not well formed |
| Fsm.TraceIsLongestPath | internal/fsm.go:126-156 | each state of a run is the table's successor of the previous state on the next symbol, and a run that stops early stops at a symbol with no transition |
| Fsm.TraceAppend | internal/fsm.go:149-156 | a run that completes a prefix continues with the run of the rest from where the prefix ended |
| Fsm.TraceStopsAt | internal/fsm.go:150-153 | a run stopped by a failing symbol at position i is the run of the first i symbols |
| Fsm.TraceExtends | internal/fsm.go:137-138 | a successful step adds exactly the successor state to the run |
| Fsm.TraceDeclared | internal/fsm.go:67-80 | from a declared state of a well-formed configuration, every state a run visits is declared |
| Fsm.NewFSM | internal/fsm.go:92-105 | succeeds iff the configuration is well formed; on failure it returns a reportable error; on success the new engine is at the initial state with history `[initial]` |
| Fsm.FSM.constructor | internal/fsm.go:98-104 | a valid engine at the initial state with history `[initial]` |
| Fsm.FSM.Reset | internal/fsm.go:108-111 | current state becomes the initial state and history `[initial]`; the result does not depend on the old state, so resetting is idempotent |
| Fsm.FSM.CurrentState | internal/fsm.go:114-116 | the current state is declared and is where the symbols applied since the last reset lead |
| Fsm.FSM.StateHistory | internal/fsm.go:119-123 | the history has one more element than the symbols applied, starts at the initial state, ends at the current state, and each entry is the table's successor of the one before |
| Fsm.FSM.Transition | internal/fsm.go:126-140 | fails iff the current state has no inner table or no entry for the symbol, with the matching error, and then nothing changes; otherwise the successor becomes current and is appended to the history |
| Fsm.FSM.Process | internal/fsm.go:149-156 | without resetting, the history grows by the run's trace and the state moves to where the run stopped; success iff every symbol applied; otherwise the error carries the first failing position and its cause; empty input changes nothing |
| Fsm.FSM.Execute | internal/fsm.go:143-146 | the history is `[initial]` plus the run from the initial state; on success its length is the input length plus one and consecutive entries follow the table; on failure its length is the failing position plus one |
| Fsm.FSM.IsInFinalState | internal/fsm.go:159-165 | true iff the current state is one of the final states, and always false when there are none |
| Fsm.FSM.ValidateInput | internal/fsm.go:168-171 | true iff the symbol is in the alphabet, regardless of transitions |
| Binary.RunComputesRemainder | examples/modthree/modthree.go:100-106 | with the modulo-3 table, a run from 0 over a bit string applies every symbol and ends in the string's value mod 3 |
| ModThree.DeltaEncodesModThree | examples/modthree/modthree.go:44-57 | the table is total on {0,1,2} × {'0','1'} and maps (s, b) to (2s + b) mod 3 |
| ModThree.ModThreeConfig | examples/modthree/modthree.go:39-58 | the configuration is well formed (so construction cannot panic), starts at 0, uses the modulo-3 table, and has every state final |
| ModThree.EveryReachableStateIsFinal | examples/modthree/modthree.go:43 | every state reachable from 0 on any input is final |
| ModThree.ModThreeGeneric.constructor | examples/modthree/modthree.go:32-69 | builds a valid engine over the configuration, at state 0 |
| ModThree.ModThreeGeneric.ParseInput | examples/modthree/modthree.go:71-86 | "" and "0" give no symbols; otherwise it succeeds iff every character is '0' or '1' and then returns the characters, and on failure names the first invalid character and its position |
| ModThree.ModThreeGeneric.ComputeModThree | examples/modthree/modthree.go:90-107 | ok iff the string is a bit string; the remainder is its value mod 3 (0 on failure); the engine then sits in that remainder state with history `[0]` plus the run over the string, and the consumed symbols are the string, except for "", "0" and bad strings, which leave it untouched; the engine is always in a final state |
| ModThree.ModThreeGeneric.IsDivisibleByThree | examples/modthree/modthree.go:111-114 | true iff the string is a bit string whose value is divisible by 3; after a run the engine is in the remainder state with history `[0]` plus the run over the string; "", "0" and bad strings leave it untouched |
| ModThreeMain.DeltaEncodesModThree | modthree_generic.go:37-50 | the table is total on {0,1,2} × {'0','1'} and maps (s, b) to (2s + b) mod 3 |
| ModThreeMain.ModThreeConfig | modthree_generic.go:32-51 | the configuration is well formed (so construction cannot panic), starts at 0, uses the modulo-3 table, and has only 0 final |
| ModThreeMain.ModThreeGeneric.constructor | modthree_generic.go:31-62 | builds a valid engine over the configuration, at state 0 |
| ModThreeMain.ModThreeGeneric.ParseInput | modthree_generic.go:64-79 | "" and "0" give no symbols; otherwise it succeeds iff every character is '0' or '1' and then returns the characters, and on failure names the first invalid character and its position |
| ModThreeMain.ModThreeGeneric.IsDivisibleByThree | modthree_generic.go:82-98 | as written: true iff the string is a bit string; after a bit string other than "" and "0" the engine is in the value-mod-3 state with history `[0]` plus the run over the string, and that state is final iff the value is divisible by 3; otherwise the engine is untouched |
| ModThreeMain.ModThreeGeneric.IsDivisibleByThreeCorrected | modthree_generic.go:81-98 | true iff the string is a bit string whose value is divisible by 3; after a run the engine is in the remainder state with history `[0]` plus the run over the string; "", "0" and bad strings leave it untouched |
| ModThreeMain.OneReportedDivisible | modthree_generic.go:92-97 | the as-written check answers true for "1", whose remainder is 1 |

## Left out

- Error text and wrapping (`fmt.Errorf`, `%w`, `errors.Is`): errors are enumerated kinds with the payload the message names (state, symbol, position). The Go sentinel each kind wraps is recorded in `fsm.dfy`.
- The order of Go map iteration during transition validation: `Reports` admits any offending transition as the reported one, in the source's check order within each entry.
- Sharing through Go maps: `NewFSM` copies the `FSMConfig` struct, but a non-nil transition map is shared by reference, so a later `AddTransition` on the caller's variable can be seen by the engine (a nil table is replaced by a fresh map the engine never sees). Likewise two rows bound to one inner map, or two `FSMConfig` copies sharing one table, see each other's `AddTransition`s. The model's tables and configurations are values, so it does not capture this aliasing: `WithTransition` keeps every other row unchanged, which holds only when no inner map is shared.
- FsmConfig.ConfigBuilder.AddTransition: does not distinguish a nil map from an empty one. Go reads both identically, so "allocate the outer or inner map when nil" becomes "start from the empty map".
- The `panic` in both `NewModThreeGeneric` constructors: instead, each configuration is proved well formed, so `NewFSM` always succeeds.
- Byte-versus-rune indexing in `ParseInput`: strings are `seq<char>`. The first invalid character is preceded only by ASCII '0'/'1', so its byte index and character index coincide.
- Go's `comparable` constraint: type parameters carry `(==)` where maps and sets need it.
- Concurrency: none in the source; each engine has a single owner.
- The engine's methods require `Valid()`, so the model covers only engines built by `NewFSM` (every method keeps `Valid()`). Go's zero value of the exported `FSM` type, an engine that never went through `NewFSM`, is not modelled.
- The test files (`internal/fsm_test.go`, `examples/modthree/modthree_test.go`) are not modelled; the contracts above cover the behaviour they check.

## Findings

| source | as written | input that shows it | evidently intended | confidence | as-written member | corrected member |
|---|---|---|---|---|---|---|
| modthree_generic.go:81-98 | `IsDivisibleByThree` returns true whenever parsing and `Execute` succeed, without looking at the engine's state. | "1" (value 1, remainder 1) is reported divisible. | Return whether the engine ended in the final state 0, i.e. whether the value is divisible by 3, as the doc comment says and as the configuration's final set {0} suggests. | high; not executed | ModThreeMain.ModThreeGeneric.IsDivisibleByThree, ModThreeMain.OneReportedDivisible | ModThreeMain.ModThreeGeneric.IsDivisibleByThreeCorrected |
