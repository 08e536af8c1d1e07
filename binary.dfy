/** Binary strings as the two modulo-3 clients read them, the transition
    table both clients hard-code, and what running that table computes. */
module Binary {

  import opened Wrappers
  import opened FsmConfig
  import opened Fsm

  predicate IsBit(c: char)
  {
    c == '0' || c == '1'
  }

  predicate IsBitString(s: string)
  {
    forall k :: 0 <= k < |s| ==> IsBit(s[k])
  }

  function BitValue(c: char): nat
  {
    if c == '1' then 1 else 0
  }

  /** The number a bit string denotes, most significant bit first; the empty
      string denotes 0. */
  function BinaryValue(s: string): nat
  {
    if s == [] then 0 else 2 * BinaryValue(s[..|s| - 1]) + BitValue(s[|s| - 1])
  }

  /** What ParseInput returns. NoSymbols is Go's (nil, nil), returned for ""
      and "0" before any character is examined; InvalidChar carries the
      character and position the error message names. */
  datatype ParseResult =
    | NoSymbols
    | Symbols(symbols: seq<char>)
    | InvalidChar(ch: char, position: nat)

  /** `t` maps remainder state s and bit b to (2s + b) mod 3, for every
      s in {0, 1, 2} and b in {'0', '1'}: shifting in one bit doubles the
      number and adds the bit. */
  ghost predicate EncodesModThree(t: Table<int, char>)
  {
    forall s, b :: 0 <= s < 3 && IsBit(b) ==> Lookup(t, s, b) == Some((2 * s + BitValue(b)) % 3)
  }

  /** Running such a table from state 0 over a bit string never fails and
      ends in the remainder of the string's value divided by 3. */
  lemma {:induction false} RunComputesRemainder(t: Table<int, char>, xs: string)
    requires EncodesModThree(t) && IsBitString(xs)
    ensures |Trace(t, 0, xs)| == |xs|
    ensures Reached(t, 0, xs) == BinaryValue(xs) % 3
    decreases |xs|
  {
    if xs != [] {
      var n := |xs| - 1;
      var prefix := xs[..n];
      assert IsBitString(prefix) by {
        forall k | 0 <= k < |prefix| ensures IsBit(prefix[k]) {
          assert prefix[k] == xs[k];
        }
      }
      RunComputesRemainder(t, prefix);
      var r := Reached(t, 0, prefix);
      assert Lookup(t, r, xs[n]) == Some((2 * r + BitValue(xs[n])) % 3) by {
        assert IsBit(xs[n]);
      }
      TraceExtends(t, 0, xs, n);
      assert xs[..n + 1] == xs;
      assert BinaryValue(xs) == 2 * BinaryValue(prefix) + BitValue(xs[n]);
      ModThreeShift(BinaryValue(prefix), BitValue(xs[n]));
    }
  }

  /** Reducing before shifting in a bit gives the same remainder. */
  lemma {:induction false} ModThreeShift(v: nat, b: nat)
    ensures (2 * (v % 3) + b) % 3 == (2 * v + b) % 3
  {
    if v >= 3 {
      ModThreeShift(v - 3, b);
      assert (v - 3) % 3 == v % 3;
      assert (2 * (v - 3) + b) % 3 == (2 * v + b) % 3;
    }
  }
}
