/** Sequence helpers. */
module Seqs {

  /** `s` in reverse order (the array's `reverse()`). */
  function Reverse<T>(s: seq<T>): (r: seq<T>)
    ensures |r| == |s|
    ensures forall i | 0 <= i < |s| :: r[i] == s[|s| - 1 - i]
    decreases |s|
  {
    if |s| == 0 then [] else Reverse(s[1..]) + [s[0]]
  }

  /** Reversing a concatenation reverses and swaps the parts. */
  lemma ReverseAppend<T>(a: seq<T>, b: seq<T>)
    ensures Reverse(a + b) == Reverse(b) + Reverse(a)
  {
  }

  /** Reversal is its own inverse. */
  lemma ReverseReverse<T>(s: seq<T>)
    ensures Reverse(Reverse(s)) == s
  {
  }

  /** The parts glued together left to right; every part occurs whole in the result. */
  function Concat<T>(parts: seq<seq<T>>): (r: seq<T>)
    ensures forall i | 0 <= i < |parts| :: |parts[i]| <= |r|
    decreases |parts|
  {
    if |parts| == 0 then [] else Concat(parts[..|parts| - 1]) + parts[|parts| - 1]
  }

  /** Gluing distributes over concatenation of the part lists. */
  lemma {:induction false} ConcatAppend<T>(a: seq<seq<T>>, b: seq<seq<T>>)
    ensures Concat(a + b) == Concat(a) + Concat(b)
    decreases |b|
  {
    if |b| == 0 {
      assert a + b == a;
    } else {
      var last := b[|b| - 1];
      var init := b[..|b| - 1];
      assert (a + b)[..|a + b| - 1] == a + init;
      ConcatAppend(a, init);
      assert Concat(a + b) == (Concat(a) + Concat(init)) + last;
      assert Concat(b) == Concat(init) + last;
    }
  }

  /** The result splits at any part: what comes before it, the part, what comes after it. */
  lemma {:induction false} ConcatAt<T>(parts: seq<seq<T>>, i: nat)
    requires i < |parts|
    ensures Concat(parts) == Concat(parts[..i]) + parts[i] + Concat(parts[i + 1..])
    decreases |parts|
  {
    var n := |parts| - 1;
    var init := parts[..n];
    if i == n {
      assert parts[i + 1..] == [];
    } else {
      ConcatAt(init, i);
      assert init[..i] == parts[..i];
      assert init[i + 1..] == parts[i + 1..][..n - (i + 1)];
      assert Concat(parts[i + 1..]) == Concat(init[i + 1..]) + parts[n];
    }
  }
}
