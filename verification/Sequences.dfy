/** Searching in sequences, and the one law of concatenation that the verifier has to be reminded of. */
module Sequences {

  /** The index of the first `x`; the length if there is none. */
  function IndexOf<T(==)>(s: seq<T>, x: T): (k: nat)
    ensures k <= |s|
    ensures x !in s[..k]
    ensures k < |s| ==> s[k] == x
  {
    if s == [] || s[0] == x then 0
    else
      var k := IndexOf(s[1..], x);
      assert s[..k + 1] == [s[0]] + s[1..][..k];
      k + 1
  }

  lemma {:induction false} IndexOfAfter<T>(a: seq<T>, x: T, t: seq<T>)
    requires x !in a
    ensures IndexOf(a + [x] + t, x) == |a|
  {
    if a == [] {
      assert a + [x] + t == [x] + t;
    } else {
      assert (a + [x] + t)[1..] == a[1..] + [x] + t;
      IndexOfAfter(a[1..], x, t);
    }
  }

  lemma Regroup<T>(a: seq<T>, b: seq<T>, c: seq<T>)
    ensures a + b + c == a + (b + c)
  {
  }

  /** A sequence with something in the middle, cut there. */
  lemma CutInMiddle<T>(head: seq<T>, a: seq<T>, c: T, b: seq<T>, tail: seq<T>)
    ensures head + (a + [c] + b) + tail == head + a + [c] + (b + tail)
  {
  }
}
