/** `lastIndexOf` over a sequence of characters or bytes. */
module Strings {

  /** The index of the last occurrence of x in s, or -1 when there is none. */
  function LastIndexOf<T(==)>(s: seq<T>, x: T): (r: int)
    ensures -1 <= r < |s|
    ensures r >= 0 ==> s[r] == x
    ensures forall k | r < k < |s| :: s[k] != x
    ensures r == -1 <==> x !in s
  {
    if |s| == 0 then -1
    else if s[|s| - 1] == x then |s| - 1
    else LastIndexOf(s[..|s| - 1], x)
  }

  /** The last x in a + b lies in b when b has one, else it is the last x in a. */
  lemma {:induction false} LastIndexOfAppend<T>(a: seq<T>, b: seq<T>, x: T)
    ensures LastIndexOf(a + b, x) == if x in b then |a| + LastIndexOf(b, x) else LastIndexOf(a, x)
  {
    if b != [] {
      var b' := b[..|b| - 1];
      assert (a + b)[..|a + b| - 1] == a + b';
      if b[|b| - 1] != x {
        LastIndexOfAppend(a, b', x);
        assert x in b <==> x in b';
      }
    } else {
      assert a + b == a;
    }
  }
}
