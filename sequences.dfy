/** Positions in a list, shared by the selection and the filter lists. */
module Sequences {

  /** Python `list.index(x)`: the position of the first `x`. */
  function IndexOf<T(==)>(s: seq<T>, x: T): (i: nat)
    requires x in s
    ensures i < |s| && s[i] == x && x !in s[..i]
  {
    if s[0] == x then 0
    else
      var j := IndexOf(s[1..], x);
      assert s[..j + 1] == [s[0]] + s[1..][..j];
      j + 1
  }

  /** Past a head that differs, the first position is one more than in the
      tail. */
  lemma IndexOfTail<T>(s: seq<T>, x: T)
    requires s != [] && x in s[1..] && x != s[0]
    ensures IndexOf(s, x) == 1 + IndexOf(s[1..], x)
  {
  }
}
