/**
 Python's ordering of `str` values: code point by code point, and a proper
 prefix sorts before any of its extensions. Sorting by `title` or by `lang`
 compares keys with this order.
 */
module Lex {

  /** True iff `x` sorts strictly before `y`. */
  predicate Less(x: string, y: string)
  {
    if |y| == 0 then false
    else if |x| == 0 then true
    else if x[0] != y[0] then x[0] < y[0]
    else Less(x[1..], y[1..])
  }

  /** No string sorts before itself. */
  lemma {:induction false} Irreflexive(x: string)
    ensures !Less(x, x)
  {
    if |x| > 0 {
      Irreflexive(x[1..]);
    }
  }

  /** The order is asymmetric: at most one of two strings sorts first. */
  lemma {:induction false} Asymmetric(x: string, y: string)
    ensures Less(x, y) ==> !Less(y, x)
  {
    if |x| > 0 && |y| > 0 && x[0] == y[0] {
      Asymmetric(x[1..], y[1..]);
    }
  }

  /** The order is transitive. */
  lemma {:induction false} Transitive(x: string, y: string, z: string)
    requires Less(x, y) && Less(y, z)
    ensures Less(x, z)
  {
    if |x| > 0 && x[0] == y[0] && y[0] == z[0] {
      Transitive(x[1..], y[1..], z[1..]);
    }
  }

  /** Two different strings are always ordered one way or the other. */
  lemma {:induction false} Total(x: string, y: string)
    ensures x == y || Less(x, y) || Less(y, x)
  {
    if |x| > 0 && |y| > 0 && x[0] == y[0] {
      Total(x[1..], y[1..]);
      if x[1..] == y[1..] {
        assert x == [x[0]] + x[1..] && y == [y[0]] + y[1..];
      }
    }
  }
}
