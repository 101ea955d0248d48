/**
 The types that several of the programs share.
 */
module Basics {
  datatype Option<T> = None | Some(value: T)

  type Byte = b: int | 0 <= b < 256

  /** One element taken away on both sides. */
  lemma {:induction false} RemoveSame<T>(x: multiset<T>, y: multiset<T>, t: T)
    requires x + multiset{t} == y + multiset{t}
    ensures x == y
  {
    assert x == (x + multiset{t}) - multiset{t};
    assert y == (y + multiset{t}) - multiset{t};
  }
}
