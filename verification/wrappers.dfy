/** What the other modules share: one generic value type and one generic lemma. */
module Wrappers {
  datatype Option<+T> = None | Some(value: T)

  lemma MultisetCancel<T>(a: multiset<T>, b: multiset<T>, c: multiset<T>)
    requires a + c == b + c
    ensures a == b
  {
    assert a == (a + c) - c == (b + c) - c == b;
  }
}
