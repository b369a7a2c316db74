/** What several modules share. */
module Wrappers {
  datatype Option<+T> = None | Some(value: T)

  /** A subset has no more elements. */
  lemma SubsetSize<T>(a: set<T>, b: set<T>)
    requires a <= b
    ensures |a| <= |b|
  {
    assert b == a + (b - a);
  }
}
