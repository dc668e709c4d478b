// What several modules share.
module Common {
  datatype Option<+T> = None | Some(value: T)

  /** One more than the largest 64-bit number. */
  const UINT64: nat := 0x1_0000_0000_0000_0000

  lemma SubsetCount<T>(a: set<T>, b: set<T>)
    requires a <= b
    ensures |a| <= |b|
  {
    assert b == a + (b - a);
  }
}
