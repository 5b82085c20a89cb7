/** What several components share. */
module Common {
  /** 2 to the 64, the number of values of an unsigned machine word. */
  const WORD: int := 0x1_0000_0000_0000_0000

  /** Bytes in a page of the allocator. */
  const PAGE_SIZE: int := 8192

  datatype Option<+T> = None | Some(value: T)

  ghost predicate NoRepeats<T>(s: seq<T>) { forall i, j :: 0 <= i < j < |s| ==> s[i] != s[j] }
}
