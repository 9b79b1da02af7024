/** What several parts of the kernel use. */
module Common {
  newtype byte = x: int | 0 <= x < 256

  datatype Option<T> = None | Some(value: T)

  const PAGE_SIZE: nat := 0x1000

  predicate PageAligned(x: nat) {
    x % PAGE_SIZE == 0
  }

  predicate Distinct(l: seq<nat>) {
    forall i, j | 0 <= i < j < |l| :: l[i] != l[j]
  }
}
