/** Sequences as sets. */
module Seqs {
  function Items<T(==)>(s: seq<T>): set<T> {
    set x | x in s
  }
}
