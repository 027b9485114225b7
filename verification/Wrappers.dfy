/** Small general-purpose definitions. */
module Wrappers {
  datatype Option<+T> = None | Some(value: T)

  /** Appending an element keeps the prefixes. */
  lemma PrefixesKept<T>(s: seq<T>, x: T)
    ensures forall m | 0 <= m < |s| :: (s + [x])[..m] == s[..m]
    ensures (s + [x])[..|s|] == s
  {
  }
}
