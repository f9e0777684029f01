/** A value that may be absent, and prefixes of sequences. */
module Wrappers {
  datatype Option<+T> = None | Some(value: T)

  /** A prefix grows by one element, and the last prefix is the whole. */
  lemma Prefix<T>(s: seq<T>, i: nat)
    requires i <= |s|
    ensures i < |s| ==> s[..i + 1] == s[..i] + [s[i]]
    ensures s[..|s|] == s && s[..0] == []
  {
  }
}
