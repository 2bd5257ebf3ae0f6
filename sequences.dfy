/** Facts about sequence prefixes that the list-building loops rely on. */
module Sequences {

  /** The prefix of length j + 1 is the prefix of length j followed by element j. */
  lemma PrefixSnoc<T>(s: seq<T>, j: nat)
    requires j < |s|
    ensures s[..j + 1] == s[..j] + [s[j]]
  {
    assert s[..j + 1][..j] == s[..j];
  }

  /** The prefix of full length is the sequence. */
  lemma PrefixAll<T>(s: seq<T>)
    ensures s[..|s|] == s
  {
    assert s[..|s|] == s;
  }
}
