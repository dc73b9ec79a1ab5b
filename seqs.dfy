/** Facts about sequences of any element type that the string, log and loop
    proofs cite by name rather than leave to the solver. */
module Seqs {

  lemma SplitAround<T>(s: seq<T>, j: nat)
    requires j < |s|
    ensures s == s[..j] + [s[j]] + s[j + 1..]
  {
  }

  lemma SplitThree<T>(s: seq<T>, k: nat, l: nat)
    requires k <= l <= |s|
    ensures s == s[..k] + s[k..l] + s[l..]
  {
  }

  lemma Associative<T>(x: seq<T>, y: seq<T>, z: seq<T>)
    ensures x + (y + z) == (x + y) + z
  {
  }

  lemma PrefixSplit<T>(s: seq<T>, k: nat, l: nat)
    requires k <= l <= |s|
    ensures s[..l] == s[..k] + s[k..l]
  {
  }

  lemma PrefixPrefix<T>(s: seq<T>, m: nat, n: nat)
    requires n <= m <= |s|
    ensures s[..m][..n] == s[..n]
  {
  }

  lemma EmptyBetween<T>(a: T, m: seq<T>, b: T)
    requires m == []
    ensures [a] + m + [b] == [a, b]
  {
  }

  lemma SuffixPrefix<T>(s: seq<T>, k: nat, n: nat)
    requires k + n <= |s|
    ensures s[k..][..n] == s[k..k + n]
  {
  }

  lemma TakeAll<T>(s: seq<T>)
    ensures s[..|s|] == s
  {
  }

  /** Appending one element at a time builds the two- and three-element
      displays. */
  lemma Displays<T>(a: T, b: T, c: T)
    ensures [a] + [b] == [a, b] && [a, b] + [c] == [a, b, c]
    ensures [] + [a] == [a] && [a] + [] == [a]
  {
  }
}
