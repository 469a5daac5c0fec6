/** What several components share. */
module Basics {

  datatype Option<+T> = None | Some(value: T)

  /** The number of values of a `uint32_t`. */
  const WORD32: nat := 0x1_0000_0000

  // ---------------------------------------------------------------------------------------
  // Slices of slices

  lemma SliceOfSuffix<T>(s: seq<T>, a: nat, b: nat, c: nat)
    requires b <= c && a + c <= |s|
    ensures s[a..][b..c] == s[a + b..a + c]
  {
  }

  lemma SuffixOfSuffix<T>(s: seq<T>, a: nat, b: nat)
    requires a + b <= |s|
    ensures s[a..][b..] == s[a + b..]
  {
  }

  lemma SliceOfPrefix<T>(s: seq<T>, a: nat, b: nat, c: nat)
    requires a <= b <= c <= |s|
    ensures s[..c][a..b] == s[a..b]
  {
  }

  lemma JoinSlices<T>(s: seq<T>, a: nat, b: nat, c: nat)
    requires a <= b <= c <= |s|
    ensures s[a..b] + s[b..c] == s[a..c]
  {
  }

  /** Equal suffixes have equal slices and suffixes. */
  lemma SameSuffix<T>(s: seq<T>, i: nat, t: seq<T>, j: nat, n: nat)
    requires i + n <= |s| && j <= |t| && s[i..] == t[j..]
    ensures j + n <= |t| && s[i..i + n] == t[j..j + n] && s[i + n..] == t[j + n..]
  {
    assert |s[i..]| == |t[j..]|;
    assert s[i..i + n] == s[i..][..n];
    assert t[j..j + n] == t[j..][..n];
    SuffixOfSuffix(s, i, n);
    SuffixOfSuffix(t, j, n);
  }

  lemma PrefixOfSlice<T>(s: seq<T>, a: nat, b: nat, c: nat)
    requires a <= b <= c <= |s|
    ensures s[a..c][..b - a] == s[a..b]
  {
  }
}
