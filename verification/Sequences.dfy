/** Small facts about concatenation that the solver does better with by name. */
module Sequences {

  lemma ConcatAssoc<T>(a: seq<T>, b: seq<T>, c: seq<T>)
    ensures a + b + c == a + (b + c)
  {
  }

  lemma SliceOfPrefix<T>(a: seq<T>, b: seq<T>, i: nat, j: nat)
    requires i <= j <= |a|
    ensures (a + b)[i..j] == a[i..j]
  {
  }

  lemma SliceOfSuffix<T>(a: seq<T>, b: seq<T>, i: nat, j: nat)
    requires i <= j <= |b|
    ensures (a + b)[|a| + i..|a| + j] == b[i..j]
  {
  }

  lemma SliceOfSlice<T>(s: seq<T>, i: nat, j: nat, k: nat, m: nat)
    requires i <= j <= |s| && k <= m <= j - i
    ensures s[i..j][k..m] == s[i + k..i + m]
  {
    var t := s[i..j];
    assert forall x :: 0 <= x < m - k ==> t[k..m][x] == t[k + x] == s[i + k + x];
    assert t[k..m] == s[i + k..i + m];
  }

  lemma SameParts<T>(s: seq<T>, t: seq<T>, i: nat)
    requires i <= |s| && i <= |t| && s[..i] == t[..i] && s[i..] == t[i..]
    ensures s == t
  {
    assert s == s[..i] + s[i..] && t == t[..i] + t[i..];
  }

  lemma SliceJoin<T>(s: seq<T>, i: nat, j: nat, k: nat)
    requires i <= j <= k <= |s|
    ensures s[i..j] + s[j..k] == s[i..k]
  {
  }
}
