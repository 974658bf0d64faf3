/** Counting for step systems: sums of a weight over a sequence of processes, and members of a set. */
module Counting {

  function Sum<T>(s: seq<T>, weight: T -> nat): nat
  {
    if s == [] then 0 else weight(s[0]) + Sum(s[1..], weight)
  }

  lemma {:induction false} SumUpdate<T>(s: seq<T>, weight: T -> nat, i: nat, x: T)
    requires i < |s|
    ensures Sum(s[i := x], weight) + weight(s[i]) == Sum(s, weight) + weight(x)
  {
    if i == 0 {
      assert s[0 := x][1..] == s[1..];
    } else {
      assert s[i := x][1..] == s[1..][i - 1 := x];
      SumUpdate(s[1..], weight, i - 1, x);
    }
  }

  lemma {:induction false} SumCovers<T>(s: seq<T>, weight: T -> nat, i: nat)
    requires i < |s|
    ensures weight(s[i]) <= Sum(s, weight)
  {
    if i > 0 {
      SumCovers(s[1..], weight, i - 1);
    }
  }

  lemma {:induction false} SumCoversTwo<T>(s: seq<T>, weight: T -> nat, i: nat, j: nat)
    requires i < j < |s|
    ensures weight(s[i]) + weight(s[j]) <= Sum(s, weight)
  {
    if i > 0 {
      SumCoversTwo(s[1..], weight, i - 1, j - 1);
    } else {
      SumCovers(s[1..], weight, j - 1);
    }
  }

  lemma {:induction false} SumBounded<T>(s: seq<T>, weight: T -> nat, most: nat)
    requires forall i :: 0 <= i < |s| ==> weight(s[i]) <= most
    ensures Sum(s, weight) <= most * |s|
  {
    if s != [] {
      SumBounded(s[1..], weight, most);
    }
  }

  /** Element by element no more, in all no more. */
  lemma {:induction false} SumAtMost<T>(s: seq<T>, v: T -> nat, t: seq<T>, w: T -> nat)
    requires |s| == |t| && forall i :: 0 <= i < |s| ==> v(s[i]) <= w(t[i])
    ensures Sum(s, v) <= Sum(t, w)
  {
    if s != [] {
      assert forall i :: 0 <= i < |s| - 1 ==> s[1..][i] == s[i + 1] && t[1..][i] == t[i + 1];
      SumAtMost(s[1..], v, t[1..], w);
    }
  }

  /** A sum is zero exactly when no element weighs anything. */
  lemma {:induction false} SumZero<T>(s: seq<T>, weight: T -> nat)
    ensures Sum(s, weight) == 0 <==> forall i :: 0 <= i < |s| ==> weight(s[i]) == 0
  {
    if s != [] {
      SumZero(s[1..], weight);
      assert forall i :: 1 <= i < |s| ==> s[i] == s[1..][i - 1];
      if Sum(s, weight) != 0 && weight(s[0]) == 0 {
        var i :| 0 <= i < |s[1..]| && weight(s[1..][i]) != 0;
        assert weight(s[i + 1]) != 0;
      }
    }
  }

  lemma NoMember<T>(z: set<T>)
    requires forall x :: x !in z
    ensures z == {}
  {
  }

  lemma {:induction false} SubsetOfRange(w: set<int>, n: nat)
    requires forall i :: i in w ==> 0 <= i < n
    ensures |w| <= n
  {
    if n == 0 {
      assert forall x :: x !in w;
      NoMember(w);
    } else {
      SubsetOfRange(w - {n - 1}, n - 1);
      assert w <= (w - {n - 1}) + {n - 1};
      if n - 1 in w {
        assert |w - {n - 1}| == |w| - 1;
      } else {
        assert w - {n - 1} == w;
      }
    }
  }

  /** A non-empty set has a member that a proof can name. */
  lemma AnyMember<T>(z: set<T>) returns (x: T)
    requires z != {}
    ensures x in z
  {
    if forall x :: x !in z {
      NoMember(z);
    }
    x :| x in z;
  }
}
