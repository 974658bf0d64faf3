/**
 Function `h` of `prettify.js`, which rewrites the ranges of a character class so that a case-sensitive
 regular expression matches what a case-insensitive one would: it adds the other case of every ASCII
 letter, sorts the ranges and merges those that overlap or touch.
 */
module CharClass {
  import opened Numbers

  datatype Range = Range(lo: int, hi: int)

  predicate WellFormed(ranges: seq<Range>)
  {
    forall i :: 0 <= i < |ranges| ==> ranges[i].lo <= ranges[i].hi
  }

  predicate In(r: Range, x: int)
  {
    r.lo <= x <= r.hi
  }

  /** The code points that a list of ranges denotes. */
  predicate Denotes(ranges: seq<Range>, x: int)
  {
    exists i :: 0 <= i < |ranges| && In(ranges[i], x)
  }

  predicate Letter(x: int)
  {
    65 <= x <= 90 || 97 <= x <= 122
  }

  function OtherCase(x: int): int
    requires Letter(x)
  {
    if x <= 90 then x + 32 else x - 32
  }

  /** `x | 32` and `x & -33` for ASCII codes. */
  function SetCaseBit(x: int): int
    requires 0 <= x < 128
  {
    ((x as bv7) | 32) as int
  }

  function ClearCaseBit(x: int): int
    requires 0 <= x < 128
  {
    ((x as bv7) & 95) as int
  }

  lemma CaseBitOfUpper(x: int)
    requires 65 <= x <= 90
    ensures SetCaseBit(x) == x + 32
  {
    var b := x as bv7;
    assert b | 32 == b + 32;
  }

  lemma CaseBitOfLower(x: int)
    requires 97 <= x <= 122
    ensures ClearCaseBit(x) == x - 32
  {
  }

  // ---------- adding the other case ----------

  /** What one source range adds to the list. */
  function Folded(r: Range): seq<Range>
  {
    var upper := if r.hi < 65 || r.lo > 90 then []
                 else [Range(SetCaseBit(Max(65, r.lo)), SetCaseBit(Min(r.hi, 90)))];
    var lower := if r.hi < 97 || r.lo > 122 then []
                 else [Range(ClearCaseBit(Max(97, r.lo)), ClearCaseBit(Min(r.hi, 122)))];
    [r] + if r.hi < 65 || r.lo > 122 then [] else upper + lower
  }

  /** x is a code point of r or the other case of a letter of r. */
  predicate InEitherCase(r: Range, x: int)
  {
    In(r, x) || (Letter(x) && In(r, OtherCase(x)))
  }

  /** The ranges denote x or, if x is an ASCII letter, its other case. */
  predicate DenotesEitherCase(ranges: seq<Range>, x: int)
  {
    Denotes(ranges, x) || (Letter(x) && Denotes(ranges, OtherCase(x)))
  }

  lemma DenotesConcat(a: seq<Range>, b: seq<Range>, x: int)
    ensures Denotes(a + b, x) <==> Denotes(a, x) || Denotes(b, x)
  {
    if Denotes(a, x) {
      var i :| 0 <= i < |a| && In(a[i], x);
      assert (a + b)[i] == a[i];
    }
    if Denotes(b, x) {
      var i :| 0 <= i < |b| && In(b[i], x);
      assert (a + b)[|a| + i] == b[i];
    }
  }

  lemma DenotesOne(r: Range, x: int)
    ensures Denotes([r], x) <==> In(r, x)
  {
    assert [r][0] == r;
  }

  /** The upper-case letters of r in lower case. */
  lemma FoldedUpper(r: Range, x: int)
    requires r.lo <= r.hi && r.hi >= 65 && r.lo <= 90
    ensures var u := Range(SetCaseBit(Max(65, r.lo)), SetCaseBit(Min(r.hi, 90)));
            u.lo <= u.hi && (In(u, x) <==> 97 <= x <= 122 && In(r, x - 32))
  {
    CaseBitOfUpper(Max(65, r.lo));
    CaseBitOfUpper(Min(r.hi, 90));
  }

  /** The lower-case letters of r in upper case. */
  lemma FoldedLower(r: Range, x: int)
    requires r.lo <= r.hi && r.hi >= 97 && r.lo <= 122
    ensures var l := Range(ClearCaseBit(Max(97, r.lo)), ClearCaseBit(Min(r.hi, 122)));
            l.lo <= l.hi && (In(l, x) <==> 65 <= x <= 90 && In(r, x + 32))
  {
    CaseBitOfLower(Max(97, r.lo));
    CaseBitOfLower(Min(r.hi, 122));
  }

  lemma FoldedOne(r: Range, x: int)
    requires r.lo <= r.hi
    ensures WellFormed(Folded(r))
    ensures Denotes(Folded(r), x) <==> InEitherCase(r, x)
  {
    var upper := if r.hi < 65 || r.lo > 90 then []
                 else [Range(SetCaseBit(Max(65, r.lo)), SetCaseBit(Min(r.hi, 90)))];
    var lower := if r.hi < 97 || r.lo > 122 then []
                 else [Range(ClearCaseBit(Max(97, r.lo)), ClearCaseBit(Min(r.hi, 122)))];
    if upper != [] {
      FoldedUpper(r, x);
      DenotesOne(upper[0], x);
    }
    if lower != [] {
      FoldedLower(r, x);
      DenotesOne(lower[0], x);
    }
    assert Folded(r) == [r] + (upper + lower);
    DenotesOne(r, x);
    DenotesConcat([r], upper + lower, x);
    DenotesConcat(upper, lower, x);
  }

  lemma DenotesPermuted(a: seq<Range>, b: seq<Range>, x: int)
    requires multiset(a) == multiset(b)
    ensures Denotes(a, x) ==> Denotes(b, x)
  {
    if Denotes(a, x) {
      var i :| 0 <= i < |a| && In(a[i], x);
      assert a[i] in multiset(b);
    }
  }

  /** The loop over the ranges of the class, which collects them with their folded parts in `b`. */
  method AddOtherCase(ranges: seq<Range>) returns (b: seq<Range>)
    requires WellFormed(ranges)
    ensures WellFormed(b)
    ensures forall x :: Denotes(b, x) <==> DenotesEitherCase(ranges, x)
  {
    b := [];
    for c := 0 to |ranges|
      invariant WellFormed(b)
      invariant forall x :: Denotes(b, x) <==> DenotesEitherCase(ranges[..c], x)
    {
      ghost var oldB := b;
      b := b + Folded(ranges[c]);
      FoldedOne(ranges[c], 0);
      forall x
        ensures Denotes(b, x) <==> DenotesEitherCase(ranges[..c + 1], x)
      {
        FoldedOne(ranges[c], x);
        DenotesConcat(oldB, Folded(ranges[c]), x);
        EitherCaseNext(ranges, c, x);
      }
    }
    assert ranges[..|ranges|] == ranges;
  }

  lemma EitherCaseNext(ranges: seq<Range>, c: nat, x: int)
    requires c < |ranges|
    ensures DenotesEitherCase(ranges[..c + 1], x) <==> DenotesEitherCase(ranges[..c], x) || InEitherCase(ranges[c], x)
  {
    assert ranges[..c + 1] == ranges[..c] + [ranges[c]];
    DenotesConcat(ranges[..c], [ranges[c]], x);
    DenotesOne(ranges[c], x);
    if Letter(x) {
      DenotesConcat(ranges[..c], [ranges[c]], OtherCase(x));
      DenotesOne(ranges[c], OtherCase(x));
    }
  }

  // ---------- sorting ----------

  /** The comparator of the sort: by start, and the longer range first. */
  predicate Before(a: Range, b: Range)
  {
    a.lo < b.lo || (a.lo == b.lo && a.hi >= b.hi)
  }

  predicate SortedRanges(b: seq<Range>)
  {
    forall i, j :: 0 <= i < j < |b| ==> Before(b[i], b[j])
  }

  lemma InsertSorted(r: seq<Range>, x: Range, k: nat)
    requires k <= |r| && SortedRanges(r)
    requires (forall j :: 0 <= j < k ==> Before(r[j], x)) && (k < |r| ==> !Before(r[k], x))
    ensures SortedRanges(r[..k] + [x] + r[k..])
  {
    var s := r[..k] + [x] + r[k..];
    forall i, j | 0 <= i < j < |s|
      ensures Before(s[i], s[j])
    {
      var a, b := if i < k then i else i - 1, if j < k then j else j - 1;
      if j < k || k < i || (i < k && k < j) {
        assert s[i] == r[a] && s[j] == r[b];
      } else if j == k {
        assert s[i] == r[i] && s[j] == x;
      } else {
        assert s[i] == x && s[j] == r[b];
        assert k < b ==> Before(r[k], r[b]);
      }
    }
  }

  /** Stands for `Array.prototype.sort`: any order that satisfies the comparator will do. */
  method Sort(b: seq<Range>) returns (r: seq<Range>)
    ensures SortedRanges(r) && multiset(r) == multiset(b)
  {
    r := [];
    for i := 0 to |b|
      invariant SortedRanges(r) && multiset(r) == multiset(b[..i])
    {
      var k := 0;
      while k < |r| && Before(r[k], b[i])
        invariant 0 <= k <= |r|
        invariant forall j :: 0 <= j < k ==> Before(r[j], b[i])
      {
        k := k + 1;
      }
      InsertSorted(r, b[i], k);
      assert r == r[..k] + r[k..];
      assert b[..i + 1] == b[..i] + [b[i]];
      r := r[..k] + [b[i]] + r[k..];
    }
    assert b[..|b|] == b;
  }

  // ---------- merging ----------

  /** Sorted, disjoint and with a gap between neighbours. */
  predicate Separated(f: seq<Range>)
  {
    && WellFormed(f)
    && forall i, j :: 0 <= i < j < |f| ==> f[i].hi + 1 < f[j].lo
  }

  /** Extends the last range of f by r, or appends r when a gap lies between them. */
  function Merge(f: seq<Range>, r: Range): seq<Range>
  {
    if f != [] && r.lo <= f[|f| - 1].hi + 1
    then f[|f| - 1 := f[|f| - 1].(hi := Max(f[|f| - 1].hi, r.hi))]
    else f + [r]
  }

  lemma MergeKeeps(f: seq<Range>, r: Range, x: int)
    requires Separated(f) && r.lo <= r.hi && (f != [] ==> f[|f| - 1].lo <= r.lo)
    ensures Separated(Merge(f, r)) && Merge(f, r) != [] && Merge(f, r)[|Merge(f, r)| - 1].lo <= r.lo
    ensures Denotes(Merge(f, r), x) <==> Denotes(f, x) || In(r, x)
  {
    var n := |f| - 1;
    if f != [] && r.lo <= f[n].hi + 1 {
      var m := f[n].(hi := Max(f[n].hi, r.hi));
      assert f == f[..n] + [f[n]] && Merge(f, r) == f[..n] + [m];
      DenotesConcat(f[..n], [f[n]], x);
      DenotesConcat(f[..n], [m], x);
      DenotesOne(f[n], x);
      DenotesOne(m, x);
    } else {
      DenotesConcat(f, [r], x);
      DenotesOne(r, x);
    }
  }

  lemma DenotesNext(b: seq<Range>, c: nat, x: int)
    requires c < |b|
    ensures Denotes(b[..c + 1], x) <==> Denotes(b[..c], x) || In(b[c], x)
  {
    assert b[..c + 1] == b[..c] + [b[c]];
    DenotesConcat(b[..c], [b[c]], x);
    DenotesOne(b[c], x);
  }

  /** The merge loop over the sorted ranges. */
  method MergeSorted(b: seq<Range>) returns (f: seq<Range>)
    requires WellFormed(b) && SortedRanges(b)
    ensures Separated(f)
    ensures forall x :: Denotes(f, x) <==> Denotes(b, x)
  {
    f := [];
    for c := 0 to |b|
      invariant Separated(f) && (f != [] ==> c > 0 && f[|f| - 1].lo <= b[c - 1].lo)
      invariant forall x :: Denotes(f, x) <==> Denotes(b[..c], x)
    {
      ghost var g := f;
      MergeKeeps(g, b[c], 0);
      if f != [] && b[c].lo <= f[|f| - 1].hi + 1 {
        f := f[|f| - 1 := f[|f| - 1].(hi := Max(f[|f| - 1].hi, b[c].hi))];
      } else {
        f := f + [b[c]];
      }
      assert f == Merge(g, b[c]);
      forall x
        ensures Denotes(f, x) <==> Denotes(b[..c + 1], x)
      {
        MergeKeeps(g, b[c], x);
        DenotesNext(b, c, x);
      }
    }
    assert b[..|b|] == b;
  }

  /**
   The ranges that `h` prints: in order, with gaps between them, and denoting exactly the code points of
   the input together with the other case of every ASCII letter among them.
   */
  method CaseFold(ranges: seq<Range>) returns (f: seq<Range>)
    requires WellFormed(ranges)
    ensures Separated(f)
    ensures forall x :: Denotes(f, x) <==> DenotesEitherCase(ranges, x)
  {
    var b := AddOtherCase(ranges);
    var sorted := Sort(b);
    assert forall i :: 0 <= i < |sorted| ==> sorted[i] in multiset(b);
    forall x
      ensures Denotes(sorted, x) <==> Denotes(b, x)
    {
      DenotesPermuted(sorted, b, x);
      DenotesPermuted(b, sorted, x);
    }
    f := MergeSorted(sorted);
  }

  lemma SeparatedTail(f: seq<Range>, x: int)
    requires Separated(f) && f != []
    ensures Separated(f[1..]) && (Denotes(f[1..], x) <==> Denotes(f, x) && x > f[0].hi)
    ensures Denotes(f, x) ==> f[0].lo <= x
    ensures !Denotes(f, f[0].hi + 1) && Denotes(f, f[0].lo) && (In(f[0], x) ==> Denotes(f, x))
  {
    assert f == [f[0]] + f[1..];
    DenotesConcat([f[0]], f[1..], x);
    DenotesOne(f[0], x);
    assert In(f[0], f[0].lo);
  }

  /** The set of code points determines the printed ranges: no other separated list denotes it. */
  lemma {:induction false} SeparatedUnique(f: seq<Range>, g: seq<Range>)
    requires Separated(f) && Separated(g) && forall x :: Denotes(f, x) <==> Denotes(g, x)
    ensures f == g
  {
    if f == [] || g == [] {
      if f != [] {
        SeparatedTail(f, f[0].lo);
      }
      if g != [] {
        SeparatedTail(g, g[0].lo);
      }
    } else {
      SeparatedTail(f, g[0].lo);
      SeparatedTail(g, f[0].lo);
      SeparatedTail(f, g[0].hi + 1);
      SeparatedTail(g, f[0].hi + 1);
      forall x
        ensures Denotes(f[1..], x) <==> Denotes(g[1..], x)
      {
        SeparatedTail(f, x);
        SeparatedTail(g, x);
      }
      SeparatedUnique(f[1..], g[1..]);
      assert f == [f[0]] + f[1..] && g == [g[0]] + g[1..];
    }
  }
}
