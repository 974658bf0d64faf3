/** Splitting a text at separators, and the proof that it undoes any joining with gaps. */
module Splitting {
  import opened Sequences

  predicate IsGap(s: string, sep: char -> bool)
  {
    forall c :: c in s ==> sep(c)
  }

  predicate IsWord(s: string, sep: char -> bool)
  {
    s != [] && forall c :: c in s ==> !sep(c)
  }

  /** The length of the longest prefix without separators. */
  function RunLength(s: string, sep: char -> bool): (n: nat)
    ensures n <= |s|
  {
    if s == [] || sep(s[0]) then 0 else 1 + RunLength(s[1..], sep)
  }

  /** The maximal separator-free runs of s, in order. */
  function Split(s: string, sep: char -> bool): seq<string>
    decreases |s|
  {
    if s == [] then []
    else if sep(s[0]) then Split(s[1..], sep)
    else
      var n := RunLength(s, sep);
      [s[..n]] + Split(s[n..], sep)
  }

  // ---------- splitting inverts joining ----------

  /** gap, word, gap, word, ..., gap */
  function Join(gaps: seq<string>, words: seq<string>): string
    requires |gaps| == |words| + 1
  {
    if words == [] then gaps[0] else gaps[0] + words[0] + Join(gaps[1..], words[1..])
  }

  predicate Separates(gaps: seq<string>, words: seq<string>, sep: char -> bool)
  {
    && |gaps| == |words| + 1
    && (forall i :: 0 <= i < |gaps| ==> IsGap(gaps[i], sep))
    && (forall i :: 0 < i < |words| ==> gaps[i] != [])
    && (forall i :: 0 <= i < |words| ==> IsWord(words[i], sep))
  }

  lemma {:induction false} SplitSkipsGap(gap: string, s: string, sep: char -> bool)
    requires IsGap(gap, sep)
    ensures Split(gap + s, sep) == Split(s, sep)
  {
    if gap == [] {
      assert gap + s == s;
    } else {
      assert (gap + s)[1..] == gap[1..] + s;
      SplitSkipsGap(gap[1..], s, sep);
    }
  }

  lemma {:induction false} RunOfWord(word: string, s: string, sep: char -> bool)
    requires forall c :: c in word ==> !sep(c)
    requires s == [] || sep(s[0])
    ensures RunLength(word + s, sep) == |word|
  {
    if word == [] {
      assert word + s == s;
    } else {
      assert (word + s)[1..] == word[1..] + s;
      RunOfWord(word[1..], s, sep);
    }
  }

  lemma SplitTakesWord(word: string, s: string, sep: char -> bool)
    requires IsWord(word, sep) && (s == [] || sep(s[0]))
    ensures Split(word + s, sep) == [word] + Split(s, sep)
  {
    RunOfWord(word, s, sep);
    assert word[0] in word && (word + s)[0] == word[0];
    assert (word + s)[..|word|] == word && (word + s)[|word|..] == s;
  }

  /** Whatever the gaps between them, the words of a line are recovered. */
  lemma {:induction false} SplitOfJoin(gaps: seq<string>, words: seq<string>, sep: char -> bool)
    requires Separates(gaps, words, sep)
    ensures Split(Join(gaps, words), sep) == words
  {
    if words == [] {
      SplitSkipsGap(gaps[0], [], sep);
      assert gaps[0] + [] == gaps[0];
    } else {
      var rest := Join(gaps[1..], words[1..]);
      SplitOfJoin(gaps[1..], words[1..], sep);
      assert gaps[0] + words[0] + rest == gaps[0] + (words[0] + rest);
      SplitSkipsGap(gaps[0], words[0] + rest, sep);
      assert rest == [] || sep(rest[0]) by {
        if gaps[1] != [] {
          assert rest[0] == gaps[1][0] && gaps[1][0] in gaps[1];
        } else {
          assert words[1..] == [];
        }
      }
      SplitTakesWord(words[0], rest, sep);
    }
  }

  // ---------- splitting a text that has been cut in pieces ----------

  lemma {:induction false} RunIsWord(s: string, sep: char -> bool)
    ensures forall i :: 0 <= i < RunLength(s, sep) ==> !sep(s[i])
    ensures RunLength(s, sep) < |s| ==> sep(s[RunLength(s, sep)])
  {
    if s != [] && !sep(s[0]) {
      RunIsWord(s[1..], sep);
    }
  }

  lemma {:induction false} RunAcross(word: string, s: string, sep: char -> bool)
    requires forall c :: c in word ==> !sep(c)
    ensures RunLength(word + s, sep) == |word| + RunLength(s, sep)
  {
    if word == [] {
      assert word + s == s;
    } else {
      assert (word + s)[1..] == word[1..] + s;
      RunAcross(word[1..], s, sep);
    }
  }

  /** The cut between s and t goes through a word. */
  predicate Cuts(s: string, t: string, sep: char -> bool)
  {
    s != [] && t != [] && !sep(s[|s| - 1]) && !sep(t[0])
  }

  /** Two pieces have the words of the whole, and one more if the cut goes through a word. */
  lemma {:induction false} SplitOfPieces(s: string, t: string, sep: char -> bool)
    ensures Cuts(s, t, sep) ==> |Split(s + t, sep)| + 1 == |Split(s, sep)| + |Split(t, sep)|
    ensures !Cuts(s, t, sep) ==> Split(s + t, sep) == Split(s, sep) + Split(t, sep)
    decreases |s|
  {
    if s == [] {
      assert s + t == t;
    } else if sep(s[0]) {
      assert (s + t)[1..] == s[1..] + t;
      SplitOfPieces(s[1..], t, sep);
    } else {
      var n := RunLength(s, sep);
      RunIsWord(s, sep);
      if n == |s| {
        WordThenPiece(s, t, sep);
      } else {
        var word, rest := s[..n], s[n..];
        assert s == word + rest;
        ConcatAssoc(word, rest, t);
        SplitTakesWord(word, rest, sep);
        SplitTakesWord(word, rest + t, sep);
        SplitOfPieces(rest, t, sep);
        assert Cuts(s, t, sep) <==> Cuts(rest, t, sep);
        ConcatAssoc([word], Split(rest, sep), Split(t, sep));
      }
    }
  }

  lemma {:induction false} WordThenPiece(word: string, t: string, sep: char -> bool)
    requires IsWord(word, sep)
    ensures Split(word, sep) == [word]
    ensures if t != [] && !sep(t[0]) then |Split(word + t, sep)| == |Split(t, sep)|
            else Split(word + t, sep) == [word] + Split(t, sep)
  {
    assert word + [] == word;
    SplitTakesWord(word, [], sep);
    if t != [] && !sep(t[0]) {
      RunAcross(word, t, sep);
      var n, s := RunLength(t, sep), word + t;
      assert s[|word| + n..] == t[n..];
      assert word[0] in word && s[0] == word[0];
      assert Split(s, sep) == [s[..|word| + n]] + Split(t[n..], sep);
      assert Split(t, sep) == [t[..n]] + Split(t[n..], sep);
    } else {
      SplitTakesWord(word, t, sep);
    }
  }
}
