/**
 The word filter of `filter.c`: every space-separated token that contains a filter word is replaced by a
 row of x for each filter word in it.
 */
module WordFilter {
  import opened CStrings
  import opened Sequences
  import opened Splitting

  const MAX: nat := 255
  const FILTERWORDS: seq<string> := ["undo", "oder", "aber", "ein"]

  function Space(): char -> bool
  {
    c => c == ' '
  }

  predicate OccursAt(s: string, w: string, i: nat)
  {
    i + |w| <= |s| && s[i..i + |w|] == w
  }

  /** `strstr(s, w) != NULL` */
  predicate Contains(s: string, w: string)
  {
    exists i :: 0 <= i <= |s| && OccursAt(s, w, i)
  }

  /** `strstr` finds exactly the parts of a text. */
  lemma ContainsPart(a: string, w: string, b: string)
    ensures Contains(a + w + b, w)
  {
    assert OccursAt(a + w + b, w, |a|);
  }

  lemma ContainedIsPart(s: string, w: string) returns (a: string, b: string)
    requires Contains(s, w)
    ensures s == a + w + b
  {
    var i :| 0 <= i <= |s| && OccursAt(s, w, i);
    a, b := s[..i], s[i + |w|..];
  }

  // ---------- what is printed ----------

  function Row(n: nat): string
  {
    if n == 0 then [] else "x" + Row(n - 1)
  }

  /** A row of x for each of the words that occurs in the token. */
  function Rows(token: string, words: seq<string>): seq<string>
  {
    if words == [] then []
    else (if Contains(token, words[0]) then [Row(|words[0]|)] else []) + Rows(token, words[1..])
  }

  function Shown(token: string, words: seq<string>): seq<string>
  {
    if Rows(token, words) == [] then [token] else Rows(token, words)
  }

  function ShownAll(tokens: seq<string>, words: seq<string>): seq<string>
  {
    if tokens == [] then [] else Shown(tokens[0], words) + ShownAll(tokens[1..], words)
  }

  /** Each word followed by a space. */
  function Render(shown: seq<string>): string
  {
    if shown == [] then [] else shown[0] + " " + Render(shown[1..])
  }

  /** The output for one line. */
  function Filtered(line: string, words: seq<string>): string
  {
    Render(ShownAll(Split(line, Space()), words))
  }

  function FilteredAll(lines: seq<string>, words: seq<string>): string
  {
    if lines == [] then [] else Filtered(lines[0], words) + FilteredAll(lines[1..], words)
  }

  /** Words that a row of x cannot contain and that a space cannot be part of. */
  predicate Proper(words: seq<string>)
  {
    forall w :: w in words ==> w != [] && ' ' !in w && exists i :: 0 <= i < |w| && w[i] != 'x'
  }

  lemma FilterwordsProper()
    ensures Proper(FILTERWORDS)
  {
    assert "undo"[0] != 'x' && "oder"[0] != 'x' && "aber"[0] != 'x' && "ein"[0] != 'x';
  }

  lemma FourFilterwords()
    ensures forall w :: w in FILTERWORDS <==> w == "undo" || w == "oder" || w == "aber" || w == "ein"
  {
    assert FILTERWORDS[0] == "undo" && FILTERWORDS[1] == "oder" && FILTERWORDS[2] == "aber" && FILTERWORDS[3] == "ein";
  }

  // ---------- soundness ----------

  /** Printed words: not empty, without spaces, and without any filter word. */
  predicate Clean(shown: seq<string>, words: seq<string>)
  {
    && (forall s :: s in shown ==> IsWord(s, Space()))
    && forall s, w :: s in shown && w in words ==> !Contains(s, w)
  }

  lemma {:induction false} RowOfX(n: nat)
    ensures |Row(n)| == n && forall i :: 0 <= i < n ==> Row(n)[i] == 'x'
  {
    if n > 0 {
      RowOfX(n - 1);
    }
  }

  lemma RowClean(n: nat, words: seq<string>)
    requires Proper(words) && n > 0
    ensures Clean([Row(n)], words)
  {
    RowOfX(n);
    forall w | w in words
      ensures !Contains(Row(n), w)
    {
      var k :| 0 <= k < |w| && w[k] != 'x';
      forall i | 0 <= i <= n
        ensures !OccursAt(Row(n), w, i)
      {
        if i + |w| <= n {
          assert Row(n)[i..i + |w|][k] == Row(n)[i + k] == 'x';
        }
      }
    }
  }

  lemma {:induction false} RowsClean(token: string, some: seq<string>, words: seq<string>)
    requires Proper(words) && forall w :: w in some ==> w in words
    ensures Clean(Rows(token, some), words)
    ensures Rows(token, some) == [] <==> forall w :: w in some ==> !Contains(token, w)
  {
    if some != [] {
      assert some[0] in words;
      RowsClean(token, some[1..], words);
      RowClean(|some[0]|, words);
      assert forall w :: w in some <==> w == some[0] || w in some[1..];
    }
  }

  lemma {:induction false} ShownAllClean(tokens: seq<string>, words: seq<string>)
    requires Proper(words) && forall t :: t in tokens ==> IsWord(t, Space())
    ensures Clean(ShownAll(tokens, words), words)
  {
    if tokens != [] {
      RowsClean(tokens[0], words, words);
      ShownAllClean(tokens[1..], words);
    }
  }

  lemma OccurrenceCovers(s: string, w: string, i: nat, j: nat)
    requires OccursAt(s, w, i) && i <= j < i + |w|
    ensures s[j] in w
  {
    assert s[i..i + |w|][j - i] == s[j];
  }

  /** A word without spaces that occurs in two texts joined by a space occurs in one of them. */
  lemma ContainsAcrossSpace(a: string, b: string, w: string)
    requires ' ' !in w && w != [] && Contains(a + " " + b, w)
    ensures Contains(a, w) || Contains(b, w)
  {
    var s := a + " " + b;
    var i :| 0 <= i <= |s| && OccursAt(s, w, i);
    if i + |w| <= |a| {
      assert s == a + (" " + b);
      SliceOfPrefix(a, " " + b, i, i + |w|);
      assert OccursAt(a, w, i);
    } else if i > |a| {
      var k := i - |a| - 1;
      SliceOfSuffix(a + " ", b, k, k + |w|);
      assert OccursAt(b, w, k);
    } else {
      OccurrenceCovers(s, w, i, |a|);
    }
  }

  lemma {:induction false} RenderClean(shown: seq<string>, words: seq<string>, w: string)
    requires Proper(words) && Clean(shown, words) && w in words
    ensures !Contains(Render(shown), w)
  {
    if shown != [] {
      assert Clean(shown[1..], words);
      RenderClean(shown[1..], words, w);
      if Contains(Render(shown), w) {
        ContainsAcrossSpace(shown[0], Render(shown[1..]), w);
      }
    } else {
      assert |w| > 0;
    }
  }

  lemma {:induction false} SplitWords(s: string, sep: char -> bool)
    ensures forall t :: t in Split(s, sep) ==> IsWord(t, sep)
    decreases |s|
  {
    if s != [] {
      if sep(s[0]) {
        SplitWords(s[1..], sep);
      } else {
        var n := RunLength(s, sep);
        SplitWords(s[n..], sep);
        RunIsWord(s, sep);
      }
    }
  }

  lemma {:induction false} RenderConcat(a: seq<string>, b: seq<string>)
    ensures Render(a + b) == Render(a) + Render(b)
  {
    if a == [] {
      assert a + b == b;
    } else {
      assert (a + b)[1..] == a[1..] + b;
      RenderConcat(a[1..], b);
    }
  }

  /** The whole output is a rendering of clean words. */
  lemma {:induction false} FilteredAllClean(lines: seq<string>, words: seq<string>) returns (shown: seq<string>)
    requires Proper(words)
    ensures Clean(shown, words) && FilteredAll(lines, words) == Render(shown)
  {
    if lines == [] {
      shown := [];
    } else {
      var first := ShownAll(Split(lines[0], Space()), words);
      SplitWords(lines[0], Space());
      ShownAllClean(Split(lines[0], Space()), words);
      var rest := FilteredAllClean(lines[1..], words);
      RenderConcat(first, rest);
      shown := first + rest;
    }
  }

  /** No filter word occurs anywhere in the output, not even across the border of two tokens or two lines. */
  lemma NoFilterWordSurvives(lines: seq<string>, words: seq<string>, w: string)
    requires Proper(words) && w in words
    ensures !Contains(FilteredAll(lines, words), w)
  {
    var shown := FilteredAllClean(lines, words);
    RenderClean(shown, words, w);
  }

  /** The same in terms of the text itself. */
  lemma NoFilterWordInOutput(lines: seq<string>, words: seq<string>, w: string, a: string, b: string)
    requires Proper(words) && w in words
    ensures FilteredAll(lines, words) != a + w + b
  {
    NoFilterWordSurvives(lines, words, w);
    ContainsPart(a, w, b);
  }

  lemma RenderOne(s: string)
    ensures Render([s]) == s + " "
  {
    assert s + " " + [] == s + " ";
  }

  // ---------- what is printed for a word ----------

  lemma {:induction false} RowsConcat(token: string, a: seq<string>, b: seq<string>)
    ensures Rows(token, a + b) == Rows(token, a) + Rows(token, b)
  {
    if a == [] {
      assert a + b == b;
    } else {
      assert (a + b)[1..] == a[1..] + b;
      RowsConcat(token, a[1..], b);
    }
  }

  lemma {:induction false} RowsNone(token: string, words: seq<string>)
    ensures Rows(token, words) == [] <==> forall w :: w in words ==> !Contains(token, w)
  {
    if words != [] {
      RowsNone(token, words[1..]);
      assert forall w :: w in words <==> w == words[0] || w in words[1..];
    }
  }

  lemma FilteredWord(t: string, words: seq<string>)
    requires IsWord(t, Space())
    ensures Filtered(t, words) == Render(Shown(t, words))
  {
    WordThenPiece(t, [], Space());
    assert [t][1..] == [] && ShownAll([t], words) == Shown(t, words) + [] == Shown(t, words);
  }

  /** A word without filter words is printed as it is, followed by a space. */
  lemma PrintsCleanWord(t: string, words: seq<string>)
    requires IsWord(t, Space()) && forall w :: w in words ==> !Contains(t, w)
    ensures Filtered(t, words) == t + " "
  {
    FilteredWord(t, words);
    RowsNone(t, words);
    RenderOne(t);
  }

  /** The program prints every word as it is in which none of its four words occurs. */
  lemma PrintsOtherWord(t: string)
    requires IsWord(t, Space())
    requires !Contains(t, "undo") && !Contains(t, "oder") && !Contains(t, "aber") && !Contains(t, "ein")
    ensures Filtered(t, FILTERWORDS) == t + " "
  {
    FourFilterwords();
    PrintsCleanWord(t, FILTERWORDS);
  }

  /** A word with one filter word in it is printed as one x for each letter of the filter word, and a space. */
  lemma PrintsRow(t: string, a: seq<string>, w: string, b: seq<string>)
    requires IsWord(t, Space()) && Contains(t, w)
    requires forall v :: v in a || v in b ==> !Contains(t, v)
    ensures var output := Filtered(t, a + [w] + b);
            && |output| == |w| + 1 && output[|w|] == ' '
            && forall i :: 0 <= i < |w| ==> output[i] == 'x'
  {
    FilteredWord(t, a + [w] + b);
    RowsConcat(t, a + [w], b);
    RowsConcat(t, a, [w]);
    RowsNone(t, a);
    RowsNone(t, b);
    assert Rows(t, [w]) == [Row(|w|)];
    RowOfX(|w|);
    RenderOne(Row(|w|));
  }

  /** The rows for several filter words are printed one after the other, in the order of the list. */
  lemma PrintsRowsInOrder(t: string, a: seq<string>, b: seq<string>)
    requires IsWord(t, Space())
    requires (exists v :: v in a && Contains(t, v)) && exists v :: v in b && Contains(t, v)
    ensures Filtered(t, a + b) == Filtered(t, a) + Filtered(t, b)
  {
    FilteredWord(t, a);
    FilteredWord(t, b);
    FilteredWord(t, a + b);
    RowsNone(t, a);
    RowsNone(t, b);
    RowsConcat(t, a, b);
    RenderConcat(Rows(t, a), Rows(t, b));
  }

  lemma {:induction false} ShownAllConcat(a: seq<string>, b: seq<string>, words: seq<string>)
    ensures ShownAll(a + b, words) == ShownAll(a, words) + ShownAll(b, words)
  {
    if a == [] {
      assert a + b == b;
    } else {
      assert (a + b)[1..] == a[1..] + b;
      ShownAllConcat(a[1..], b, words);
    }
  }

  /** What is printed for a line is what is printed for its parts at any space. */
  lemma PrintsPartsInOrder(u: string, v: string, words: seq<string>)
    ensures Filtered(u + " " + v, words) == Filtered(u, words) + Filtered(v, words)
  {
    var a, b := Split(u, Space()), Split(v, Space());
    SplitOfPieces(u + " ", v, Space());
    SplitOfPieces(u, " ", Space());
    assert Split(" ", Space()) == [] && a + [] == a;
    ShownAllConcat(a, b, words);
    RenderConcat(ShownAll(a, words), ShownAll(b, words));
  }

  // ---------- idempotence ----------

  lemma {:induction false} ShownAllOfClean(shown: seq<string>, words: seq<string>)
    requires Proper(words) && Clean(shown, words)
    ensures ShownAll(shown, words) == shown
  {
    if shown != [] {
      assert shown[0] in shown && Clean(shown[1..], words);
      RowsClean(shown[0], words, words);
      ShownAllOfClean(shown[1..], words);
    }
  }

  function Spaces(n: nat): seq<string>
  {
    if n == 0 then [] else [" "] + Spaces(n - 1)
  }

  lemma {:induction false} RenderIsJoin(shown: seq<string>)
    ensures |Spaces(|shown|)| == |shown| && forall i :: 0 <= i < |shown| ==> Spaces(|shown|)[i] == " "
    ensures Render(shown) == Join([""] + Spaces(|shown|), shown)
  {
    if shown != [] {
      RenderIsJoin(shown[1..]);
      var gaps := [""] + Spaces(|shown|);
      JoinGap(" ", Spaces(|shown| - 1), shown[1..]);
      assert gaps[1..] == [" "] + Spaces(|shown| - 1);
      assert "" + shown[0] == shown[0];
    }
  }

  /** A longer first gap only puts its characters in front. */
  lemma JoinGap(gap: string, gaps: seq<string>, words: seq<string>)
    requires |gaps| == |words|
    ensures Join([gap] + gaps, words) == gap + Join([""] + gaps, words)
  {
    if words == [] {
      assert [gap] + gaps == [gap] && [""] + gaps == [""];
    } else {
      assert ([gap] + gaps)[1..] == gaps && ([""] + gaps)[1..] == gaps;
      var rest := Join(gaps, words[1..]);
      assert "" + words[0] == words[0];
      ConcatAssoc(gap, words[0], rest);
    }
  }

  lemma SplitOfRender(shown: seq<string>)
    requires forall s :: s in shown ==> IsWord(s, Space())
    ensures Split(Render(shown), Space()) == shown
  {
    RenderIsJoin(shown);
    SplitOfJoin([""] + Spaces(|shown|), shown, Space());
  }

  /** Filtering the output of a line again reproduces it. */
  lemma FilteringTwice(line: string, words: seq<string>)
    requires Proper(words)
    ensures Filtered(Filtered(line, words), words) == Filtered(line, words)
  {
    var shown := ShownAll(Split(line, Space()), words);
    SplitWords(line, Space());
    ShownAllClean(Split(line, Space()), words);
    SplitOfRender(shown);
    ShownAllOfClean(shown, words);
  }

  // ---------- the output as input of a second run ----------

  /** The length of what `fgets` delivers: at most `size` - 1 characters, up to a newline. */
  function FgetsLength(text: string, size: nat): (n: nat)
    requires size > 1
    ensures n <= |text| && n < size && (text != [] ==> n > 0)
    ensures n == |text| || n == size - 1 || (n > 0 && text[n - 1] == '\n')
    ensures '\n' !in text[..n] || (n > 0 && text[n - 1] == '\n' && '\n' !in text[..n - 1])
  {
    if text == [] then 0
    else if text[0] == '\n' || size == 2 then 1
    else
      var n := FgetsLength(text[1..], size - 1);
      assert text[..n + 1] == [text[0]] + text[1..][..n];
      assert n > 0 ==> text[..n] == [text[0]] + text[1..][..n - 1];
      n + 1
  }

  /** The input in the pieces that the calls of `fgets` deliver. */
  function Pieces(text: string, size: nat): seq<string>
    requires size > 1
    decreases |text|
  {
    if text == [] then []
    else
      var n := FgetsLength(text, size);
      [text[..n]] + Pieces(text[n..], size)
  }

  function Flatten(pieces: seq<string>): string
  {
    if pieces == [] then [] else pieces[0] + Flatten(pieces[1..])
  }

  predicate NoneEmpty(pieces: seq<string>)
  {
    forall i :: 0 <= i < |pieces| ==> pieces[i] != []
  }

  predicate EndsInNewline(line: string)
  {
    line != [] && line[|line| - 1] == '\n'
  }

  predicate EndsOnly(line: string, c: char)
  {
    forall i :: 0 <= i < |line| && line[i] == c ==> i == |line| - 1
  }

  lemma {:induction false} PiecesJoin(text: string, size: nat)
    requires size > 1
    ensures Flatten(Pieces(text, size)) == text && NoneEmpty(Pieces(text, size))
    ensures forall p, c :: p in Pieces(text, size) && c in p ==> c in text
    decreases |text|
  {
    if text != [] {
      var n := FgetsLength(text, size);
      PiecesJoin(text[n..], size);
      assert text == text[..n] + text[n..];
    }
  }

  lemma FirstLine(text: string, size: nat)
    requires size > 1 && text != []
    ensures EndsOnly(text[..FgetsLength(text, size)], '\n')
  {
    var n := FgetsLength(text, size);
    assert forall i :: 0 <= i < n - 1 ==> text[i] == text[..n - 1][i];
    assert forall i :: 0 <= i < n ==> text[i] == text[..n][i];
  }

  /**
   The pieces are the text; each is a line or a part of one that fits the buffer, and only the end of the text
   ends a piece that neither fills the buffer nor ends in a newline.
   */
  lemma {:induction false} PiecesAre(text: string, size: nat)
    requires size > 1
    ensures Flatten(Pieces(text, size)) == text && NoneEmpty(Pieces(text, size))
    ensures forall p, c :: p in Pieces(text, size) && c in p ==> c in text
    ensures forall p :: p in Pieces(text, size) ==> EndsOnly(p, '\n') && |p| < size
    ensures var pieces := Pieces(text, size);
            forall i :: 0 <= i < |pieces| - 1 ==> |pieces[i]| == size - 1 || EndsInNewline(pieces[i])
    decreases |text|
  {
    PiecesJoin(text, size);
    if text != [] {
      FirstLine(text, size);
      PiecesAre(text[FgetsLength(text, size)..], size);
    }
  }

  function SplitAll(pieces: seq<string>): seq<string>
  {
    if pieces == [] then [] else Split(pieces[0], Space()) + SplitAll(pieces[1..])
  }

  /** Some cut goes through a word. */
  predicate CutsWord(pieces: seq<string>)
  {
    exists i :: 0 < i < |pieces| && Cuts(pieces[i - 1], pieces[i], Space())
  }

  lemma CutsWordNext(pieces: seq<string>)
    requires |pieces| > 1
    ensures CutsWord(pieces) <==> Cuts(pieces[0], pieces[1], Space()) || CutsWord(pieces[1..])
  {
    var rest := pieces[1..];
    if CutsWord(rest) {
      var i :| 0 < i < |rest| && Cuts(rest[i - 1], rest[i], Space());
      assert Cuts(pieces[i + 1 - 1], pieces[i + 1], Space());
    }
    if CutsWord(pieces) {
      var i :| 0 < i < |pieces| && Cuts(pieces[i - 1], pieces[i], Space());
      assert i > 1 ==> Cuts(rest[i - 1 - 1], rest[i - 1], Space());
    }
  }

  /** The pieces have the words of the whole text, and more if a cut goes through a word. */
  lemma {:induction false} SplitAllOfPieces(pieces: seq<string>)
    requires NoneEmpty(pieces)
    ensures |Split(Flatten(pieces), Space())| <= |SplitAll(pieces)|
    ensures CutsWord(pieces) ==> |Split(Flatten(pieces), Space())| < |SplitAll(pieces)|
    ensures !CutsWord(pieces) ==> Split(Flatten(pieces), Space()) == SplitAll(pieces)
  {
    if pieces != [] {
      var rest := pieces[1..];
      SplitAllOfPieces(rest);
      SplitOfPieces(pieces[0], Flatten(rest), Space());
      if rest != [] {
        CutsWordNext(pieces);
        assert rest[0] != [] && Flatten(rest)[0] == rest[0][0];
      }
    }
  }

  lemma ContainsTrans(s: string, t: string, w: string)
    requires Contains(s, t) && Contains(t, w)
    ensures Contains(s, w)
  {
    var i :| 0 <= i <= |s| && OccursAt(s, t, i);
    var j :| 0 <= j <= |t| && OccursAt(t, w, j);
    SliceOfSlice(s, i, i + |t|, j, j + |w|);
    assert OccursAt(s, w, i + j);
  }

  lemma {:induction false} SplitInside(s: string, t: string)
    requires t in Split(s, Space())
    ensures Contains(s, t)
    decreases |s|
  {
    var n := RunLength(s, Space());
    var k := if s[0] == ' ' then 1 else n;
    assert s == s[..k] + s[k..] + [] && s == [] + s[..k] + s[k..];
    if s[0] != ' ' && t == s[..n] {
      ContainsPart([], t, s[k..]);
    } else {
      SplitInside(s[k..], t);
      ContainsPart(s[..k], s[k..], []);
      ContainsTrans(s, s[k..], t);
    }
  }

  /** A text without filter words is only split by the filter. */
  lemma {:induction false} FilteredClean(pieces: seq<string>, words: seq<string>)
    requires Proper(words) && forall w :: w in words ==> !Contains(Flatten(pieces), w)
    ensures FilteredAll(pieces, words) == Render(SplitAll(pieces))
    ensures forall t :: t in SplitAll(pieces) ==> IsWord(t, Space())
  {
    if pieces != [] {
      var p, rest := pieces[0], pieces[1..];
      var shown := Split(p, Space());
      SplitWords(p, Space());
      assert p + Flatten(rest) + [] == Flatten(pieces) && [] + p + Flatten(rest) == Flatten(pieces);
      forall t, w | t in shown && w in words
        ensures !Contains(t, w)
      {
        if Contains(t, w) {
          SplitInside(p, t);
          ContainsTrans(p, t, w);
          ContainsPart([], p, Flatten(rest));
          ContainsTrans(Flatten(pieces), p, w);
        }
      }
      forall w | w in words
        ensures !Contains(Flatten(rest), w)
      {
        if Contains(Flatten(rest), w) {
          ContainsPart(p, Flatten(rest), []);
          ContainsTrans(Flatten(pieces), Flatten(rest), w);
        }
      }
      ShownAllOfClean(shown, words);
      FilteredClean(rest, words);
      RenderConcat(shown, SplitAll(rest));
    }
  }

  /**
   The output of the program, given to it as input in any pieces, is reproduced exactly when no cut between
   two pieces goes through a word.
   */
  lemma RefilteringExactlyWhen(lines: seq<string>, pieces: seq<string>, words: seq<string>)
    requires Proper(words) && NoneEmpty(pieces)
    requires Flatten(pieces) == FilteredAll(lines, words)
    ensures FilteredAll(pieces, words) == FilteredAll(lines, words) <==> !CutsWord(pieces)
  {
    var shown := FilteredAllClean(lines, words);
    SplitOfRender(shown);
    forall w | w in words ensures !Contains(Flatten(pieces), w) { NoFilterWordSurvives(lines, words, w); }
    FilteredClean(pieces, words);
    SplitAllOfPieces(pieces);
    SplitOfRender(SplitAll(pieces));
  }

  /** A newline is always followed by a space. */
  predicate SpaceAfterNewline(text: string)
  {
    forall i :: 0 <= i < |text| && text[i] == '\n' ==> i + 1 < |text| && text[i + 1] == ' '
  }

  lemma {:induction false} RenderSpaces(shown: seq<string>)
    requires forall s :: s in shown ==> EndsOnly(s, '\n')
    ensures SpaceAfterNewline(Render(shown))
  {
    if shown != [] {
      RenderSpaces(shown[1..]);
      var s, rest := shown[0], Render(shown[1..]);
      assert EndsOnly(s, '\n');
      assert Render(shown) == s + " " + rest;
      assert forall i :: |s| + 1 <= i < |s| + 1 + |rest| ==> Render(shown)[i] == rest[i - |s| - 1];
    }
  }

  lemma {:induction false} SplitEndsOnly(line: string, c: char)
    requires EndsOnly(line, c)
    ensures forall t :: t in Split(line, Space()) ==> EndsOnly(t, c)
    decreases |line|
  {
    if line != [] {
      var k := if line[0] == ' ' then 1 else RunLength(line, Space());
      SplitEndsOnly(line[k..], c);
    }
  }

  lemma {:induction false} ShownEndsOnly(tokens: seq<string>, words: seq<string>)
    requires forall t :: t in tokens ==> EndsOnly(t, '\n')
    ensures forall s :: s in ShownAll(tokens, words) ==> EndsOnly(s, '\n')
  {
    if tokens != [] {
      RowsEndOnly(tokens[0], words);
      ShownEndsOnly(tokens[1..], words);
    }
  }

  lemma {:induction false} RowsEndOnly(token: string, words: seq<string>)
    ensures forall s :: s in Rows(token, words) ==> EndsOnly(s, '\n')
  {
    if words != [] {
      RowOfX(|words[0]|);
      RowsEndOnly(token, words[1..]);
    }
  }

  lemma {:induction false} OutputSpaces(lines: seq<string>, words: seq<string>)
    requires forall l :: l in lines ==> EndsOnly(l, '\n')
    ensures SpaceAfterNewline(FilteredAll(lines, words))
  {
    if lines != [] {
      SplitEndsOnly(lines[0], '\n');
      ShownEndsOnly(Split(lines[0], Space()), words);
      RenderSpaces(ShownAll(Split(lines[0], Space()), words));
      OutputSpaces(lines[1..], words);
      var a, b := Filtered(lines[0], words), FilteredAll(lines[1..], words);
      assert forall i :: |a| <= i < |a| + |b| ==> (a + b)[i] == b[i - |a|];
    }
  }

  /** No line of the text is longer than the buffer: only the end of the text ends a piece without a newline. */
  predicate LinesFit(text: string, size: nat)
    requires size > 1
  {
    var pieces := Pieces(text, size);
    forall i :: 0 <= i < |pieces| - 1 ==> EndsInNewline(pieces[i])
  }

  lemma {:induction false} AfterPieces(pieces: seq<string>, i: nat) returns (k: nat)
    requires 0 < i < |pieces| && NoneEmpty(pieces)
    ensures 0 < k < |Flatten(pieces)|
    ensures Flatten(pieces)[k - 1] == pieces[i - 1][|pieces[i - 1]| - 1] && Flatten(pieces)[k] == pieces[i][0]
  {
    var p, rest := pieces[0], pieces[1..];
    assert rest[0] != [] && Flatten(rest)[0] == rest[0][0];
    if i == 1 {
      k := |p|;
    } else {
      k := AfterPieces(rest, i - 1);
      k := k + |p|;
    }
  }

  /** The whole program run on its own output reproduces it, provided the output has no line too long for the buffer. */
  lemma {:induction false} ProgramTwice(input: string, size: nat, words: seq<string>)
    requires size > 1 && Proper(words)
    ensures var output := FilteredAll(Pieces(input, size), words);
            LinesFit(output, size) ==> FilteredAll(Pieces(output, size), words) == output
  {
    var output := FilteredAll(Pieces(input, size), words);
    var pieces := Pieces(output, size);
    PiecesAre(input, size);
    PiecesAre(output, size);
    OutputSpaces(Pieces(input, size), words);
    RefilteringExactlyWhen(Pieces(input, size), pieces, words);
    if LinesFit(output, size) {
      forall i | 0 < i < |pieces|
        ensures !Cuts(pieces[i - 1], pieces[i], Space())
      {
        var k := AfterPieces(pieces, i);
      }
    }
  }

  lemma {:induction false} FgetsFull(text: string, size: nat)
    requires size > 1 && |text| >= size - 1 && '\n' !in text[..size - 1]
    ensures FgetsLength(text, size) == size - 1
  {
    assert text[0] in text[..size - 1];
    if size > 2 {
      assert text[..size - 1] == [text[0]] + text[1..][..size - 2];
      FgetsFull(text[1..], size - 1);
    }
  }

  lemma FirstPiece(head: string, tail: string, size: nat)
    requires size > 1 && |head| == size - 1 && '\n' !in head
    ensures Pieces(head + tail, size) == [head] + Pieces(tail, size)
  {
    var text := head + tail;
    assert text[..size - 1] == head && text[size - 1..] == tail;
    FgetsFull(text, size);
  }

  lemma RowFiltered(n: nat, words: seq<string>)
    requires Proper(words) && n > 0
    ensures Filtered(Row(n), words) == Row(n) + " "
  {
    RowOfX(n);
    RowClean(n, words);
    assert Row(n) in [Row(n)];
    WordThenPiece(Row(n), [], Space());
    ShownAllOfClean([Row(n)], words);
    RenderOne(Row(n));
  }

  lemma FirstCharacter(text: string, size: nat)
    requires size > 1 && text != []
    ensures Pieces(text, size) != [] && Pieces(text, size)[0] != [] && Pieces(text, size)[0][0] == text[0]
  {
  }

  /** Two words of the greatest length a piece can have: the space between them moves the second across a cut. */
  lemma FullWordsAreCut(row: string, size: nat)
    requires size > 2 && |row| == size - 1 && '\n' !in row && ' ' !in row
    ensures CutsWord(Pieces(row + (" " + row + " "), size))
  {
    var second, third := " " + row[..size - 2], row[size - 2..] + " ";
    assert " " + row + " " == second + third;
    FirstPiece(row, second + third, size);
    FirstPiece(second, third, size);
    FirstCharacter(third, size);
    var pieces := Pieces(row + (second + third), size);
    assert pieces[1] == second && pieces[2] == Pieces(third, size)[0];
    assert row[size - 3] in row && row[size - 2] in row;
    assert Cuts(pieces[1], pieces[2], Space());
  }

  /** Without the proviso it can fail: a word of twice the buffer's length is cut once more by the second run. */
  lemma {:induction false} ProgramTwiceCanFail(size: nat, words: seq<string>) returns (input: string)
    requires size > 2 && Proper(words)
    ensures var output := FilteredAll(Pieces(input, size), words);
            FilteredAll(Pieces(output, size), words) != output
  {
    var row := Row(size - 1);
    RowOfX(size - 1);
    input := row + row;
    FirstPiece(row, row, size);
    FirstPiece(row, [], size);
    assert row + [] == row && Pieces(input, size) == [row, row];
    RowFiltered(size - 1, words);
    assert [row, row][1..] == [row] && FilteredAll([row], words) == row + " ";
    var output := FilteredAll([row, row], words);
    assert output == row + (" " + row + " ");
    FullWordsAreCut(row, size);
    PiecesAre(output, size);
    RefilteringExactlyWhen([row, row], Pieces(output, size), words);
  }

  // ---------- the program ----------

  class Filter {
    const filterwords: seq<string>
    var merker: int
    var stdout: string

    constructor (filterwords: seq<string>)
      ensures stdout == [] && this.filterwords == filterwords
    {
      this.filterwords := filterwords;
      merker := 0;
      stdout := [];
    }

    /** Past the spaces that lead a token of the text puffer[from..end]. */
    method SkipSpaces(puffer: array<char>, from: nat, ghost end: nat) returns (i: nat)
      requires from <= end < puffer.Length && puffer[end] == NUL && NUL !in puffer[from..end]
      ensures from <= i <= end && puffer[i] != ' ' && (puffer[i] == NUL <==> i == end)
      ensures Split(puffer[i..end], Space()) == Split(puffer[from..end], Space())
    {
      assert forall k :: from <= k < end ==> puffer[k] == puffer[from..end][k - from];
      i := from;
      while puffer[i] == ' '
        invariant from <= i <= end
        invariant Split(puffer[i..end], Space()) == Split(puffer[from..end], Space())
        decreases end - i
      {
        assert puffer[i..end][1..] == puffer[i + 1..end];
        i := i + 1;
      }
    }

    /** To the end of the token at p. */
    method EndOfToken(puffer: array<char>, p: nat, ghost end: nat) returns (i: nat)
      requires p < end < puffer.Length && puffer[end] == NUL && NUL !in puffer[p..end] && puffer[p] != ' '
      ensures p < i <= end && (i < end ==> puffer[i] == ' ')
      ensures Split(puffer[p..end], Space()) == [puffer[p..i]] + Split(puffer[i..end], Space())
    {
      assert forall k :: p <= k < end ==> puffer[k] == puffer[p..end][k - p];
      i := p + 1;
      while puffer[i] != ' ' && puffer[i] != NUL
        invariant p < i <= end
        invariant forall k :: p <= k < i ==> puffer[k] != ' '
        decreases end - i
      {
        i := i + 1;
      }
      assert puffer[p..end][..i - p] == puffer[p..i] && puffer[p..end][i - p..] == puffer[i..end];
      TakeToken(puffer[p..end], i - p);
    }

    /** Overwrites the space behind the token puffer[p..i], if there is one, and steps over it. */
    method CutToken(puffer: array<char>, p: nat, i: nat, ghost end: nat) returns (next: nat)
      requires p < i <= end < puffer.Length && puffer[end] == NUL && NUL !in puffer[p..end]
      requires i < end ==> puffer[i] == ' '
      modifies puffer
      ensures i <= next <= end && puffer[end] == NUL && NUL !in puffer[next..end]
      ensures Text(puffer[p..]) == old(puffer[p..i])
      ensures Split(puffer[next..end], Space()) == Split(old(puffer[i..end]), Space())
    {
      ghost var rest := puffer[i..end];
      assert puffer[p..end] == puffer[p..i] + rest;
      next := i;
      if puffer[i] == ' ' {
        assert rest[1..] == puffer[i + 1..end];
        puffer[i] := NUL;
        next := i + 1;
        assert puffer[next..end] == rest[1..];
      }
      assert puffer[p..][..i - p] == old(puffer[p..i]) && puffer[p..][i - p] == NUL;
      TextIs(puffer[p..], i - p);
    }

    /**
     `strtok`: the position of the next token of the text puffer[from..end], or -1 if there is none. The
     space behind the token is overwritten with NUL, and `next` is where the following call goes on.
     */
    method StrTok(puffer: array<char>, from: nat, ghost end: nat) returns (p: int, next: nat)
      requires from <= end < puffer.Length && puffer[end] == NUL && NUL !in puffer[from..end]
      modifies puffer
      ensures puffer[end] == NUL && next <= end && NUL !in puffer[next..end]
      ensures Split(old(puffer[from..end]), Space()) == [] <==> p == -1
      ensures p != -1 ==>
                && from <= p < puffer.Length
                && [Text(puffer[p..])] + Split(puffer[next..end], Space()) == Split(old(puffer[from..end]), Space())
    {
      var i := SkipSpaces(puffer, from, end);
      assert puffer[i..end] == puffer[from..end][i - from..];
      if puffer[i] == NUL {
        assert puffer[i..end] == [];
        return -1, i;
      }
      p := i;
      i := EndOfToken(puffer, p, end);
      next := CutToken(puffer, p, i, end);
    }

    /** The loop over the filter words for one token, with the flag `merker`. */
    method Show(token: string)
      modifies this
      ensures stdout == old(stdout) + Render(Shown(token, filterwords))
    {
      merker := 0;
      var i := 0;
      ghost var rows: seq<string> := [];
      while i < |filterwords|
        invariant 0 <= i <= |filterwords|
        invariant rows == Rows(token, filterwords[..i])
        invariant stdout == old(stdout) + Render(rows)
        invariant merker == 0 <==> rows == []
      {
        RowsStep(token, filterwords, i);
        if Contains(token, filterwords[i]) {
          ghost var row := Row(|filterwords[i]|);
          RenderConcat(rows, [row]);
          RenderOne(row);
          ConcatAssoc(stdout, row, " ");
          ConcatAssoc(old(stdout), Render(rows), row + " ");
          stdout := stdout + Row(|filterwords[i]|) + " ";
          merker := 1;
          rows := rows + [row];
        }
        i := i + 1;
      }
      assert filterwords[..i] == filterwords;
      if merker == 0 {
        RenderOne(token);
        ConcatAssoc(stdout, token, " ");
        stdout := stdout + token + " ";
      }
    }

    /** `output` */
    method Output(puffer: array<char>)
      requires NUL in puffer[..]
      modifies this, puffer
      ensures stdout == old(stdout) + Filtered(Text(old(puffer[..])), filterwords)
    {
      ghost var end := StrLen(puffer[..]);
      ghost var line := puffer[..end];
      ghost var tokens, done := Split(line, Space()), "";
      assert puffer[0..end] == line;
      var p, next := StrTok(puffer, 0, end);
      while p != -1
        invariant 0 <= next <= end < puffer.Length && puffer[end] == NUL && NUL !in puffer[next..end]
        invariant -1 <= p < puffer.Length && (tokens == [] <==> p == -1)
        invariant p != -1 ==> tokens == [Text(puffer[p..])] + Split(puffer[next..end], Space())
        invariant stdout == old(stdout) + done
        invariant Progress(line, done, tokens, filterwords)
        decreases |tokens|
      {
        ProgressStep(line, done, tokens, filterwords);
        var token := Text(puffer[p..]);
        ghost var rest := Split(puffer[next..end], Space());
        assert tokens[0] == token && tokens[1..] == rest;
        Show(token);
        ConcatAssoc(old(stdout), done, Render(Shown(token, filterwords)));
        done := done + Render(Shown(token, filterwords));
        tokens := rest;
        p, next := StrTok(puffer, next, end);
      }
      ProgressDone(line, done, filterwords);
    }

    /** `main`: one call of `output` for every line that `fgets` delivers. */
    method Run(lines: seq<string>)
      requires stdout == [] && forall l :: l in lines ==> NUL !in l
      modifies this
      ensures stdout == FilteredAll(lines, filterwords)
    {
      for i := 0 to |lines|
        invariant stdout == FilteredAll(lines[..i], filterwords)
      {
        FilteredAllStep(lines, filterwords, i);
        var puffer := Fgets(lines[i]);
        Output(puffer);
      }
      assert lines[..|lines|] == lines;
    }

    /** A line as `fgets` leaves it in memory. */
    method Fgets(line: string) returns (puffer: array<char>)
      requires NUL !in line
      ensures fresh(puffer) && NUL in puffer[..] && Text(puffer[..]) == line
    {
      var n := |line|;
      puffer := new char[n + 1](k requires 0 <= k <= n => if k < n then line[k] else NUL);
      assert puffer[..][n] == NUL && puffer[..][..n] == line;
      TextIs(puffer[..], n);
    }
  }

  /** With `done` printed, these tokens of the line are left. */
  ghost predicate Progress(line: string, done: string, tokens: seq<string>, words: seq<string>)
  {
    done + Render(ShownAll(tokens, words)) == Filtered(line, words)
  }

  lemma ProgressStep(line: string, done: string, tokens: seq<string>, words: seq<string>)
    requires tokens != [] && Progress(line, done, tokens, words)
    ensures Progress(line, done + Render(Shown(tokens[0], words)), tokens[1..], words)
  {
    RenderTokens(tokens, words);
    var a, b := Render(Shown(tokens[0], words)), Render(ShownAll(tokens[1..], words));
    assert done + (a + b) == (done + a) + b;
  }

  lemma ProgressDone(line: string, done: string, words: seq<string>)
    requires Progress(line, done, [], words)
    ensures done == Filtered(line, words)
  {
    assert done + [] == done;
  }

  lemma RenderTokens(tokens: seq<string>, words: seq<string>)
    requires tokens != []
    ensures Render(ShownAll(tokens, words)) == Render(Shown(tokens[0], words)) + Render(ShownAll(tokens[1..], words))
  {
    RenderConcat(Shown(tokens[0], words), ShownAll(tokens[1..], words));
  }

  lemma {:induction false} FilteredAllStep(lines: seq<string>, words: seq<string>, i: nat)
    requires i < |lines|
    ensures FilteredAll(lines[..i + 1], words) == FilteredAll(lines[..i], words) + Filtered(lines[i], words)
  {
    if i == 0 {
      assert lines[..1][1..] == [];
    } else {
      assert lines[..i + 1][1..] == lines[1..][..i] && lines[..i][1..] == lines[1..][..i - 1];
      FilteredAllStep(lines[1..], words, i - 1);
    }
  }

  lemma {:induction false} RowsStep(token: string, words: seq<string>, i: nat)
    requires i < |words|
    ensures Rows(token, words[..i + 1]) ==
              Rows(token, words[..i]) + if Contains(token, words[i]) then [Row(|words[i]|)] else []
  {
    if i > 0 {
      assert words[..i + 1][1..] == words[1..][..i] && words[..i][1..] == words[1..][..i - 1];
      RowsStep(token, words[1..], i - 1);
    }
  }

  /** A run of n characters that are not spaces, with a space or the end behind it, is the first token. */
  lemma {:induction false} TakeToken(s: string, n: nat)
    requires 0 < n <= |s| && (forall k :: 0 <= k < n ==> s[k] != ' ') && (n < |s| ==> s[n] == ' ')
    ensures Split(s, Space()) == [s[..n]] + Split(s[n..], Space())
  {
    assert s == s[..n] + s[n..];
    assert IsWord(s[..n], Space());
    SplitTakesWord(s[..n], s[n..], Space());
  }

  /** The whole program with its list of filter words. */
  method FilterProgram(input: string) returns (stdout: string)
    requires NUL !in input
    ensures stdout == FilteredAll(Pieces(input, MAX), FILTERWORDS)
    ensures forall w :: w in FILTERWORDS ==> !Contains(stdout, w)
    ensures !Contains(stdout, "undo") && !Contains(stdout, "oder") && !Contains(stdout, "aber") && !Contains(stdout, "ein")
  {
    var filter := new Filter(FILTERWORDS);
    var lines := Pieces(input, MAX);
    PiecesAre(input, MAX);
    filter.Run(lines);
    stdout := filter.stdout;
    FilterwordsProper();
    forall w | w in FILTERWORDS
      ensures !Contains(stdout, w)
    {
      NoFilterWordSurvives(lines, FILTERWORDS, w);
    }
    FourFilterwords();
  }
}
