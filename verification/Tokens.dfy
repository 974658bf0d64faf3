/** `GetToken` of `http_server.c`: the n-th token of a buffer, copied into a bounded array. */
module Tokens {
  import opened Splitting
  import opened CStrings
  import opened Sequences

  predicate Separator(c: char, delim: char)
  {
    c == delim || c == ' ' || c == NUL || c == '\t' || c == '\r' || c == '\n'
  }

  /** The separators of a call with this delimiter. */
  function Sep(delim: char): char -> bool
  {
    c => Separator(c, delim)
  }

  // ---------- the loop ----------

  /** Some token among the first n does not fit. */
  predicate TooLong(words: seq<string>, n: nat, toklen: int)
    requires n <= |words|
  {
    exists k :: 0 <= k < n && |words[k]| >= toklen
  }

  /** The memory holds the word with its terminator. */
  predicate Stored(memory: string, len: int, word: string)
  {
    len == |word| < |memory| && memory[..len] == word && memory[len] == NUL
  }

  lemma TooLongStep(words: seq<string>, k: nat, n: nat, toklen: int)
    requires k < n <= |words|
    ensures TooLong(words, k + 1, toklen) <==> TooLong(words, k, toklen) || |words[k]| >= toklen
    ensures TooLong(words, k + 1, toklen) ==> TooLong(words, n, toklen)
  {
  }

  lemma {:induction false} RunEnds(buf: string, start: nat, delim: char)
    requires start < |buf| && buf[|buf| - 1] == NUL
    ensures var n := RunLength(buf[start..], Sep(delim));
            && start + n < |buf| && Separator(buf[start + n], delim)
            && forall i :: start <= i < start + n ==> !Separator(buf[i], delim)
    decreases |buf| - start
  {
    assert buf[start..][1..] == buf[start + 1..];
    if !Separator(buf[start], delim) {
      RunEnds(buf, start + 1, delim);
    }
  }

  /** The token that begins at i is the k-th of all words if those from k on are left. */
  lemma NextToken(buf: string, i: nat, delim: char, words: seq<string>, k: nat)
    requires i < |buf| && !Separator(buf[i], delim) && k <= |words| && words[k..] == Split(buf[i..], Sep(delim))
    ensures var n := RunLength(buf[i..], Sep(delim));
            && k < |words| && i + n <= |buf| && |words[k]| == n && words[k] == buf[i..i + n]
            && words[k + 1..] == Split(buf[i + n..], Sep(delim))
  {
    var n := RunLength(buf[i..], Sep(delim));
    assert buf[i..][..n] == buf[i..i + n] && buf[i..][n..] == buf[i + n..];
    assert words[k..][1..] == words[k + 1..];
  }

  /** The skip loop: past the separators to the next token. */
  method SkipGap(buf: string, start: nat, delim: char) returns (i: nat)
    requires start <= |buf| && Split(buf[start..], Sep(delim)) != []
    ensures start <= i < |buf| && !Separator(buf[i], delim)
    ensures Split(buf[i..], Sep(delim)) == Split(buf[start..], Sep(delim))
  {
    i := start;
    while Separator(buf[i], delim)
      invariant start <= i < |buf|
      invariant Split(buf[i..], Sep(delim)) == Split(buf[start..], Sep(delim))
      decreases |buf| - i
    {
      assert buf[i..][1..] == buf[i + 1..];
      i := i + 1;
    }
  }

  /** All stores for the first n words stay inside a memory of `room` characters. */
  predicate Inside(words: seq<string>, n: nat, toklen: int, room: nat)
    requires n <= |words|
  {
    room >= 1 && (toklen <= room || forall k :: 0 <= k < n ==> |words[k]| < room)
  }

  /**
   The copy loop: the token at `start` with its terminator, or -1 as soon as `toklen` characters are stored.
   It stops with `inside` false before a store outside of `token`.
   */
  method CopyRun(buf: string, start: nat, token: array<char>, toklen: int, delim: char)
    returns (len: int, i: nat, inside: bool)
    requires start < |buf| && buf[|buf| - 1] == NUL && !Separator(buf[start], delim)
    requires token.Length >= 1
    modifies token
    ensures inside <==> toklen <= token.Length || RunLength(buf[start..], Sep(delim)) < token.Length
    ensures inside ==> (len == -1 <==> RunLength(buf[start..], Sep(delim)) >= toklen)
    ensures inside && len != -1 ==>
              && len == RunLength(buf[start..], Sep(delim)) && i == start + len < |buf|
              && Stored(token[..], len, buf[start..i])
  {
    ghost var n := RunLength(buf[start..], Sep(delim));
    RunEnds(buf, start, delim);
    i := start;
    len := 0;
    while !Separator(buf[i], delim)
      invariant start <= i <= start + n < |buf|
      invariant len == i - start <= token.Length
      invariant token[..len] == buf[start..i]
      invariant len < toklen || len == 0
      decreases |buf| - i
    {
      if len == token.Length {
        return -1, i, false;
      }
      token[len] := buf[i];
      len := len + 1;
      i := i + 1;
      if len > toklen - 1 {
        return -1, i, true;
      }
    }
    if len == token.Length {
      return -1, i, false;
    }
    token[len] := NUL;
    inside := true;
  }

  /** The first k of all words have been copied, the last of them is stored, and no store was outside. */
  ghost predicate Copied(words: seq<string>, k: nat, memory: string, len: int, toklen: int)
    requires k <= |words|
  {
    && !TooLong(words, k, toklen) && Inside(words, k, toklen, |memory|)
    && (k > 0 ==> Stored(memory, len, words[k - 1]))
  }

  /** How the copy of the k-th word ends decides about the words up to it. */
  lemma CopyStep(words: seq<string>, k: nat, n: nat, toklen: int, room: nat)
    requires k < n <= |words| && !TooLong(words, k, toklen) && Inside(words, k, toklen, room)
    ensures !(toklen <= room || |words[k]| < room) ==> !Inside(words, n, toklen, room)
    ensures toklen <= room || |words[k]| < room ==>
              && Inside(words, k + 1, toklen, room)
              && (TooLong(words, k + 1, toklen) <==> |words[k]| >= toklen)
    ensures (toklen <= room || |words[k]| < room) && |words[k]| >= toklen ==>
              Inside(words, n, toklen, room) && TooLong(words, n, toklen)
  {
    TooLongStep(words, k, n, toklen);
  }

  /** One turn of the loop in `GetToken`: the k-th of all words, where those from k on are left behind `at`. */
  method CopyWord(buf: string, at: nat, token: array<char>, toklen: int, delim: char, ghost words: seq<string>, ghost k: nat)
    returns (len: int, i: nat, inside: bool)
    requires at <= |buf| && buf != [] && buf[|buf| - 1] == NUL && token.Length >= 1
    requires k < |words| && words[k..] == Split(buf[at..], Sep(delim))
    modifies token
    ensures inside <==> toklen <= token.Length || |words[k]| < token.Length
    ensures inside ==> (len == -1 <==> |words[k]| >= toklen)
    ensures inside && len != -1 ==>
              && Stored(token[..], len, words[k])
              && i <= |buf| && words[k + 1..] == Split(buf[i..], Sep(delim))
  {
    token[0] := NUL;
    i := SkipGap(buf, at, delim);
    NextToken(buf, i, delim, words, k);
    len, i, inside := CopyRun(buf, i, token, toklen, delim);
  }

  /**
   The n-th token of `buf`, which is terminated by NUL. The skip loop takes NUL for a separator as well, so
   the caller has to know that there are n tokens. `inside` says that `token` is big enough for the call;
   otherwise the model stops before the first store outside of it.
   */
  method GetToken(buf: string, n: nat, token: array<char>, toklen: int, delim: char) returns (len: int, inside: bool)
    requires buf != [] && buf[|buf| - 1] == NUL
    requires 1 <= n <= |Split(buf, Sep(delim))|
    modifies token
    ensures inside <==> Inside(Split(buf, Sep(delim)), n, toklen, token.Length)
    ensures inside ==> (len == -1 <==> TooLong(Split(buf, Sep(delim)), n, toklen))
    ensures inside && len != -1 ==> Stored(token[..], len, Split(buf, Sep(delim))[n - 1])
  {
    ghost var words := Split(buf, Sep(delim));
    var i := 0;
    var k := 0;
    len := 0;
    if token.Length == 0 {
      return -1, false;
    }
    assert buf[0..] == buf && words[0..] == words;
    while k < n
      invariant 0 <= k <= n && 0 <= i <= |buf|
      invariant words[k..] == Split(buf[i..], Sep(delim))
      invariant Copied(words, k, token[..], len, toklen)
    {
      CopyStep(words, k, n, toklen, token.Length);
      len, i, inside := CopyWord(buf, i, token, toklen, delim, words, k);
      if !inside || len == -1 {
        return;
      }
      k := k + 1;
    }
    inside := true;
  }

  // ---------- lines of words and blanks ----------

  /** The characters that separate tokens besides the delimiter of the call. */
  const BLANKS: string := [' ', '\t', '\r', '\n', '\0']

  predicate Blank(gap: string)
  {
    forall c :: c in gap ==> c in BLANKS
  }

  predicate Solid(word: string, delim: char)
  {
    word != [] && delim !in word && forall c :: c in word ==> c !in BLANKS
  }

  lemma BlanksSeparate(c: char, delim: char)
    ensures Separator(c, delim) <==> c in BLANKS || c == delim
  {
    assert BLANKS[0] == ' ' && BLANKS[1] == '\t' && BLANKS[2] == '\r' && BLANKS[3] == '\n' && BLANKS[4] == '\0';
  }

  /**
   The words of a line, whatever blanks are around them and whatever blanks or delimiters, at least one,
   between them.
   */
  lemma {:induction false} LineTokens(gaps: seq<string>, words: seq<string>, delim: char)
    requires |gaps| == |words| + 1 && forall i :: 0 < i < |words| ==> gaps[i] != []
    requires forall i, c :: 0 <= i < |gaps| && c in gaps[i] ==> c in BLANKS || c == delim
    requires forall i :: 0 <= i < |words| ==> Solid(words[i], delim)
    ensures Split(Join(gaps, words), Sep(delim)) == words
  {
    forall c: char
      ensures Sep(delim)(c) <==> c in BLANKS || c == delim
    {
      BlanksSeparate(c, delim);
    }
    forall i | 0 <= i < |gaps|
      ensures IsGap(gaps[i], Sep(delim))
    {
      forall c | c in gaps[i]
        ensures Sep(delim)(c)
      {
        assert c in BLANKS || c == delim;
      }
    }
    SplitOfJoin(gaps, words, Sep(delim));
  }

  // ---------- a request line ----------

  /** Section 3.1.1 of RFC 7230: method SP request-target SP HTTP-version CRLF. */
  function RequestLine(verb: string, target: string, version: string): string
  {
    verb + " " + target + " " + version + "\r\n"
  }

  /** Tokens 1 and 2 of a stored request line are its method and its target. */
  lemma RequestLineTokens(verb: string, target: string, version: string)
    requires IsWord(verb, Sep(NUL)) && IsWord(target, Sep(NUL)) && IsWord(version, Sep(NUL))
    ensures Split(RequestLine(verb, target, version) + [NUL], Sep(NUL)) == [verb, target, version]
  {
    var gaps := ["", " ", " ", "\r\n" + [NUL]];
    var words := [verb, target, version];
    assert Join(gaps[3..], words[3..]) == "\r\n" + [NUL];
    assert gaps[2..][1..] == gaps[3..] && words[2..][1..] == words[3..];
    assert Join(gaps[2..], words[2..]) == " " + version + ("\r\n" + [NUL]);
    assert gaps[1..][1..] == gaps[2..] && words[1..][1..] == words[2..];
    assert Join(gaps[1..], words[1..]) == " " + target + (" " + version + ("\r\n" + [NUL]));
    assert Join(gaps, words) == RequestLine(verb, target, version) + [NUL];
    SplitOfJoin(gaps, words, Sep(NUL));
  }

  /** The call for the target passes 1024 as the length of an array of 512: it is big enough exactly for words below that. */
  lemma TargetInsideExactlyWhen(verb: string, target: string, version: string)
    requires IsWord(verb, Sep(NUL)) && IsWord(target, Sep(NUL)) && IsWord(version, Sep(NUL))
    ensures var words := Split(RequestLine(verb, target, version) + [NUL], Sep(NUL));
            && |words| == 3 && (Inside(words, 2, 1024, 512) <==> |verb| < 512 && |target| < 512)
            && (verb == "GET" || verb == "get" ==> (Inside(words, 2, 1024, 512) <==> |target| < 512))
  {
    RequestLineTokens(verb, target, version);
    var words := [verb, target, version];
    assert Inside(words, 2, 1024, 512) ==> |words[0]| < 512 && |words[1]| < 512;
  }

  /** A header field as section 3.2 of RFC 7230 has it. */
  function HeaderField(name: string, value: string): string
  {
    name + ": " + value + "\r\n"
  }

  lemma NameIsWord(name: string)
    requires Solid(name, ':')
    ensures IsWord(name, Sep(':')) && Solid(name + ":", ' ')
  {
    assert BLANKS[0] == ' ';
    assert ':' !in BLANKS;
    forall c | c in name
      ensures !Sep(':')(c)
    {
      BlanksSeparate(c, ':');
    }
  }

  lemma JoinTwo(a: string, u: string, b: string, v: string, c: string)
    ensures Join([a, b, c], [u, v]) == a + u + (b + v + c)
  {
    assert [a, b, c][1..] == [b, c] && [u, v][1..] == [v];
    assert [b, c][1..] == [c] && [v][1..] == [];
    assert Join([c], []) == c;
    assert Join([b, c], [v]) == b + v + c;
  }

  /** A header field with any blanks, at least one, before its value and any behind it. */
  lemma HeaderFieldAnyBlanks(name: string, gap: string, value: string, tail: string)
    requires Solid(name, ':') && Solid(value, ' ') && gap != [] && Blank(gap) && Blank(tail)
    ensures var line := name + ":" + (gap + value + tail);
            && Split(line, Sep(':')) != [] && Split(line, Sep(':'))[0] == name
            && Split(line, Sep(' ')) == [name + ":", value]
  {
    var rest := gap + value + tail;
    ConcatAssoc(name, ":", rest);
    NameIsWord(name);
    assert (":" + rest)[0] == ':';
    SplitTakesWord(name, ":" + rest, Sep(':'));
    JoinTwo("", name + ":", gap, value, tail);
    assert "" + (name + ":") == name + ":";
    LineTokens(["", gap, tail], [name + ":", value], ' ');
  }

  lemma FieldNameToken(name: string, value: string)
    requires IsWord(name, Sep(':'))
    ensures var words := Split(HeaderField(name, value) + [NUL], Sep(':'));
            words != [] && words[0] == name
  {
    var rest := ": " + value + "\r\n" + [NUL];
    assert HeaderField(name, value) + [NUL] == name + rest;
    assert rest[0] == ':';
    SplitTakesWord(name, rest, Sep(':'));
  }

  lemma FieldValueToken(word: string, value: string)
    requires IsWord(word, Sep(' ')) && IsWord(value, Sep(' '))
    ensures Split(word + (" " + (value + ("\r\n" + [NUL]))), Sep(' ')) == [word, value]
  {
    var end := "\r\n" + [NUL];
    SplitSkipsGap(end, "", Sep(' '));
    assert end + "" == end;
    SplitTakesWord(value, end, Sep(' '));
    SplitSkipsGap(" ", value + end, Sep(' '));
    SplitTakesWord(word, " " + (value + end), Sep(' '));
  }

  /**
   The two calls for a header field: with delimiter ':' token 1 is the field name, and with delimiter ' '
   token 2 is the value, if both are free of blanks.
   */
  lemma HeaderFieldTokens(name: string, value: string)
    requires IsWord(name, Sep(':')) && IsWord(value, Sep(' '))
    ensures var line := HeaderField(name, value) + [NUL];
            && Split(line, Sep(':')) != [] && Split(line, Sep(':'))[0] == name
            && |Split(line, Sep(' '))| == 2 && Split(line, Sep(' '))[1] == value
  {
    FieldNameToken(name, value);
    FieldValueToken(name + ":", value);
    assert HeaderField(name, value) + [NUL] == (name + ":") + (" " + (value + ("\r\n" + [NUL])));
  }
}
