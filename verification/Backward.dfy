/** `bwread` of `backward.c`: a file read from its end, with its last newline printed last. */
module Backward {

  // ---------- what is printed ----------

  function Reverse(s: string): string
  {
    if s == [] then [] else Reverse(s[1..]) + [s[0]]
  }

  /** s without its last newline. */
  function Strip(s: string): string
  {
    if s == [] then []
    else if s[0] == '\n' && '\n' !in s[1..] then s[1..]
    else [s[0]] + Strip(s[1..])
  }

  function Printed(s: string): string
  {
    if '\n' in s then Reverse(Strip(s)) + "\n" else Reverse(s)
  }

  lemma {:induction false} StripNothing(s: string)
    requires '\n' !in s
    ensures Strip(s) == s
  {
    if s != [] {
      StripNothing(s[1..]);
    }
  }

  lemma {:induction false} StripLast(u: string, v: string)
    requires '\n' !in v
    ensures Strip(u + "\n" + v) == u + v
  {
    var s := u + "\n" + v;
    if u == [] {
      assert s[1..] == v;
    } else {
      var tail := u[1..] + "\n" + v;
      assert s[1..] == tail && tail[|u| - 1] == '\n';
      StripLast(u[1..], v);
      assert [u[0]] + (u[1..] + v) == u + v;
    }
  }

  lemma {:induction false} ReverseConcat(a: string, b: string)
    ensures Reverse(a + b) == Reverse(b) + Reverse(a)
  {
    if a == [] {
      assert a + b == b;
    } else {
      assert (a + b)[1..] == a[1..] + b;
      ReverseConcat(a[1..], b);
    }
  }

  lemma {:induction false} ReverseTwice(s: string)
    ensures Reverse(Reverse(s)) == s
  {
    if s != [] {
      ReverseTwice(s[1..]);
      ReverseConcat(Reverse(s[1..]), [s[0]]);
    }
  }

  lemma {:induction false} ReversePermutes(s: string)
    ensures multiset(Reverse(s)) == multiset(s)
  {
    if s != [] {
      ReversePermutes(s[1..]);
      assert s == [s[0]] + s[1..];
    }
  }

  lemma {:induction false} StripPermutes(s: string)
    requires '\n' in s
    ensures multiset(Strip(s)) + multiset{'\n'} == multiset(s)
  {
    assert s == [s[0]] + s[1..];
    if '\n' in s[1..] {
      StripPermutes(s[1..]);
    }
  }

  /** Every byte of the file is printed exactly once. */
  lemma PrintedPermutes(s: string)
    ensures multiset(Printed(s)) == multiset(s)
  {
    if '\n' in s {
      ReversePermutes(Strip(s));
      StripPermutes(s);
    } else {
      ReversePermutes(s);
    }
  }

  /** The text around the last newline is reversed as one, and the newline goes to the end. */
  lemma {:induction false} PrintedIs(u: string, v: string)
    requires '\n' !in v
    ensures Printed(v) == Reverse(v)
    ensures Printed(u + "\n" + v) == Reverse(v) + Reverse(u) + "\n"
  {
    var s := u + "\n" + v;
    assert s[|u|] == '\n';
    StripLast(u, v);
    ReverseConcat(u, v);
  }

  lemma {:induction false} PrintedTerminated(w: string)
    ensures Printed(w + "\n") == Reverse(w) + "\n"
  {
    PrintedIs(w, []);
    assert w + "\n" + [] == w + "\n" && Reverse([]) + Reverse(w) == Reverse(w);
  }

  lemma {:induction false} ReverseMembers(s: string, c: char)
    ensures c in Reverse(s) <==> c in s
  {
    if s != [] {
      ReverseMembers(s[1..], c);
      assert s == [s[0]] + s[1..];
    }
  }

  lemma {:induction false} PrintedTwiceIs(s: string)
    ensures '\n' in s ==> Printed(Printed(s)) == Strip(s) + "\n" && Printed(Strip(s) + "\n") == Printed(s)
    ensures '\n' !in s ==> Printed(Printed(s)) == s
  {
    if '\n' in s {
      PrintedTerminated(Reverse(Strip(s)));
      PrintedTerminated(Strip(s));
      ReverseTwice(Strip(s));
    } else {
      ReverseMembers(s, '\n');
      ReverseTwice(s);
    }
  }

  /** Two passes give the file back exactly when it has no newline or ends with one. */
  lemma TwiceIsIdentityExactlyWhen(s: string)
    ensures Printed(Printed(s)) == s <==> '\n' !in s || s[|s| - 1] == '\n'
  {
    PrintedTwiceIs(s);
    if '\n' in s && s[|s| - 1] == '\n' {
      var u := s[..|s| - 1];
      assert s == u + "\n" + [];
      StripLast(u, []);
    }
  }

  /** From the second pass on nothing new appears: three passes print what one does. */
  lemma ThriceIsOnce(s: string)
    ensures Printed(Printed(Printed(s))) == Printed(s)
  {
    PrintedTwiceIs(s);
  }

  // ---------- the loop ----------

  /** The bytes from k on have been read: what has been printed, and whether a newline is kept back. */
  predicate Collected(s: string, k: nat, printed: string, nl: bool)
  {
    k <= |s| && printed == Reverse(Strip(s[k..])) && (nl <==> '\n' in s[k..])
  }

  lemma CollectStep(s: string, k: nat, printed: string, nl: bool)
    requires k < |s| && Collected(s, k + 1, printed, nl)
    ensures if s[k] == '\n' && !nl then Collected(s, k, printed, true)
            else Collected(s, k, printed + [s[k]], nl)
  {
    var rest := s[k + 1..];
    assert s[k..] == [s[k]] + rest && s[k..][1..] == rest;
    if !nl {
      StripNothing(rest);
    }
    assert ([s[k]] + Strip(rest))[1..] == Strip(rest);
  }

  /** Printing the newline that was kept back, if any, completes what the bytes from k on print. */
  lemma CollectDone(s: string, k: nat, printed: string, nl: bool)
    requires Collected(s, k, printed, nl)
    ensures Printed(s[k..]) == if nl then printed + "\n" else printed
  {
    if !nl {
      StripNothing(s[k..]);
    }
  }

  datatype Whence = SeekEnd | SeekCur

  class File {
    const content: string
    var pos: nat
    ghost var failed: bool   // some read has returned -1

    constructor (content: string)
      ensures this.content == content && pos == 0 && !failed
    {
      this.content := content;
      pos := 0;
      failed := false;
    }

    /** `lseek` fails without effect when the position would become negative. */
    method LSeek(offset: int, whence: Whence) returns (r: int)
      modifies this`pos
      ensures var target := offset + if whence == SeekEnd then |content| else old(pos);
              if target < 0 then r == -1 && pos == old(pos) else r == pos == target
    {
      var target := offset + if whence == SeekEnd then |content| else pos;
      if target < 0 {
        return -1;
      }
      pos := target;
      return target;
    }

    /** `read` of one byte: 1 with the byte, 0 at the end of the file, or -1. */
    method ReadByte() returns (rv: int, ch: char)
      modifies this
      ensures rv == 1 || rv == 0 || rv == -1
      ensures failed == (old(failed) || rv == -1)
      ensures rv == 1 ==> old(pos) < |content| && ch == content[old(pos)] && pos == old(pos) + 1
      ensures rv != 1 ==> pos == old(pos)
      ensures rv == 0 ==> old(pos) >= |content|
    {
      ch := '\0';
      if * {
        rv := -1;
        failed := true;
      } else if pos < |content| {
        ch := content[pos];
        pos := pos + 1;
        rv := 1;
      } else {
        rv := 0;
      }
    }

    /**
     `bwread`; `rv` is the result of its last read, by which the program tells what it reports. If no read
     fails all of the file is printed; otherwise it is the part behind the byte that could not be read.
     */
    method BwRead() returns (stdout: string, rv: int)
      requires pos == 0 && !failed
      modifies this
      ensures rv == if failed then -1 else if content == [] then 0 else 1
      ensures !failed ==> stdout == Printed(content)
      ensures failed ==> exists k :: 0 <= k <= |content| && (k == 0 ==> content == []) && stdout == Printed(content[k..])
    {
      stdout := [];
      var nl := 0;
      var sought := LSeek(-1, SeekEnd);
      var ch;
      rv, ch := ReadByte();
      ghost var k := |content|;
      while rv == 1
        invariant rv == 1 ==> 0 < k <= |content| && pos == k && ch == content[k - 1]
        invariant (rv == 1 && content != [] && !failed) || (rv == -1 && failed) || (rv == 0 && content == [] && !failed)
        invariant k == 0 ==> content == []
        invariant nl >= 0 && 0 <= k && Collected(content, k, stdout, nl > 0)
        decreases if rv == 1 then k else 0
      {
        CollectStep(content, k - 1, stdout, nl > 0);
        if ch == '\n' && nl == 0 {
          nl := nl + 1;
        } else {
          stdout := stdout + [ch];
        }
        k := k - 1;
        sought := LSeek(-2, SeekCur);
        if sought < 0 {
          break;
        }
        rv, ch := ReadByte();
      }
      CollectDone(content, k, stdout, nl > 0);
      if nl > 0 {
        stdout := stdout + "\n";
      }
      assert stdout == Printed(content[k..]);
      assert k == 0 ==> content[k..] == content;
    }
  }
}
