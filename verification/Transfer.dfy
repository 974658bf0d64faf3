/**
 File transfer between `client2.c` and `server2.c`: the client sends the last component of the path, a
 newline and the content; the server reads the name byte by byte and the content in chunks.
 */
module Transfer {
  import opened Sequences
  import opened Streams

  const MAX_ZEICHEN: nat := 1024

  // ---------- the header ----------

  /** What follows the last '/', as found with `strrchr`. */
  function AfterLastSlash(path: string): string
  {
    if path == [] then []
    else if path[|path| - 1] == '/' then []
    else AfterLastSlash(path[..|path| - 1]) + [path[|path| - 1]]
  }

  /** It is the suffix without '/' that the whole path or a '/' precedes. */
  lemma {:induction false} AfterLastSlashIs(dir: string, base: string)
    requires '/' !in base && (dir == [] || dir[|dir| - 1] == '/')
    ensures AfterLastSlash(dir + base) == base
  {
    var path := dir + base;
    if base == [] {
      assert path == dir;
    } else {
      assert path[..|path| - 1] == dir + base[..|base| - 1];
      AfterLastSlashIs(dir, base[..|base| - 1]);
    }
  }

  lemma AfterLastSlashAppend(path: string, c: char)
    requires c != '/'
    ensures AfterLastSlash(path + [c]) == AfterLastSlash(path) + [c]
  {
    assert (path + [c])[..|path|] == path;
  }

  /** The position of the first newline. */
  function FirstNewline(s: string): (k: nat)
    requires '\n' in s
    ensures k < |s| && s[k] == '\n' && '\n' !in s[..k]
  {
    if s[0] == '\n' then 0 else
      var k := FirstNewline(s[1..]);
      assert s[..k + 1] == [s[0]] + s[1..][..k];
      k + 1
  }

  lemma {:induction false} FirstNewlineIs(s: string, k: nat)
    requires k < |s| && s[k] == '\n' && '\n' !in s[..k]
    ensures FirstNewline(s) == k
  {
    if k > 0 {
      assert s[0] == s[..k][0] && s[1..][..k - 1] == s[..k][1..];
      FirstNewlineIs(s[1..], k - 1);
    }
  }

  // ---------- the client ----------

  /** What the client sends for a file. */
  function Stream(path: string, content: string): string
  {
    AfterLastSlash(path) + ("\n" + content)
  }

  lemma StreamStarts(path: string, content: string)
    ensures AfterLastSlash(path + "\n") == AfterLastSlash(path) + "\n"
    ensures Stream(path, content) == AfterLastSlash(path + "\n") + content
  {
    AfterLastSlashAppend(path, '\n');
    ConcatAssoc(AfterLastSlash(path), "\n", content);
  }

  /** The test `write(out, data, n) != n`, after which both programs give up. */
  method WriteWhole(out: Sink, data: string) returns (ok: bool)
    requires data != [] && !out.failed && !out.short
    modifies out
    ensures ok <==> !out.failed && !out.short
    ensures out.content <= old(out.content) + data
    ensures ok ==> out.content == old(out.content) + data
  {
    var written := out.Write(data);
    ok := written == |data|;
    if written >= 0 {
      ConcatAssoc(old(out.content), data[..written], data[written..]);
      SliceJoin(data, 0, written, |data|);
    }
  }

  /** The loop of both programs: the rest of `file` goes to `out` in chunks of up to a buffer; `total` is `ngesammt`. */
  method Forward(file: Source, out: Sink) returns (total: int, ok: bool)
    requires file.Valid() && !file.failed && !out.failed && !out.short
    modifies file, out
    ensures ok <==> !file.failed && !out.failed && !out.short
    ensures out.content <= old(out.content) + file.content[old(file.pos)..]
    ensures ok ==> out.content == old(out.content) + file.content[old(file.pos)..]
    ensures ok ==> total == |file.content| - old(file.pos)
  {
    ghost var start, at := file.pos, file.pos;
    total := 0;
    var puffer := new char[MAX_ZEICHEN];
    var n := file.Read(puffer, 0, MAX_ZEICHEN);
    assert file.content[start..start] == [];
    while n > 0
      invariant file.Valid() && fresh(puffer) && puffer.Length == MAX_ZEICHEN && n <= MAX_ZEICHEN
      invariant start <= at <= |file.content| && total == at - start && file.pos == at + if n > 0 then n else 0
      invariant n > 0 ==> puffer[0..n] == file.content[at..file.pos]
      invariant n == 0 ==> at == |file.content|
      invariant out.content == old(out.content) + file.content[start..at]
      invariant !out.failed && !out.short && (n < 0 <==> file.failed)
      decreases |file.content| - at
    {
      assert puffer[..n] == puffer[0..n];
      ChunkJoins(old(out.content), file.content, start, at, file.pos);
      ok := WriteWhole(out, puffer[..n]);
      if !ok {
        return;
      }
      total := total + n;
      at := file.pos;
      n := file.Read(puffer, 0, MAX_ZEICHEN);
    }
    ok := n == 0;
    ChunkJoins(old(out.content), file.content, start, at, at);
  }

  lemma ChunkJoins(before: string, content: string, start: nat, at: nat, pos: nat)
    requires start <= at <= pos <= |content|
    ensures before + content[start..at] + content[at..pos] == before + content[start..pos]
    ensures before + content[start..pos] <= before + content[start..]
  {
    ConcatAssoc(before, content[start..at], content[at..pos]);
    SliceJoin(content, start, at, pos);
  }

  /**
   The transfer of one file. It is given up when a read or write failed, or a write took only a part of its
   data; what has been sent until then is a prefix of the stream.
   */
  method Send(path: string, file: Source, sock: Sink) returns (ok: bool)
    requires file.Valid() && file.pos == 0 && |path| + 2 <= MAX_ZEICHEN
    requires !file.failed && !sock.failed && !sock.short && sock.content == []
    modifies file, sock
    ensures ok <==> !file.failed && !sock.failed && !sock.short
    ensures sock.content <= Stream(path, file.content)
    ensures ok ==> sock.content == Stream(path, file.content)
  {
    var help := AfterLastSlash(path + "\n");
    StreamStarts(path, file.content);
    ok := WriteWhole(sock, help);
    if ok {
      var total;
      assert file.content[0..] == file.content;
      total, ok := Forward(file, sock);
    }
  }

  // ---------- the server ----------

  /** The byte loop that fills `puffer` up to the newline, which it replaces by NUL. */
  method ReadName(conn: Source, puffer: array<char>) returns (j: nat, ok: bool)
    requires conn.Valid() && conn.pos == 0 && puffer.Length == MAX_ZEICHEN
    requires '\n' in conn.content && FirstNewline(conn.content) < MAX_ZEICHEN && !conn.failed
    modifies conn, puffer
    ensures conn.Valid() && (ok <==> !conn.failed)
    ensures ok ==> j == FirstNewline(conn.content) && conn.pos == j + 1
    ensures ok ==> puffer[..j] == conn.content[..j] && puffer[j] == '\0'
  {
    ghost var k := FirstNewline(conn.content);
    j := 0;
    while true
      invariant conn.Valid() && !conn.failed && conn.pos == j <= k && puffer[..j] == conn.content[..j]
      decreases k - j
    {
      var n := conn.Read(puffer, j, 1);
      if n < 0 {
        return j, false;
      }
      assert puffer[j] == puffer[j..j + 1][0] == conn.content[j];
      if puffer[j] == '\n' {
        FirstNewlineIs(conn.content, j);
        puffer[j] := '\0';
        return j, true;
      }
      assert conn.content[..j + 1] == conn.content[..j] + [conn.content[j]];
      assert puffer[..j + 1] == puffer[..j] + [puffer[j]];
      j := j + 1;
    }
  }

  /**
   One accepted connection: the name, what is written to the file, and the byte count `ngesammt`. The server
   ends when a read or write failed, or a write took only a part of its data.
   */
  method Receive(conn: Source, fd: Sink) returns (name: string, total: int, ok: bool)
    requires conn.Valid() && conn.pos == 0 && fd.content == []
    requires !conn.failed && !fd.failed && !fd.short
    requires '\n' in conn.content && FirstNewline(conn.content) < MAX_ZEICHEN
    modifies conn, fd
    ensures ok <==> !conn.failed && !fd.failed && !fd.short
    ensures fd.content <= conn.content[FirstNewline(conn.content) + 1..]
    ensures ok ==> var k := FirstNewline(conn.content);
                   name == conn.content[..k] && fd.content == conn.content[k + 1..] && total == |fd.content|
  {
    total := 0;
    name := [];
    var puffer := new char[MAX_ZEICHEN];
    var j;
    j, ok := ReadName(conn, puffer);
    if !ok {
      return;
    }
    name := puffer[..j];
    total, ok := Forward(conn, fd);
  }

  // ---------- both ends ----------

  lemma {:induction false} AfterLastSlashShort(path: string)
    ensures |AfterLastSlash(path)| <= |path|
  {
    if path != [] {
      AfterLastSlashShort(path[..|path| - 1]);
    }
  }

  /** The first newline of the stream ends the header exactly when the name itself has none. */
  lemma HeaderEnds(base: string, content: string)
    ensures var s := base + ("\n" + content);
            && '\n' in s && FirstNewline(s) <= |base|
            && (FirstNewline(s) == |base| <==> '\n' !in base)
            && s[..|base|] == base && s[|base| + 1..] == content
  {
    var s := base + ("\n" + content);
    assert s[|base|] == '\n' && s[..|base|] == base;
    if '\n' in base {
      var k := FirstNewline(base);
      assert s[..k] == base[..k];
      FirstNewlineIs(s, k);
    } else {
      FirstNewlineIs(s, |base|);
    }
  }

  /** With a newline in the name, the rest of the name goes in front of the content. */
  lemma NewlineSplitsName(u: string, v: string, content: string)
    requires '\n' !in u
    ensures var s, k := u + "\n" + v + ("\n" + content), |u|;
            '\n' in s && FirstNewline(s) == k && s[..k] == u && s[k + 1..] == v + ("\n" + content)
  {
    var s := u + "\n" + v + ("\n" + content);
    assert s[|u|] == '\n' && s[..|u|] == u;
    FirstNewlineIs(s, |u|);
  }

  /** A path for which the round trip fails: the server stores "b" and a newline before the content under "a". */
  lemma NewlineInName(content: string)
    ensures var s := Stream("a\nb", content);
            '\n' in AfterLastSlash("a\nb") && '\n' in s && FirstNewline(s) == 1 && s[..1] == "a" && s[2..] == "b\n" + content
  {
    AfterLastSlashIs("", "a\nb");
    assert "" + "a\nb" == "a\nb" && "a" + "\n" + "b" == "a\nb";
    NewlineSplitsName("a", "b", content);
    assert "b" + ("\n" + content) == "b\n" + content;
    assert "a\nb"[1] == '\n';
  }

  /**
   Both programs get through exactly when no call failed and no write was short. Then the server has stored
   the client's content under the last component of the path, for every way in which the connection cuts
   the stream, exactly when that component has no newline in it.
   */
  method RoundTrip(path: string, file: Source, sock: Sink, fd: Sink)
    returns (conn: Source, name: string, total: int, ok: bool)
    requires |path| + 2 <= MAX_ZEICHEN && file.Valid() && file.pos == 0 && sock != fd
    requires !file.failed && !sock.failed && !sock.short && !fd.failed && !fd.short
    requires sock.content == [] && fd.content == []
    modifies file, sock, fd
    ensures fresh(conn) && conn.content == sock.content
    ensures ok <==> !file.failed && !sock.failed && !sock.short && !conn.failed && !fd.failed && !fd.short
    ensures ok ==> total == |fd.content|
    ensures ok ==> (name == AfterLastSlash(path) && fd.content == file.content <==> '\n' !in AfterLastSlash(path))
  {
    name, total := [], 0;
    ok := Send(path, file, sock);
    conn := new Source(sock.content);
    if ok {
      AfterLastSlashShort(path);
      HeaderEnds(AfterLastSlash(path), file.content);
      name, total, ok := Receive(conn, fd);
    }
  }
}
