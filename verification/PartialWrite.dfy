/**
 The loops that turn partial writes into whole ones, `write2` of `cpy_file.c` and `SendBlock` and
 `SendBuf` of `http_server.c`, and the block copy of `cpy_file.c` built on the first.
 */
module PartialWrite {
  import opened CStrings
  import opened Sequences
  import opened Streams

  /** What a loop that gives up at the first failing call leaves in the sink. */
  ghost predicate Appended(before: string, after: string, data: string, ok: bool)
  {
    if ok then after == before + data
    else exists k :: 0 <= k < |data| && after == before + data[..k]
  }

  lemma Further(before: string, data: string, done: nat, len: nat)
    requires done + len <= |data|
    ensures before + data[..done] + data[done..][..len] == before + data[..done + len]
  {
  }

  /** `write2`: all of `buffer`, or -1 after a proper prefix of it. */
  method Write2(fd: Sink, buffer: string) returns (r: int)
    modifies fd
    ensures r == 0 || r == -1
    ensures fd.failed == (old(fd.failed) || r == -1)
    ensures Appended(old(fd.content), fd.content, buffer, r == 0)
  {
    var rest := buffer;
    var count := |buffer|;
    ghost var done := 0;
    while count > 0
      invariant 0 <= done <= |buffer| && count == |rest| && rest == buffer[done..]
      invariant fd.content == old(fd.content) + buffer[..done] && fd.failed == old(fd.failed)
      decreases count
    {
      var written := fd.Write(rest);
      if written == -1 {
        return -1;
      }
      Further(old(fd.content), buffer, done, written);
      count := count - written;
      rest := rest[written..];
      done := done + written;
    }
    return 0;
  }

  /** `SendBlock`: a size that is not positive sends nothing and succeeds. */
  method SendBlock(soc: Sink, buf: string, size: int) returns (r: int)
    requires size <= |buf|
    modifies soc
    ensures r == 0 || r == -1
    ensures soc.failed == (old(soc.failed) || r == -1)
    ensures Appended(old(soc.content), soc.content, if size > 0 then buf[..size] else [], r == 0)
  {
    ghost var data := if size > 0 then buf[..size] else [];
    var left := size;
    var at := 0;
    while left > 0
      invariant 0 <= at <= |data| && (left > 0 ==> at + left == size) && (left <= 0 ==> at == |data|)
      invariant soc.content == old(soc.content) + data[..at] && soc.failed == old(soc.failed)
      decreases left
    {
      var len := soc.Write(buf[at..at + left]);
      if len == -1 {
        return -1;
      }
      assert buf[at..at + left] == data[at..];
      Further(old(soc.content), data, at, len);
      left := left - len;
      at := at + len;
    }
    return 0;
  }

  /** `SendBuf` recomputes strlen(r) for every call; it always equals what is left to send. */
  method SendBuf(soc: Sink, buf: string) returns (r: int)
    requires NUL in buf
    modifies soc
    ensures r == 0 || r == -1
    ensures soc.failed == (old(soc.failed) || r == -1)
    ensures Appended(old(soc.content), soc.content, buf[..StrLen(buf)], r == 0)
  {
    ghost var total, data := StrLen(buf), buf[..StrLen(buf)];
    var rlen: int := StrLen(buf);
    var at := 0;
    while rlen > 0
      invariant 0 <= at <= total && rlen == total - at
      invariant soc.content == old(soc.content) + data[..at] && soc.failed == old(soc.failed)
      decreases rlen
    {
      StrLenAdvance(buf, at);
      var length := StrLen(buf[at..]);
      assert length == rlen && buf[at..at + length] == data[at..];
      var len := soc.Write(buf[at..at + length]);
      if len == -1 {
        return -1;
      }
      Further(old(soc.content), data, at, len);
      rlen := rlen - len;
      at := at + len;
    }
    return 0;
  }

  /** A block that was read, and how much of it `write2` got written. */
  datatype Block = Block(text: string, kept: nat)

  predicate Whole(b: Block)
  {
    b.kept == |b.text|
  }

  function ReadFrom(blocks: seq<Block>): string
  {
    if blocks == [] then [] else ReadFrom(blocks[..|blocks| - 1]) + blocks[|blocks| - 1].text
  }

  function WrittenTo(blocks: seq<Block>): string
    requires forall b :: b in blocks ==> b.kept <= |b.text|
  {
    if blocks == [] then []
    else
      var b := blocks[|blocks| - 1];
      WrittenTo(blocks[..|blocks| - 1]) + b.text[..b.kept]
  }

  /** What is written is what was read exactly if every block was written whole, and otherwise it is shorter. */
  lemma {:induction false} WrittenIsRead(blocks: seq<Block>)
    requires forall b :: b in blocks ==> b.kept <= |b.text|
    ensures |WrittenTo(blocks)| <= |ReadFrom(blocks)|
    ensures (forall b :: b in blocks ==> Whole(b)) ==> WrittenTo(blocks) == ReadFrom(blocks)
    ensures (exists b :: b in blocks && !Whole(b)) ==> |WrittenTo(blocks)| < |ReadFrom(blocks)|
  {
    if blocks != [] {
      var rest, last := blocks[..|blocks| - 1], blocks[|blocks| - 1];
      WrittenIsRead(rest);
      assert blocks == rest + [last];
      if forall b :: b in blocks ==> Whole(b) {
        assert Whole(last) && last.text[..last.kept] == last.text;
      } else {
        var b :| b in blocks && !Whole(b);
        assert b == last || b in rest;
      }
    }
  }

  lemma NextBlock(blocks: seq<Block>, b: Block)
    requires (forall c :: c in blocks ==> c.kept <= |c.text|) && b.kept <= |b.text|
    ensures ReadFrom(blocks + [b]) == ReadFrom(blocks) + b.text
    ensures WrittenTo(blocks + [b]) == WrittenTo(blocks) + b.text[..b.kept]
  {
    assert (blocks + [b])[..|blocks|] == blocks;
  }

  lemma WrittenBlock(before: string, after: string, text: string, ok: bool) returns (b: Block)
    requires Appended(before, after, text, ok)
    ensures b.text == text && b.kept <= |text| && after == before + text[..b.kept]
    ensures Whole(b) <==> ok
  {
    if ok {
      b := Block(text, |text|);
    } else {
      var k :| 0 <= k < |text| && after == before + text[..k];
      b := Block(text, k);
    }
  }

  lemma {:induction false} FirstBlocks(blocks: seq<Block>, j: nat)
    requires j <= |blocks| && forall b :: b in blocks ==> b.kept <= |b.text|
    ensures ReadFrom(blocks[..j]) <= ReadFrom(blocks) && WrittenTo(blocks[..j]) <= WrittenTo(blocks)
  {
    if j < |blocks| {
      var rest := blocks[..|blocks| - 1];
      FirstBlocks(rest, j);
      assert rest[..j] == blocks[..j];
    } else {
      assert blocks[..j] == blocks;
    }
  }

  lemma PrefixSlice(a: string, b: string, s: string)
    requires a + b <= s
    ensures |a| + |b| <= |s| && s[|a|..|a| + |b|] == b
  {
    assert s[..|a| + |b|] == a + b;
    assert s[|a|..|a| + |b|] == (a + b)[|a|..];
  }

  /** Where the part of block j begins in the file and in the copy. */
  lemma {:induction false} PlaceOfBlock(blocks: seq<Block>, j: nat)
    requires j < |blocks| && forall b :: b in blocks ==> b.kept <= |b.text|
    ensures var r, w, b := |ReadFrom(blocks[..j])|, |WrittenTo(blocks[..j])|, blocks[j];
            && r + |b.text| <= |ReadFrom(blocks)| && ReadFrom(blocks)[r..r + |b.text|] == b.text
            && w + b.kept <= |WrittenTo(blocks)| && WrittenTo(blocks)[w..w + b.kept] == b.text[..b.kept]
  {
    var before, b := blocks[..j], blocks[j];
    assert blocks[..j + 1] == before + [b];
    NextBlock(before, b);
    FirstBlocks(blocks, j + 1);
    PrefixSlice(ReadFrom(before), b.text, ReadFrom(blocks));
    PrefixSlice(WrittenTo(before), b.text[..b.kept], WrittenTo(blocks));
  }

  /**
   Where a block was not written whole, every whole one behind it stands in the copy nearer to the front than
   in the file: the copy misses a part in the middle.
   */
  lemma {:induction false} LaterBlockMovesUp(blocks: seq<Block>, i: nat, j: nat)
    requires forall b :: b in blocks ==> b.kept <= |b.text|
    requires i < j < |blocks| && !Whole(blocks[i]) && Whole(blocks[j])
    ensures var inFile, inCopy, n := |ReadFrom(blocks[..j])|, |WrittenTo(blocks[..j])|, |blocks[j].text|;
            && inCopy < inFile && inCopy + n <= |WrittenTo(blocks)| && inFile + n <= |ReadFrom(blocks)|
            && ReadFrom(blocks)[inFile..inFile + n] == WrittenTo(blocks)[inCopy..inCopy + n] == blocks[j].text
  {
    var before, b := blocks[..j], blocks[j];
    assert before[i] == blocks[i] && before[i] in before;
    WrittenIsRead(before);
    PlaceOfBlock(blocks, j);
    assert b.text[..b.kept] == b.text;
  }

  /**
   The copy loop. The copy consists of the parts of the blocks that `write2` got written: it goes on after a
   block whose write failed, and equals the file if no call failed, and exactly when no write failed and
   reading, which stops early only when a read fails, got to the end.
   `reported` counts the error messages: `write2` never returns a positive number, so there are none.
   */
  method CopyFile(source: Source, target: Sink, blockSize: nat) returns (reported: int, ghost blocks: seq<Block>)
    requires source.Valid() && source.pos == 0 && blockSize > 0
    requires target.content == [] && !target.failed && !source.failed
    modifies source, target
    ensures !source.failed ==> source.pos == |source.content|
    ensures target.content == source.content || target.failed || source.failed
    ensures source.Valid() && forall b :: b in blocks ==> b.kept <= |b.text| && 0 < |b.text| <= blockSize
    ensures ReadFrom(blocks) == source.content[..source.pos] && target.content == WrittenTo(blocks)
    ensures target.failed <==> exists b :: b in blocks && !Whole(b)
    ensures target.content == source.content <==> !target.failed && source.pos == |source.content|
    ensures reported == 0
  {
    reported := 0;
    blocks := [];
    var buffer := new char[blockSize];
    var n := source.Read(buffer, 0, blockSize);
    ghost var taken: nat := 0;
    while n > 0
      invariant source.Valid() && fresh(buffer) && buffer.Length == blockSize && n <= blockSize
      invariant taken <= |source.content| && source.pos == taken + if n > 0 then n else 0
      invariant (n < 0 <==> source.failed) && (n == 0 ==> taken == |source.content|)
      invariant n > 0 ==> buffer[0..n] == source.content[taken..source.pos]
      invariant forall b :: b in blocks ==> b.kept <= |b.text| && 0 < |b.text| <= blockSize
      invariant ReadFrom(blocks) == source.content[..taken] && target.content == WrittenTo(blocks)
      invariant target.failed <==> exists b :: b in blocks && !Whole(b)
      invariant reported == 0
      decreases |source.content| - taken
    {
      ghost var text, before := source.content[taken..source.pos], target.content;
      assert buffer[..n] == text;
      var r := Write2(target, buffer[..n]);
      if r > 0 {
        reported := reported + 1;
      }
      ghost var b := WrittenBlock(before, target.content, text, r == 0);
      NextBlock(blocks, b);
      SliceJoin(source.content, 0, taken, source.pos);
      assert forall c :: c in blocks + [b] <==> c in blocks || c == b;
      blocks := blocks + [b];
      taken := source.pos;
      n := source.Read(buffer, 0, blockSize);
    }
    WrittenIsRead(blocks);
  }
}
