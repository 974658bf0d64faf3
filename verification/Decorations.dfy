/**
 Function `E` of `prettify.js`: two passes compact the array of decorations in place, and a merge of
 the result with the source spans cuts the text into styled pieces.
 */
module Decorations {
  import opened Sequences

  /** From `start` on the text has `style`, until the next decoration. */
  datatype Decoration = Decoration(start: int, style: string)

  predicate Sorted(ds: seq<Decoration>)
  {
    forall i, j :: 0 <= i < j < |ds| ==> ds[i].start <= ds[j].start
  }

  predicate StrictlySorted(ds: seq<Decoration>)
  {
    forall i, j :: 0 <= i < j < |ds| ==> ds[i].start < ds[j].start
  }

  predicate NeighboursDiffer(ds: seq<Decoration>)
  {
    forall i :: 0 < i < |ds| ==> ds[i - 1].style != ds[i].style
  }

  datatype Option<T> = None | Some(value: T)

  /** The style of the character at x: that of the last decoration that starts at or before x. */
  function StyleAt(ds: seq<Decoration>, x: int): Option<string>
  {
    if ds == [] || ds[0].start > x then None
    else
      match StyleAt(ds[1..], x)
      case None => Some(ds[0].style)
      case Some(style) => Some(style)
  }

  /** `StyleAt` is decided by the last index whose start does not lie beyond x. */
  lemma {:induction false} StyleAtIndex(ds: seq<Decoration>, x: int, i: nat)
    requires Sorted(ds) && i < |ds| && ds[i].start <= x && (i + 1 < |ds| ==> x < ds[i + 1].start)
    ensures StyleAt(ds, x) == Some(ds[i].style)
  {
    if i > 0 {
      StyleAtIndex(ds[1..], x, i - 1);
    }
  }

  // ---------- the two passes as functions ----------

  /** Of several decorations with one start only the last is kept, and none that starts at the end of the text. */
  function LastPerStart(ds: seq<Decoration>, end: int): seq<Decoration>
  {
    if ds == [] then []
    else
      (if ds[0].start != (if |ds| > 1 then ds[1].start else end) then [ds[0]] else []) + LastPerStart(ds[1..], end)
  }

  function SkipStyle(ds: seq<Decoration>, style: string): (r: seq<Decoration>)
    ensures |r| <= |ds|
  {
    if ds != [] && ds[0].style == style then SkipStyle(ds[1..], style) else ds
  }

  /** Of a run of decorations with one style only the first is kept. */
  function MergeRuns(ds: seq<Decoration>): seq<Decoration>
    decreases |ds|
  {
    if ds == [] then [] else [ds[0]] + MergeRuns(SkipStyle(ds[1..], ds[0].style))
  }

  function Compacted(ds: seq<Decoration>, end: int): seq<Decoration>
  {
    MergeRuns(LastPerStart(ds, end))
  }

  lemma {:induction false} NoStyleBefore(ds: seq<Decoration>, x: int)
    requires forall i :: 0 <= i < |ds| ==> ds[i].start > x
    ensures StyleAt(ds, x) == None
  {
  }

  lemma {:induction false} LastPerStartStarts(ds: seq<Decoration>, end: int, low: int)
    requires Sorted(ds) && forall i :: 0 <= i < |ds| ==> low <= ds[i].start
    ensures StrictlySorted(LastPerStart(ds, end))
    ensures forall d :: d in LastPerStart(ds, end) ==> low <= d.start
  {
    if ds != [] {
      var rest := ds[1..];
      var next := if |ds| > 1 then ds[1].start else end;
      if ds[0].start == next {
        LastPerStartStarts(rest, end, low);
      } else {
        LastPerStartStarts(rest, end, if |ds| > 1 then ds[1].start else ds[0].start);
      }
    }
  }

  lemma {:induction false} LastPerStartKeepsStyle(ds: seq<Decoration>, end: int, x: int)
    requires Sorted(ds) && x < end
    ensures StyleAt(LastPerStart(ds, end), x) == StyleAt(ds, x)
  {
    if ds != [] {
      var rest := ds[1..];
      assert ds[0..] == ds == [ds[0]] + rest;
      PassStep(ds, 0, end);
      if ds[0].start > x {
        LastPerStartStarts(ds, end, ds[0].start);
        NoStyleBefore(LastPerStart(ds, end), x);
      } else {
        LastPerStartKeepsStyle(rest, end, x);
        StyleAtCons(ds[0], LastPerStart(rest, end), x);
        if rest != [] && rest[0].start == ds[0].start {
          StyleSomewhere(rest, x);
        }
      }
    }
  }

  lemma StyleSomewhere(ds: seq<Decoration>, x: int)
    requires ds != [] && ds[0].start <= x
    ensures StyleAt(ds, x).Some?
  {
  }

  lemma {:induction false} SkipKeepsStyle(head: Decoration, ds: seq<Decoration>, x: int)
    requires Sorted([head] + ds)
    ensures StyleAt([head] + SkipStyle(ds, head.style), x) == StyleAt([head] + ds, x)
  {
    if ds != [] && ds[0].style == head.style {
      var rest := ds[1..];
      var a, b := [head] + ds, [head] + rest;
      assert forall i :: 0 <= i < |b| ==> b[i] == a[if i == 0 then 0 else i + 1];
      assert Sorted(b);
      SkipKeepsStyle(head, rest, x);
      assert a[1..] == ds && b[1..] == rest;
      if ds[0].start > x {
        assert a[1] == ds[0] && forall i :: 0 <= i < |rest| ==> rest[i] == a[i + 2];
        NoStyleBefore(rest, x);
      }
    }
  }

  lemma StyleAtCons(head: Decoration, ds: seq<Decoration>, x: int)
    ensures StyleAt([head] + ds, x) ==
              if head.start > x then None else if StyleAt(ds, x).Some? then StyleAt(ds, x) else Some(head.style)
  {
    assert ([head] + ds)[1..] == ds;
  }

  /** What is skipped lies at the front. */
  lemma {:induction false} SkipIsSuffix(ds: seq<Decoration>, style: string) returns (k: nat)
    ensures k <= |ds| && SkipStyle(ds, style) == ds[k..]
    ensures k < |ds| ==> ds[k].style != style
  {
    if ds != [] && ds[0].style == style {
      k := SkipIsSuffix(ds[1..], style);
      k := k + 1;
    } else {
      k := 0;
    }
  }

  lemma {:induction false} MergeRunsKeepsStyle(ds: seq<Decoration>, x: int)
    requires StrictlySorted(ds)
    ensures StyleAt(MergeRuns(ds), x) == StyleAt(ds, x)
    decreases |ds|
  {
    if ds != [] {
      var k := SkipIsSuffix(ds[1..], ds[0].style);
      var rest := SkipStyle(ds[1..], ds[0].style);
      assert rest == ds[k + 1..];
      MergeRunsKeepsStyle(rest, x);
      StyleAtCons(ds[0], rest, x);
      StyleAtCons(ds[0], MergeRuns(rest), x);
      SkipKeepsStyle(ds[0], ds[1..], x);
      assert [ds[0]] + ds[1..] == ds;
    }
  }

  lemma {:induction false} MergeRunsShape(ds: seq<Decoration>)
    requires StrictlySorted(ds)
    ensures StrictlySorted(MergeRuns(ds)) && NeighboursDiffer(MergeRuns(ds))
    ensures forall d :: d in MergeRuns(ds) ==> d in ds
    ensures ds != [] ==> MergeRuns(ds) != [] && MergeRuns(ds)[0] == ds[0]
    decreases |ds|
  {
    if ds != [] {
      var k := SkipIsSuffix(ds[1..], ds[0].style);
      var rest := SkipStyle(ds[1..], ds[0].style);
      assert rest == ds[k + 1..];
      MergeRunsShape(rest);
      forall d | d in MergeRuns(rest)
        ensures d in ds && ds[0].start < d.start
      {
        var i :| 0 <= i < |rest| && rest[i] == d;
        assert d == ds[i + k + 1];
      }
      PrependShape(ds[0], MergeRuns(rest));
    }
  }

  lemma PrependShape(head: Decoration, ds: seq<Decoration>)
    requires StrictlySorted(ds) && NeighboursDiffer(ds)
    requires forall d :: d in ds ==> head.start < d.start
    requires ds != [] ==> head.style != ds[0].style
    ensures StrictlySorted([head] + ds) && NeighboursDiffer([head] + ds)
  {
  }

  /**
   Compaction keeps the style of every character before the end of the text, and what it leaves has
   strictly increasing starts and no two neighbours of one style.
   */
  lemma CompactionKeepsMeaning(ds: seq<Decoration>, end: int, x: int)
    requires Sorted(ds) && x < end
    ensures StyleAt(Compacted(ds, end), x) == StyleAt(ds, x)
    ensures StrictlySorted(Compacted(ds, end)) && NeighboursDiffer(Compacted(ds, end))
  {
    if ds != [] {
      LastPerStartStarts(ds, end, ds[0].start);
    }
    LastPerStartKeepsStyle(ds, end, x);
    MergeRunsKeepsStyle(LastPerStart(ds, end), x);
    MergeRunsShape(LastPerStart(ds, end));
  }

  lemma {:induction false} LastPerStartBeforeEnd(ds: seq<Decoration>, end: int)
    requires Sorted(ds) && forall i :: 0 <= i < |ds| ==> ds[i].start <= end
    ensures forall d :: d in LastPerStart(ds, end) ==> d.start < end
  {
    if ds != [] {
      LastPerStartBeforeEnd(ds[1..], end);
    }
  }

  /** No decoration is left that styles nothing: each one starts before the end of the text. */
  lemma CompactionBeforeEnd(ds: seq<Decoration>, end: int)
    requires Sorted(ds) && forall i :: 0 <= i < |ds| ==> ds[i].start <= end
    ensures forall d :: d in Compacted(ds, end) ==> d.start < end
  {
    if ds != [] {
      LastPerStartStarts(ds, end, ds[0].start);
    }
    LastPerStartBeforeEnd(ds, end);
    MergeRunsShape(LastPerStart(ds, end));
  }

  // ---------- the passes in place ----------

  lemma PassStep(ds: seq<Decoration>, n: nat, end: int)
    requires n < |ds|
    ensures LastPerStart(ds[n..], end) ==
              if ds[n].start != (if n + 1 < |ds| then ds[n + 1].start else end)
              then [ds[n]] + LastPerStart(ds[n + 1..], end) else LastPerStart(ds[n + 1..], end)
  {
    var s := ds[n..];
    assert s[0] == ds[n] && s[1..] == ds[n + 1..] && (n + 1 < |ds| ==> s[1] == ds[n + 1]);
  }

  /** First pass over the g decorations; the entry behind them is the sentinel `d[g] = s`. */
  method KeepLastPerStart(d: array<Decoration>, g: nat, end: int) returns (r: nat)
    requires d.Length == g + 1 && d[g].start == end
    modifies d
    ensures r <= g && d[..r] == LastPerStart(old(d[..g]), end)
  {
    ghost var ds, kept: seq<Decoration> := d[..g], [];
    r := 0;
    var n := 0;
    assert ds[0..] == ds;
    while n < g
      invariant r <= n <= g && d[g].start == end
      invariant forall i :: n <= i < g ==> d[i] == ds[i]
      invariant |kept| == r && d[..r] == kept
      invariant kept + LastPerStart(ds[n..], end) == LastPerStart(ds, end)
    {
      PassStep(ds, n, end);
      ConcatAssoc(kept, [ds[n]], LastPerStart(ds[n + 1..], end));
      if d[n].start != d[n + 1].start {
        d[r] := d[n];
        assert d[..r] == kept && d[r] == ds[n];
        r := r + 1;
        kept := kept + [ds[n]];
        assert d[..r] == kept;
      }
      n := n + 1;
    }
    assert kept + [] == kept;
  }

  /** The inner loop of the second pass: past the entries behind n that have style f. */
  method EndOfRun(d: array<Decoration>, g: nat, n: nat, f: string, ghost ds: seq<Decoration>) returns (b: nat)
    requires n < g <= d.Length && |ds| == g && d[n..g] == ds[n..]
    ensures n < b <= g && ds[b..] == SkipStyle(ds[n + 1..], f)
  {
    assert forall i :: n <= i < g ==> d[i] == d[n..g][i - n];
    b := n + 1;
    while b + 1 <= g && d[b].style == f
      invariant n + 1 <= b <= g
      invariant SkipStyle(ds[b..], f) == SkipStyle(ds[n + 1..], f)
    {
      assert ds[b..][1..] == ds[b + 1..];
      b := b + 1;
    }
  }

  lemma MergeStep(ds: seq<Decoration>, n: nat, b: nat)
    requires n < b <= |ds| && ds[b..] == SkipStyle(ds[n + 1..], ds[n].style)
    ensures MergeRuns(ds[n..]) == [ds[n]] + MergeRuns(ds[b..])
  {
    assert ds[n..][1..] == ds[n + 1..];
  }

  /** Second pass over the g entries that are left. */
  method MergeEqualStyles(d: array<Decoration>, g: nat) returns (r: nat)
    requires g <= d.Length
    modifies d
    ensures r <= g && d[..r] == MergeRuns(old(d[..g]))
  {
    ghost var ds := d[..g];
    r := 0;
    var n := 0;
    assert ds[0..] == ds;
    while n < g
      invariant r <= n <= g
      invariant d[n..g] == ds[n..]
      invariant d[..r] + MergeRuns(ds[n..]) == MergeRuns(ds)
    {
      assert d[n] == d[n..g][0] == ds[n];
      var z, f := d[n].start, d[n].style;
      var b := EndOfRun(d, g, n, f, ds);
      MergeStep(ds, n, b);
      assert d[b..g] == d[n..g][b - n..] == ds[b..];
      ghost var kept := d[..r];
      ConcatAssoc(kept, [ds[n]], MergeRuns(ds[b..]));
      d[r] := Decoration(z, f);
      r := r + 1;
      assert d[..r] == kept + [ds[n]];
      n := b;
    }
  }

  /** Both passes; the decorations left are d[..r]. */
  method Compact(d: array<Decoration>, g: nat, end: int) returns (r: nat)
    requires d.Length == g + 1
    modifies d
    ensures r <= g && d[..r] == Compacted(old(d[..g]), end)
  {
    d[g] := d[g].(start := end);
    assert d[..g] == old(d[..g]);
    var kept := KeepLastPerStart(d, g, end);
    r := MergeEqualStyles(d, kept);
  }

  // ---------- cutting the text ----------

  /** A source span; the text of an element node (`nodeType` 1) is not styled. */
  datatype Span = Span(start: int, isText: bool)

  datatype Piece = Piece(from: int, until: int, style: string, span: nat)

  /** JavaScript's `v || end`, for a number that may be absent. */
  function OrEnd(present: bool, v: int, end: int): int
  {
    if present && v != 0 then v else end
  }

  function SpanEnd(spans: seq<Span>, h: nat, end: int): int
  {
    OrEnd(h + 1 < |spans|, if h + 1 < |spans| then spans[h + 1].start else 0, end)
  }

  function DecorationEnd(ds: seq<Decoration>, a: nat, end: int): int
  {
    OrEnd(a + 1 < |ds|, if a + 1 < |ds| then ds[a + 1].start else 0, end)
  }

  /** Spans as the text extraction delivers them: from 0 on, each longer than nothing, none past the end. */
  predicate SpansFit(spans: seq<Span>, end: int)
  {
    && (spans != [] ==> spans[0].start == 0)
    && (forall i, j :: 0 <= i < j < |spans| ==> spans[i].start < spans[j].start)
    && (forall i :: 0 <= i < |spans| ==> 0 <= spans[i].start <= end)
  }

  /** Decorations that begin at 0 and go up; a text that is not empty has at least one. */
  predicate DecorationsFit(ds: seq<Decoration>, end: int)
  {
    && (ds == [] ==> end == 0) && (ds != [] ==> ds[0].start == 0)
    && StrictlySorted(ds)
    && (forall i :: 0 <= i < |ds| ==> 0 <= ds[i].start)
  }

  predicate InSpan(spans: seq<Span>, end: int, h: nat, x: int)
  {
    h < |spans| && spans[h].start <= x < SpanEnd(spans, h, end)
  }

  ghost predicate InText(spans: seq<Span>, end: int, x: int)
  {
    exists h :: 0 <= h < |spans| && InSpan(spans, end, h, x) && spans[h].isText
  }

  /** The piece lies in one text span and is styled as every one of its characters. */
  ghost predicate PieceFits(p: Piece, spans: seq<Span>, ds: seq<Decoration>, end: int)
  {
    && p.from < p.until
    && p.span < |spans| && spans[p.span].isText
    && spans[p.span].start <= p.from && p.until <= SpanEnd(spans, p.span, end)
    && forall x :: p.from <= x < p.until ==> StyleAt(ds, x) == Some(p.style)
  }

  /** The piece lies in one decoration and has its style. */
  ghost predicate InDecoration(p: Piece, ds: seq<Decoration>, end: int)
  {
    exists a :: 0 <= a < |ds| && ds[a].start <= p.from && p.until <= DecorationEnd(ds, a, end) && p.style == ds[a].style
  }

  /** Inside a span, one piece ends and the next one begins only where one decoration ends and the next one begins. */
  ghost predicate CutAtDecorations(pieces: seq<Piece>, ds: seq<Decoration>)
  {
    forall k :: 0 < k < |pieces| && pieces[k - 1].span == pieces[k].span ==> MeetAtDecoration(pieces[k - 1], pieces[k], ds)
  }

  ghost predicate MeetAtDecoration(p: Piece, q: Piece, ds: seq<Decoration>)
  {
    && p.until == q.from
    && exists a :: 0 < a < |ds| && ds[a].start == q.from && ds[a - 1].style == p.style && ds[a].style == q.style
  }

  predicate Ordered(pieces: seq<Piece>)
  {
    forall i, j :: 0 <= i < j < |pieces| ==> pieces[i].until <= pieces[j].from
  }

  ghost predicate Painted(pieces: seq<Piece>, x: int)
  {
    exists k :: 0 <= k < |pieces| && pieces[k].from <= x < pieces[k].until
  }

  lemma SpanBefore(spans: seq<Span>, end: int, h: nat, k: nat)
    requires SpansFit(spans, end) && h < k < |spans|
    ensures SpanEnd(spans, h, end) <= spans[k].start
  {
    assert spans[h].start < spans[h + 1].start;
  }

  lemma SpanUnique(spans: seq<Span>, end: int, h: nat, k: nat, x: int)
    requires SpansFit(spans, end) && InSpan(spans, end, h, x) && InSpan(spans, end, k, x)
    ensures h == k
  {
    if h < k {
      SpanBefore(spans, end, h, k);
    } else if k < h {
      SpanBefore(spans, end, k, h);
    }
  }

  lemma PaintedGrows(pieces: seq<Piece>, p: Piece, x: int)
    ensures Painted(pieces + [p], x) <==> Painted(pieces, x) || p.from <= x < p.until
  {
    var longer := pieces + [p];
    assert longer[|pieces|] == p;
    if Painted(pieces, x) {
      var k :| 0 <= k < |pieces| && pieces[k].from <= x < pieces[k].until;
      assert longer[k] == pieces[k];
    }
  }

  /** Where a span ends the next one begins, unless the text ends there. */
  lemma SpanBorders(spans: seq<Span>, h: nat, end: int)
    requires SpansFit(spans, end) && h < |spans|
    ensures h + 1 < |spans| ==> SpanEnd(spans, h, end) == spans[h + 1].start
    ensures h + 1 < |spans| ==> spans[h + 1].start < SpanEnd(spans, h + 1, end) || spans[h + 1].start == end
    ensures SpanEnd(spans, h, end) <= end
  {
    assert h + 1 < |spans| ==> spans[h].start < spans[h + 1].start;
    assert h + 2 < |spans| ==> spans[h + 1].start < spans[h + 2].start;
  }

  /** Where a decoration ends the next one begins, unless it is the last. */
  lemma DecorationBorders(ds: seq<Decoration>, a: nat, end: int)
    requires DecorationsFit(ds, end)
    ensures a + 1 < |ds| ==> DecorationEnd(ds, a, end) == ds[a + 1].start
    ensures a + 1 < |ds| ==> ds[a + 1].start < DecorationEnd(ds, a + 1, end) || ds[a + 1].start >= end
  {
    assert a + 1 < |ds| ==> ds[a].start < ds[a + 1].start;
    assert a + 2 < |ds| ==> ds[a + 1].start < ds[a + 2].start;
  }

  lemma StyleBetween(ds: seq<Decoration>, a: nat, end: int, e: int, b: int)
    requires DecorationsFit(ds, end) && a < |ds| && ds[a].start <= e && b <= DecorationEnd(ds, a, end)
    requires 0 <= e < b && b <= end
    ensures forall x :: e <= x < b ==> StyleAt(ds, x) == Some(ds[a].style)
  {
    forall x | e <= x < b
      ensures StyleAt(ds, x) == Some(ds[a].style)
    {
      StyleAtIndex(ds, x, a);
    }
  }

  /** The next piece paints what lies between e and b, if that is text. */
  lemma CutCovers(spans: seq<Span>, end: int, h: nat, e: int, b: int, before: seq<Piece>, pieces: seq<Piece>)
    requires SpansFit(spans, end) && h < |spans| && spans[h].start <= e && b <= SpanEnd(spans, h, end)
    requires forall p :: p in before ==> p.until <= e
    requires forall x :: 0 <= x < e ==> (Painted(before, x) <==> InText(spans, end, x))
    requires if spans[h].isText && e < b
             then |pieces| == |before| + 1 && pieces == before + [pieces[|before|]] && pieces[|before|].from == e && pieces[|before|].until == b
             else pieces == before
    ensures forall x :: 0 <= x < b ==> (Painted(pieces, x) <==> InText(spans, end, x))
  {
    forall x | 0 <= x < b
      ensures Painted(pieces, x) <==> InText(spans, end, x)
    {
      if pieces != before {
        PaintedGrows(before, pieces[|before|], x);
      }
      if e <= x {
        assert !Painted(before, x);
        assert InSpan(spans, end, h, x);
        if InText(spans, end, x) {
          var k :| 0 <= k < |spans| && InSpan(spans, end, k, x) && spans[k].isText;
          SpanUnique(spans, end, h, k, x);
        }
      }
    }
  }

  /** The piece p has been cut at e, where decoration a begins or the text ends. */
  predicate Goes(p: Piece, ds: seq<Decoration>, a: nat, e: int)
  {
    p.until == e && 0 < a <= |ds| && ds[a - 1].style == p.style && (a < |ds| ==> ds[a].start == e)
  }

  lemma CutGoesOn(pieces: seq<Piece>, p: Piece, ds: seq<Decoration>, a: nat, e: int)
    requires CutAtDecorations(pieces, ds) && a < |ds| && p.from == e && p.style == ds[a].style
    requires pieces != [] && pieces[|pieces| - 1].span == p.span ==> Goes(pieces[|pieces| - 1], ds, a, e)
    ensures CutAtDecorations(pieces + [p], ds)
  {
    var longer := pieces + [p];
    forall k | 0 < k < |longer| && longer[k - 1].span == longer[k].span
      ensures MeetAtDecoration(longer[k - 1], longer[k], ds)
    {
      if k < |pieces| {
        assert longer[k - 1] == pieces[k - 1] && longer[k] == pieces[k];
      } else {
        assert ds[a].start == e;
      }
    }
  }

  /** Where the loop stands: in span h and decoration a, up to e. */
  predicate StandsAt(spans: seq<Span>, ds: seq<Decoration>, end: int, h: nat, a: nat, e: int)
  {
    && h <= |spans| && 0 <= e <= end
    && (h < |spans| ==> spans[h].start <= e <= SpanEnd(spans, h, end) && (e < SpanEnd(spans, h, end) || e == end))
    && (h == |spans| && spans != [] ==> e == end)
    && (a < |ds| ==> ds[a].start <= e <= DecorationEnd(ds, a, end) && (e < DecorationEnd(ds, a, end) || e == end))
    && (a >= |ds| ==> e == end)
  }

  /** The pieces that have been made up to there. */
  ghost predicate MadeUpTo(pieces: seq<Piece>, spans: seq<Span>, ds: seq<Decoration>, end: int, h: nat, a: nat, e: int)
  {
    && Ordered(pieces) && CutAtDecorations(pieces, ds)
    && (forall p :: p in pieces ==> PieceFits(p, spans, ds, end) && InDecoration(p, ds, end) && p.until <= e && p.span <= h)
    && (pieces != [] && pieces[|pieces| - 1].span == h ==> Goes(pieces[|pieces| - 1], ds, a, e))
    && forall x :: 0 <= x < e ==> (Painted(pieces, x) <==> InText(spans, end, x))
  }

  function Smaller(o: int, c: int): int { if o < c then o else c }

  lemma StandsNext(spans: seq<Span>, ds: seq<Decoration>, end: int, h: nat, a: nat, e: int)
    requires SpansFit(spans, end) && DecorationsFit(ds, end) && h < |spans| && StandsAt(spans, ds, end, h, a, e)
    ensures var o, c := SpanEnd(spans, h, end), DecorationEnd(ds, a, end);
            var b := Smaller(o, c);
            StandsAt(spans, ds, end, if b >= o then h + 1 else h, if b >= c then a + 1 else a, b)
  {
    SpanBorders(spans, h, end);
    DecorationBorders(ds, a, end);
  }

  /** What lies between e and the next border becomes a piece, if it is text. */
  lemma PieceMade(pieces: seq<Piece>, spans: seq<Span>, ds: seq<Decoration>, end: int, h: nat, a: nat, e: int, b: int)
    requires SpansFit(spans, end) && DecorationsFit(ds, end) && h < |spans| && StandsAt(spans, ds, end, h, a, e)
    requires MadeUpTo(pieces, spans, ds, end, h, a, e)
    requires spans[h].isText && e < b == Smaller(SpanEnd(spans, h, end), DecorationEnd(ds, a, end))
    ensures a < |ds|
    ensures var p := Piece(e, b, ds[a].style, h);
            && Ordered(pieces + [p]) && CutAtDecorations(pieces + [p], ds)
            && PieceFits(p, spans, ds, end) && InDecoration(p, ds, end)
  {
    SpanBorders(spans, h, end);
    StyleBetween(ds, a, end, e, b);
    var p := Piece(e, b, ds[a].style, h);
    assert InDecoration(p, ds, end);
    CutGoesOn(pieces, p, ds, a, e);
  }

  /** If the loop stays in span h, the last piece of that span goes up to where decoration a ends. */
  lemma GoesNext(p: Piece, spans: seq<Span>, ds: seq<Decoration>, end: int, h: nat, a: nat, e: int, b: int)
    requires SpansFit(spans, end) && DecorationsFit(ds, end) && h < |spans| && StandsAt(spans, ds, end, h, a, e)
    requires e <= b == DecorationEnd(ds, a, end) < SpanEnd(spans, h, end) && spans[h].isText
    requires if e < b then a < |ds| && p.until == b && p.style == ds[a].style else Goes(p, ds, a, e)
    ensures Goes(p, ds, a + 1, b)
  {
    SpanBorders(spans, h, end);
    DecorationBorders(ds, a, end);
  }

  lemma MadeNext(pieces: seq<Piece>, spans: seq<Span>, ds: seq<Decoration>, end: int, h: nat, a: nat, e: int, after: seq<Piece>)
    requires SpansFit(spans, end) && DecorationsFit(ds, end) && h < |spans| && StandsAt(spans, ds, end, h, a, e)
    requires MadeUpTo(pieces, spans, ds, end, h, a, e)
    requires var b := Smaller(SpanEnd(spans, h, end), DecorationEnd(ds, a, end));
             after == if spans[h].isText && e < b && a < |ds| then pieces + [Piece(e, b, ds[a].style, h)] else pieces
    ensures var o, c := SpanEnd(spans, h, end), DecorationEnd(ds, a, end);
            var b := Smaller(o, c);
            MadeUpTo(after, spans, ds, end, if b >= o then h + 1 else h, if b >= c then a + 1 else a, b)
  {
    var o, c := SpanEnd(spans, h, end), DecorationEnd(ds, a, end);
    var b := Smaller(o, c);
    assert e <= b by {
      StandsNext(spans, ds, end, h, a, e);
      SpanBorders(spans, h, end);
    }
    if spans[h].isText && e < b {
      PieceMade(pieces, spans, ds, end, h, a, e, b);
    }
    CutCovers(spans, end, h, e, b, pieces, after);
    assert forall p :: p in after ==> PieceFits(p, spans, ds, end) && InDecoration(p, ds, end) && p.until <= b && p.span <= h;
    if after != [] && after[|after| - 1].span == h && b < o {
      var p := after[|after| - 1];
      assert p in after && PieceFits(p, spans, ds, end);
      GoesNext(p, spans, ds, end, h, a, e, b);
    }
  }

  /**
   The merge loop: it ends, and cuts the text spans into pieces in order. Every character of a text span
   is in exactly one piece, a piece never crosses the border of a span or of a decoration, and no piece is
   cut elsewhere.
   */
  method Cut(spans: seq<Span>, ds: seq<Decoration>, end: nat) returns (pieces: seq<Piece>)
    requires SpansFit(spans, end) && DecorationsFit(ds, end)
    ensures Ordered(pieces)
    ensures forall p :: p in pieces ==> PieceFits(p, spans, ds, end) && InDecoration(p, ds, end)
    ensures CutAtDecorations(pieces, ds)
    ensures forall x :: 0 <= x < end && spans != [] ==> (Painted(pieces, x) <==> InText(spans, end, x))
  {
    pieces := [];
    var e, h, a := 0, 0, 0;
    while h < |spans|
      invariant 0 <= h && 0 <= a
      invariant StandsAt(spans, ds, end, h, a, e) && MadeUpTo(pieces, spans, ds, end, h, a, e)
      decreases |spans| - h, |ds| - a
    {
      var o, c := SpanEnd(spans, h, end), DecorationEnd(ds, a, end);
      var b := if o < c then o else c;
      ghost var before := pieces;
      if spans[h].isText && e < b {
        pieces := pieces + [Piece(e, b, ds[a].style, h)];
      }
      StandsNext(spans, ds, end, h, a, e);
      MadeNext(before, spans, ds, end, h, a, e, pieces);
      e := b;
      if e >= o {
        h := h + 1;
      }
      if e >= c {
        a := a + 1;
      }
    }
  }

  lemma PieceOfOriginal(p: Piece, spans: seq<Span>, ds: seq<Decoration>, end: nat)
    requires Sorted(ds) && SpansFit(spans, end) && PieceFits(p, spans, Compacted(ds, end), end)
    ensures PieceFits(p, spans, ds, end)
  {
    forall x | p.from <= x < p.until
      ensures StyleAt(ds, x) == Some(p.style)
    {
      SpanBorders(spans, p.span, end);
      CompactionKeepsMeaning(ds, end, x);
    }
  }

  /** What compaction leaves still begins at 0, so that the merge loop can start from it. */
  lemma CompactedFits(ds: seq<Decoration>, end: nat)
    requires Sorted(ds) && ds != [] && ds[0].start == 0
    ensures DecorationsFit(Compacted(ds, end), end) && NeighboursDiffer(Compacted(ds, end))
  {
    var kept := LastPerStart(ds, end);
    LastPerStartStarts(ds, end, 0);
    MergeRunsShape(kept);
    FirstKept(ds, end);
    if kept != [] {
      assert Compacted(ds, end)[0] == kept[0];
    }
  }

  lemma {:induction false} FirstKept(ds: seq<Decoration>, end: int)
    requires Sorted(ds) && ds != []
    ensures ds[0].start != end ==> LastPerStart(ds, end) != [] && LastPerStart(ds, end)[0].start == ds[0].start
    ensures LastPerStart(ds, end) != [] && ds[0].start == end ==> LastPerStart(ds, end)[0].start == end
  {
    if |ds| > 1 && ds[0].start == ds[1].start {
      FirstKept(ds[1..], end);
    }
  }

  /**
   The whole of `E`: every text character is in exactly one piece, styled as the original decorations say,
   each piece lies in one of the decorations that compaction leaves, and neighbouring pieces of one span
   differ in style.
   */
  method Recombine(d: array<Decoration>, g: nat, spans: seq<Span>, end: nat) returns (pieces: seq<Piece>)
    requires d.Length == g + 1 && g > 0 && Sorted(d[..g]) && d[0].start == 0 && SpansFit(spans, end)
    modifies d
    ensures Ordered(pieces)
    ensures forall p :: p in pieces ==> PieceFits(p, spans, old(d[..g]), end) && InDecoration(p, Compacted(old(d[..g]), end), end)
    ensures forall x :: 0 <= x < end && spans != [] ==> (Painted(pieces, x) <==> InText(spans, end, x))
    ensures forall k :: 0 < k < |pieces| && pieces[k - 1].span == pieces[k].span ==>
              pieces[k - 1].until == pieces[k].from && pieces[k - 1].style != pieces[k].style
  {
    ghost var ds := d[..g];
    CompactedFits(ds, end);
    var r := Compact(d, g, end);
    pieces := Cut(spans, d[..r], end);
    forall k | 0 < k < |pieces| && pieces[k - 1].span == pieces[k].span
      ensures pieces[k - 1].until == pieces[k].from && pieces[k - 1].style != pieces[k].style
    {
      assert MeetAtDecoration(pieces[k - 1], pieces[k], Compacted(ds, end));
    }
    forall p | p in pieces
      ensures PieceFits(p, spans, ds, end)
    {
      PieceOfOriginal(p, spans, ds, end);
    }
  }
}
