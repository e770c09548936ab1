/**
 Reading a rendered diff back: the lines marked "+ " or "  " of a plain
 (uncoloured, unredacted) formatDiff output spell the second (config)
 text, and the lines marked "- " or "  " spell the first (live) text.
 */
module Sides {
  import opened LineMarks
  import opened Render
  import Seqs

  /** The length of the first line of s, its newline included if it has one. */
  function LineEnd(s: string): (e: nat)
    requires |s| > 0
    ensures 0 < e <= |s|
    ensures forall i :: 0 <= i < e - 1 ==> s[i] != '\n'
    ensures s[e - 1] == '\n' || e == |s|
    decreases |s|
  {
    if s[0] == '\n' || |s| == 1 then 1 else 1 + LineEnd(s[1..])
  }

  /** Lines of kind op belong to the text of side. */
  predicate Keeps(op: Operation, side: Operation)
  {
    op == DiffEqual || op == side
  }

  /** The text of one side read back from a rendered diff: every line whose
      marker belongs to that side, with the marker removed. */
  function ExtractSide(s: string, side: Operation): string
    decreases |s|
  {
    if s == [] then []
    else
      var e := LineEnd(s);
      var line := s[..e];
      (if |line| >= 2 && (line[..2] == Marker(DiffEqual) || line[..2] == Marker(side)) then line[2..] else [])
      + ExtractSide(s[e..], side)
  }

  /** The text of one side as the segments spell it: the Equal segments
      and those of that side, in order. */
  function SideText(diffs: seq<Segment>, side: Operation): string
  {
    if diffs == [] then []
    else (if Keeps(diffs[0].op, side) then diffs[0].text else []) + SideText(diffs[1..], side)
  }

  /** No line is empty: every newline follows a character that is not one. */
  predicate NoEmptyLines(t: string)
  {
    forall i :: 0 <= i < |t| && t[i] == '\n' ==> i > 0 && t[i - 1] != '\n'
  }

  /** The segments are whole lines, as a line-mode diff of two indented JSON
      texts produces them: no empty lines, and every segment but the last
      ends with a newline. */
  predicate LineAligned(diffs: seq<Segment>)
  {
    && (forall i :: 0 <= i < |diffs| ==> NoEmptyLines(diffs[i].text))
    && (forall i :: 0 <= i < |diffs| - 1 ==> diffs[i].text == [] || diffs[i].text[|diffs[i].text| - 1] == '\n')
  }

  /** A first line that ends with a newline stays the first line whatever
      follows it. */
  lemma {:induction false} LineEndAppend(a: string, b: string)
    requires |a| > 0 && a[|a| - 1] == '\n'
    ensures LineEnd(a + b) == LineEnd(a)
    decreases |a|
  {
    Seqs.AppendTail(a, b);
    if a[0] != '\n' {
      Seqs.SuffixLast(a, 1);
      LineEndAppend(a[1..], b);
    }
  }

  /** Reading back distributes over a split at a line boundary. */
  lemma {:induction false} ExtractAppend(a: string, b: string, side: Operation)
    requires a == [] || a[|a| - 1] == '\n'
    ensures ExtractSide(a + b, side) == ExtractSide(a, side) + ExtractSide(b, side)
    decreases |a|
  {
    if a == [] {
      assert a + b == b;
    } else {
      var e := LineEnd(a);
      LineEndAppend(a, b);
      Seqs.AppendPrefix(a, b, e);
      if e < |a| {
        Seqs.SuffixLast(a, e);
      }
      ExtractAppend(a[e..], b, side);
      var line := a[..e];
      var head := if |line| >= 2 && (line[..2] == Marker(DiffEqual) || line[..2] == Marker(side)) then line[2..] else [];
      Seqs.AppendAssoc(head, ExtractSide(a[e..], side), ExtractSide(b, side));
    }
  }

  /** Without line starts, marking changes nothing. */
  lemma {:induction false} MarkedNoLineStart(x: string, marker: string)
    requires forall i :: 0 <= i < |x| - 1 ==> x[i] != '\n'
    ensures Marked(x, marker, false) == x
    decreases |x|
  {
    if x != [] {
      MarkedNoLineStart(x[1..], marker);
      if |x| > 1 {
        assert x[0] != '\n';
      }
    }
  }

  /** The rest of a text with no inner newline has none either. */
  lemma NoInnerNewlineTail(x: string)
    requires |x| > 0
    requires forall i :: 0 <= i < |x| - 1 ==> x[i] != '\n'
    ensures forall i :: 0 <= i < |x[1..]| - 1 ==> x[1..][i] != '\n'
  {
    assert forall i :: 0 <= i < |x| - 1 ==> x[1..][i] == x[i + 1];
  }

  /** One non-empty line gets its marker in front. */
  lemma MarkedLine(line: string, marker: string)
    requires |line| > 0 && line[0] != '\n'
    requires forall i :: 0 <= i < |line| - 1 ==> line[i] != '\n'
    ensures Marked(line, marker, true) == marker + line
  {
    NoInnerNewlineTail(line);
    MarkedNoLineStart(line[1..], marker);
    Seqs.SplitFirst(line);
    Seqs.AppendAssoc(marker, [line[0]], line[1..]);
  }

  /** The last character survives marking. */
  lemma MarkedLast(t: string, marker: string, atStart: bool)
    requires |t| > 0
    ensures |Marked(t, marker, atStart)| > 0
    ensures Marked(t, marker, atStart)[|Marked(t, marker, atStart)| - 1] == t[|t| - 1]
  {
    var n := |t| - 1;
    assert t == t[..n] + [t[n]];
    MarkedAppend(t[..n], [t[n]], marker, atStart);
  }

  /** A text of whole lines stays one once marked. */
  lemma MarkedEndsLine(t: string, marker: string)
    requires t == [] || t[|t| - 1] == '\n'
    ensures var m := Marked(t, marker, true); m == [] || m[|m| - 1] == '\n'
  {
    if t != [] {
      MarkedLast(t, marker, true);
    }
  }

  /** One marked line reads back as itself or as nothing. */
  lemma ExtractMarkedLine(line: string, op: Operation, side: Operation)
    requires |line| > 0
    requires forall i :: 0 <= i < |line| - 1 ==> line[i] != '\n'
    ensures ExtractSide(Marker(op) + line, side) == if Keeps(op, side) then line else []
  {
    var head := Marker(op) + line;
    assert forall i :: 0 <= i < |head| - 1 ==> head[i] != '\n' by {
      assert forall i :: 2 <= i < |head| ==> head[i] == line[i - 2];
    }
    assert LineEnd(head) == |head|;
    assert head[..|head|] == head && head[|head|..] == [];
    assert head[..2] == Marker(op) && head[2..] == line;
  }

  /** The text after the first line has no empty line either. */
  lemma NoEmptyLinesRest(t: string, e: nat)
    requires NoEmptyLines(t)
    requires 0 < e <= |t| && t[e - 1] == '\n'
    ensures NoEmptyLines(t[e..])
  {
    var rest := t[e..];
    forall i | 0 <= i < |rest| && rest[i] == '\n'
      ensures i > 0 && rest[i - 1] != '\n'
    {
      assert rest[i] == t[e + i];
      if i > 0 {
        assert rest[i - 1] == t[e + i - 1];
      }
    }
  }

  /** The first line of a text without empty lines is non-empty, has no
      inner newline and, unless it is the whole text, ends with one. */
  lemma FirstLine(t: string)
    requires t != [] && NoEmptyLines(t)
    ensures var line := t[..LineEnd(t)];
      && |line| > 0 && line[0] != '\n'
      && (forall i :: 0 <= i < |line| - 1 ==> line[i] != '\n')
      && (LineEnd(t) < |t| ==> line[|line| - 1] == '\n')
  {
    var e := LineEnd(t);
    assert forall i :: 0 <= i < e ==> t[..e][i] == t[i];
  }

  /** Reading back a marked text of whole lines gives the text itself when
      its marker belongs to the side, and nothing otherwise. */
  lemma {:induction false} ExtractMarked(t: string, op: Operation, side: Operation)
    requires NoEmptyLines(t)
    ensures ExtractSide(Marked(t, Marker(op), true), side) == if Keeps(op, side) then t else []
    decreases |t|
  {
    var m := Marker(op);
    if t != [] {
      var e := LineEnd(t);
      var line := t[..e];
      var rest := t[e..];
      FirstLine(t);
      Seqs.SplitAt(t, e);
      MarkedAppend(line, rest, m, true);
      MarkedLine(line, m);
      ExtractMarkedLine(line, op, side);
      if e < |t| {
        NoEmptyLinesRest(t, e);
        ExtractMarked(rest, op, side);
        Seqs.AppendInit(m, line);
        ExtractAppend(m + line, Marked(rest, m, true), side);
        Seqs.AppendEmpty<char>([]);
      } else {
        Seqs.AppendEmpty(line);
        Seqs.AppendEmpty(m + line);
      }
    }
  }

  /** Without colour or redaction, rendering is marking, one segment after
      another. */
  lemma PlainCons(diffs: seq<Segment>)
    requires diffs != []
    ensures FormatDiff(diffs, false, false)
      == Marked(diffs[0].text, Marker(diffs[0].op), true) + FormatDiff(diffs[1..], false, false)
  {
    PlainSegment(diffs[0]);
  }

  lemma PlainSegment(seg: Segment)
    ensures RenderSegment(seg, false, false) == Marked(seg.text, Marker(seg.op), true)
  {
    if seg.op != DiffEqual {
      Seqs.AppendEmpty(Marked(seg.text, Marker(seg.op), true));
    }
  }

  /** The segments after the first are whole lines too. */
  lemma LineAlignedTail(diffs: seq<Segment>)
    requires diffs != [] && LineAligned(diffs)
    ensures LineAligned(diffs[1..])
  {
    assert forall i :: 0 <= i < |diffs| - 1 ==> diffs[1..][i] == diffs[i + 1];
  }

  lemma FirstSegmentEndsLine(diffs: seq<Segment>)
    requires |diffs| > 1 && LineAligned(diffs)
    ensures diffs[0].text == [] || diffs[0].text[|diffs[0].text| - 1] == '\n'
  {
  }

  lemma SideTextCons(diffs: seq<Segment>, side: Operation)
    requires diffs != []
    ensures SideText(diffs, side)
      == (if Keeps(diffs[0].op, side) then diffs[0].text else []) + SideText(diffs[1..], side)
  {
  }

  /** The rendered diff, read back for one side, gives that side's text:
      with a sound line diff, the "- "/"  " lines spell the live text and
      the "+ "/"  " lines the config text. */
  lemma {:induction false} RenderRoundTrip(diffs: seq<Segment>, side: Operation)
    requires side != DiffEqual
    requires LineAligned(diffs)
    ensures ExtractSide(FormatDiff(diffs, false, false), side) == SideText(diffs, side)
    decreases |diffs|
  {
    if diffs != [] {
      var seg := diffs[0];
      var head := Marked(seg.text, Marker(seg.op), true);
      var rest := FormatDiff(diffs[1..], false, false);
      PlainCons(diffs);
      SideTextCons(diffs, side);
      ExtractMarked(seg.text, seg.op, side);
      LineAlignedTail(diffs);
      RenderRoundTrip(diffs[1..], side);
      if |diffs| == 1 {
        assert diffs[1..] == [];
        Seqs.AppendEmpty(head);
        Seqs.AppendEmpty(if Keeps(seg.op, side) then seg.text else []);
      } else {
        FirstSegmentEndsLine(diffs);
        MarkedEndsLine(seg.text, Marker(seg.op));
        ExtractAppend(head, rest, side);
      }
    }
  }
}
