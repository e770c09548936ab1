/**
 Diff rendering: formatDiff in pkg/kubecfg/diff.go turns the segments of a
 line diff into a unified-diff-like text with unlimited context, optional
 colour and optional redaction.
 */
module Render {
  import opened LineMarks
  import opened Redaction

  /** The operation of a diff segment (DiffDelete, DiffInsert and DiffEqual
      of the go-diff library): a run of lines only in the first (live)
      text, only in the second (config) text, or in both. */
  datatype Operation = DiffDelete | DiffInsert | DiffEqual

  datatype Segment = Segment(op: Operation, text: string)

  /** ANSI escape sequences: green, red, and back to normal. */
  const Green: string := "\U{1B}[32m"
  const Red: string := "\U{1B}[31m"
  const Reset: string := "\U{1B}[0m"

  /** The line marker of each operation. */
  function Marker(op: Operation): string
  {
    match op
    case DiffInsert => "+ "
    case DiffDelete => "- "
    case DiffEqual => "  "
  }

  /** What formatDiff appends to its buffer for one segment. With
      omitchanges the text is redacted first and Equal segments are dropped;
      with color inserted and deleted runs are wrapped in colour codes. */
  function RenderSegment(seg: Segment, color: bool, omitchanges: bool): (r: string)
    ensures seg.op == DiffEqual ==>
      r == if omitchanges then "" else Marked(seg.text, Marker(DiffEqual), true)
    ensures seg.op != DiffEqual ==>
      var text := if omitchanges then Redact(seg.text) else seg.text;
      var open := if !color then "" else if seg.op == DiffInsert then Green else Red;
      r == open + Marked(text, Marker(seg.op), true) + (if color then Reset else "")
  {
    var text := if omitchanges then Redact(seg.text) else seg.text;
    match seg.op
    case DiffInsert =>
      (if color then Green else "") + ReplaceLineStarts(text, "+ ") + (if color then Reset else "")
    case DiffDelete =>
      (if color then Red else "") + ReplaceLineStarts(text, "- ") + (if color then Reset else "")
    case DiffEqual =>
      if !omitchanges then ReplaceLineStarts(text, "  ") else ""
  }

  /** formatDiff: the rendered segments, in order. */
  function FormatDiff(diffs: seq<Segment>, color: bool, omitchanges: bool): (r: string)
    ensures |diffs| == 1 ==> r == RenderSegment(diffs[0], color, omitchanges)
    ensures omitchanges && (forall i :: 0 <= i < |diffs| ==> diffs[i].op == DiffEqual) ==> r == ""
  {
    if diffs == [] then ""
    else RenderSegment(diffs[0], color, omitchanges) + FormatDiff(diffs[1..], color, omitchanges)
  }

  /** Rendering two runs of segments one after the other writes their
      renderings one after the other. */
  lemma {:induction false} FormatDiffAppend(a: seq<Segment>, b: seq<Segment>, color: bool, omitchanges: bool)
    ensures FormatDiff(a + b, color, omitchanges) == FormatDiff(a, color, omitchanges) + FormatDiff(b, color, omitchanges)
    decreases |a|
  {
    if a == [] {
      assert a + b == b;
    } else {
      assert (a + b)[0] == a[0];
      assert (a + b)[1..] == a[1..] + b;
      FormatDiffAppend(a[1..], b, color, omitchanges);
    }
  }

  /** The segments that are not Equal, in order. */
  function Changes(diffs: seq<Segment>): (r: seq<Segment>)
    ensures forall i :: 0 <= i < |r| ==> r[i].op != DiffEqual
    ensures |r| <= |diffs|
  {
    if diffs == [] then []
    else (if diffs[0].op == DiffEqual then [] else [diffs[0]]) + Changes(diffs[1..])
  }

  /** With omitchanges, Equal segments contribute nothing: the output is
      that of the changed segments alone. */
  lemma {:induction false} OmitChangesDropsEqual(diffs: seq<Segment>, color: bool)
    ensures FormatDiff(diffs, color, true) == FormatDiff(Changes(diffs), color, true)
    decreases |diffs|
  {
    if diffs != [] {
      OmitChangesDropsEqual(diffs[1..], color);
      var head := if diffs[0].op == DiffEqual then [] else [diffs[0]];
      FormatDiffAppend(head, Changes(diffs[1..]), color, true);
      if head != [] {
        assert head[1..] == [];
      }
    }
  }

  /** Colour only wraps: with color on, each inserted or deleted run is the
      uncoloured run between an opening colour code and the reset code, and
      context lines are unchanged. */
  lemma ColorOnlyWraps(seg: Segment, omitchanges: bool)
    ensures seg.op == DiffEqual ==> RenderSegment(seg, true, omitchanges) == RenderSegment(seg, false, omitchanges)
    ensures seg.op == DiffInsert ==> RenderSegment(seg, true, omitchanges) == Green + RenderSegment(seg, false, omitchanges) + Reset
    ensures seg.op == DiffDelete ==> RenderSegment(seg, true, omitchanges) == Red + RenderSegment(seg, false, omitchanges) + Reset
  {
  }
}
