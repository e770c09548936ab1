/**
 Line-start marking: the substitution DiffLineStart.ReplaceAllString(text,
 "$1" + marker + "$2") in pkg/kubecfg/diff.go, with DiffLineStart the
 regular expression (^|\n)(.) in which `.` matches any character but a
 newline and `^` only the start of the text.
 */
module LineMarks {
  import Seqs

  /** Character i is the first character of a non-empty line. */
  predicate IsLineStart(text: string, i: int)
    requires 0 <= i < |text|
  {
    text[i] != '\n' && (i == 0 || text[i - 1] == '\n')
  }

  /** The substitution, as the regular-expression engine performs it:
      leftmost matches, scanned left to right, never overlapping. */
  function ReplaceLineStarts(text: string, marker: string): (r: string)
    ensures r == Marked(text, marker, true)
  {
    ScanFromIsMarked(text, marker, 0);
    assert text[0..] == text;
    ScanFrom(text, marker, 0)
  }

  /** The rest of the substitution once the scan has reached position p.
      At p the engine tries `^` followed by a non-newline (only at 0), then
      `\n` followed by a non-newline; on no match it copies one character. */
  function ScanFrom(text: string, marker: string, p: nat): string
    decreases |text| - p
  {
    if p >= |text| then []
    else if p == 0 && text[0] != '\n' then
      marker + [text[0]] + ScanFrom(text, marker, 1)
    else if text[p] == '\n' && p + 1 < |text| && text[p + 1] != '\n' then
      ['\n'] + marker + [text[p + 1]] + ScanFrom(text, marker, p + 2)
    else
      [text[p]] + ScanFrom(text, marker, p + 1)
  }

  /** Reference definition, one character at a time: the marker goes right
      before every non-newline character that opens a line; atStart says
      whether the previous character ended a line (or there was none). */
  function Marked(text: string, marker: string, atStart: bool): string
    decreases |text|
  {
    if text == [] then []
    else
      (if atStart && text[0] != '\n' then marker else []) + [text[0]]
      + Marked(text[1..], marker, text[0] == '\n')
  }

  /** Whether a line has just ended after reading `text` from state atStart. */
  function EndsLine(text: string, atStart: bool): bool
  {
    if text == [] then atStart else text[|text| - 1] == '\n'
  }

  /** One step of the reference definition. */
  lemma MarkedCons(text: string, marker: string, atStart: bool)
    requires |text| > 0
    ensures Marked(text, marker, atStart)
      == (if atStart && text[0] != '\n' then marker else []) + [text[0]] + Marked(text[1..], marker, text[0] == '\n')
  {
  }

  /** The scanner agrees with the reference definition from any position
      that is not the start of a line (or is the very beginning). */
  lemma {:induction false} ScanFromIsMarked(text: string, marker: string, p: nat)
    requires p <= |text|
    requires p == 0 || p == |text| || !IsLineStart(text, p)
    ensures ScanFrom(text, marker, p) == Marked(text[p..], marker, p == 0 || text[p - 1] == '\n')
    decreases |text| - p
  {
    if p == |text| {
      assert text[p..] == [];
    } else if p == 0 && text[0] != '\n' {
      ScanFromIsMarked(text, marker, 1);
      ScanFirstLine(text, marker);
    } else if text[p] == '\n' && p + 1 < |text| && text[p + 1] != '\n' {
      ScanFromIsMarked(text, marker, p + 2);
      ScanNewLine(text, marker, p);
    } else {
      ScanFromIsMarked(text, marker, p + 1);
      ScanCopy(text, marker, p);
    }
  }

  /** The match of `^` and a first character. */
  lemma ScanFirstLine(text: string, marker: string)
    requires |text| > 0 && text[0] != '\n'
    requires ScanFrom(text, marker, 1) == Marked(text[1..], marker, false)
    ensures ScanFrom(text, marker, 0) == Marked(text[0..], marker, true)
  {
    assert text[0..] == text;
    MarkedCons(text, marker, true);
  }

  /** The match of a newline and the character after it. */
  lemma ScanNewLine(text: string, marker: string, p: nat)
    requires p + 1 < |text| && text[p] == '\n' && text[p + 1] != '\n'
    requires ScanFrom(text, marker, p + 2) == Marked(text[p + 2..], marker, false)
    ensures ScanFrom(text, marker, p) == Marked(text[p..], marker, p == 0 || text[p - 1] == '\n')
  {
    var flag := p == 0 || text[p - 1] == '\n';
    Seqs.SuffixCons(text, p);
    Seqs.SuffixCons(text, p + 1);
    MarkedCons(text[p..], marker, flag);
    MarkedCons(text[p + 1..], marker, true);
    var m := Marked(text[p + 2..], marker, false);
    Seqs.AppendEmpty(['\n']);
    Seqs.AppendAssoc(['\n'], marker + [text[p + 1]], m);
    Seqs.AppendAssoc(['\n'], marker, [text[p + 1]]);
  }

  /** No match at p: one character is copied. */
  lemma ScanCopy(text: string, marker: string, p: nat)
    requires p < |text| && !IsLineStart(text, p)
    requires !(text[p] == '\n' && p + 1 < |text| && text[p + 1] != '\n')
    requires ScanFrom(text, marker, p + 1) == Marked(text[p + 1..], marker, text[p] == '\n')
    ensures ScanFrom(text, marker, p) == Marked(text[p..], marker, p == 0 || text[p - 1] == '\n')
  {
    var flag := p == 0 || text[p - 1] == '\n';
    assert !(flag && text[p] != '\n');
    Seqs.SuffixCons(text, p);
    MarkedCons(text[p..], marker, flag);
    Seqs.AppendEmpty([text[p]]);
  }

  /** Reading the first character and then the rest ends in the same line
      state as reading the whole text. */
  lemma EndsLineTail(a: string, atStart: bool)
    requires |a| > 0
    ensures EndsLine(a[1..], a[0] == '\n') == EndsLine(a, atStart)
  {
    if |a| > 1 {
      assert a[1..][|a| - 2] == a[|a| - 1];
    }
  }

  /** Marking distributes over concatenation, carrying the line state. */
  lemma {:induction false} MarkedAppend(a: string, b: string, marker: string, atStart: bool)
    ensures Marked(a + b, marker, atStart) == Marked(a, marker, atStart) + Marked(b, marker, EndsLine(a, atStart))
    decreases |a|
  {
    if a == [] {
      assert a + b == b;
    } else {
      Seqs.AppendTail(a, b);
      MarkedAppend(a[1..], b, marker, a[0] == '\n');
      EndsLineTail(a, atStart);
      var head := (if atStart && a[0] != '\n' then marker else []) + [a[0]];
      Seqs.AppendAssoc(head, Marked(a[1..], marker, a[0] == '\n'), Marked(b, marker, EndsLine(a, atStart)));
    }
  }

  /** Removes a marker found at the start of a line: the inverse of Marked. */
  function Unmark(s: string, marker: string, atStart: bool): string
    decreases |s|, if atStart then 1 else 0
  {
    if s == [] then []
    else if atStart && |marker| <= |s| && s[..|marker|] == marker then
      Unmark(s[|marker|..], marker, false)
    else
      [s[0]] + Unmark(s[1..], marker, s[0] == '\n')
  }

  /** Deleting the inserted markers gives back the original text, for any
      marker that does not itself start with a newline. */
  lemma {:induction false} UnmarkMarked(text: string, marker: string, atStart: bool)
    requires marker == [] || marker[0] != '\n'
    ensures Unmark(Marked(text, marker, atStart), marker, atStart) == text
    decreases |text|
  {
    if text != [] {
      var rest := Marked(text[1..], marker, text[0] == '\n');
      UnmarkMarked(text[1..], marker, text[0] == '\n');
      if atStart && text[0] != '\n' {
        var s := marker + [text[0]] + rest;
        assert s[..|marker|] == marker;
        assert s[|marker|..] == [text[0]] + rest;
        assert ([text[0]] + rest)[1..] == rest;
      } else {
        var s := [text[0]] + rest;
        assert s[1..] == rest;
        if atStart && marker == [] {
          assert s[|marker|..] == s;
        }
      }
    } else {
      // nothing to mark and nothing to remove
    }
  }
}
