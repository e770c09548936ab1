/**
 The report: Run in pkg/kubecfg/diff.go compares every object in turn,
 writes a section per object and returns ErrDiffFound when some object is
 missing on the server or differs from it.
 */
module Report {
  import opened Wrappers
  import opened JsonValues
  import opened Render
  import opened Compare
  import Seqs

  /** The message of ErrDiffFound. */
  const ErrDiffFound: string := "Differences found."

  /** The object header: a separator line, then the live and config labels. */
  function Header(desc: string): (h: string)
    ensures |h| == 2 * |desc| + 22
    ensures h[..4] == "---\n"
    ensures h[4..11] == "- live " && h[11..11 + |desc|] == desc
    ensures h[11 + |desc|..21 + |desc|] == "\n+ config " && h[21 + |desc|..|h| - 1] == desc
    ensures h[|h| - 1] == '\n'
  {
    "---\n" + "- live " + desc + "\n+ config " + desc + "\n"
  }

  /** How Go's %v prints an error value, nil included. */
  function ErrorText(err: Option<string>): string
  {
    err.GetOr("<nil>")
  }

  /** The outcomes that count as a difference for the run's result. */
  predicate IsDifference(r: DiffRes)
  {
    r.diff == DifferenceOnlyLocal || r.diff == DifferenceDifferent
  }

  /** Some result counts as a difference. */
  predicate AnyDifference(results: seq<DiffRes>)
  {
    exists i :: 0 <= i < |results| && IsDifference(results[i])
  }

  lemma AnyDifferencePrefix(results: seq<DiffRes>, i: nat)
    requires i < |results|
    ensures AnyDifference(results[..i + 1]) <==> AnyDifference(results[..i]) || IsDifference(results[i])
  {
    var p := results[..i + 1];
    assert p[i] == results[i];
    assert forall j :: 0 <= j < i ==> p[j] == results[..i][j];
  }

  /** What Run writes for one comparison result. */
  function Section(r: DiffRes, omitSame: bool): (out: string)
    ensures r.diff == DifferenceError ==> out == ErrorText(r.err) + "\n"
    ensures r.diff == DifferenceNone ==> out == (if omitSame then "" else Header(r.desc))
    ensures IsDifference(r) ==> |out| > |Header(r.desc)| && out[..|Header(r.desc)|] == Header(r.desc)
    ensures r.diff == DifferenceOnlyLocal ==> out[|Header(r.desc)|..] == r.desc + " doesn't exist on server\n"
    ensures r.diff == DifferenceDifferent ==> out[|Header(r.desc)|..] == r.details + "\n"
  {
    match r.diff
    case DifferenceNone => if !omitSame then Header(r.desc) else ""
    case DifferenceError => ErrorText(r.err) + "\n"
    case DifferenceOnlyLocal =>
      var rest := r.desc + " doesn't exist on server\n";
      Seqs.ConcatParts(Header(r.desc), rest);
      Header(r.desc) + rest
    case DifferenceDifferent =>
      var rest := r.details + "\n";
      Seqs.ConcatParts(Header(r.desc), rest);
      Header(r.desc) + rest
  }

  /** The whole report for results in order: the sections one after the other. */
  function ReportText(results: seq<DiffRes>, omitSame: bool): (r: string)
    ensures r == "" <==> results == [] || (omitSame && forall i :: 0 <= i < |results| ==> results[i].diff == DifferenceNone)
  {
    if results == [] then ""
    else ReportText(results[..|results| - 1], omitSame) + Section(results[|results| - 1], omitSame)
  }

  /** The comparison results of the objects, in the order given. */
  function Results(c: DiffCmd, objs: seq<(LocalObject, Lookup)>, marshal: Json -> string,
                   lineDiff: (string, string) -> seq<Segment>, tty: bool): seq<DiffRes>
  {
    seq(|objs|, i requires 0 <= i < |objs| => DiffOne(c, objs[i].0, objs[i].1, marshal, lineDiff, tty))
  }

  /** Run: one section per object, in order, and ErrDiffFound exactly when
      some object is only local or different; errors alone never make the
      run report differences. */
  method Run(c: DiffCmd, objs: seq<(LocalObject, Lookup)>, marshal: Json -> string,
             lineDiff: (string, string) -> seq<Segment>, tty: bool) returns (out: string, err: Option<string>)
    ensures out == ReportText(Results(c, objs, marshal, lineDiff, tty), c.omitSame)
    ensures err == None || err == Some(ErrDiffFound)
    ensures err.Some? <==> AnyDifference(Results(c, objs, marshal, lineDiff, tty))
  {
    ghost var rs := Results(c, objs, marshal, lineDiff, tty);
    out := "";
    var diffFound := false;
    for i := 0 to |objs|
      invariant out == ReportText(rs[..i], c.omitSame)
      invariant diffFound <==> AnyDifference(rs[..i])
    {
      var o := DiffOne(c, objs[i].0, objs[i].1, marshal, lineDiff, tty);
      assert o == rs[i];
      ReportPrefix(rs, i, c.omitSame);
      AnyDifferencePrefix(rs, i);
      out := out + Section(o, c.omitSame);
      if IsDifference(o) {
        diffFound := true;
      }
    }
    assert rs[..|objs|] == rs;
    if diffFound {
      return out, Some(ErrDiffFound);
    }
    return out, None;
  }

  /** The report of the first i + 1 results extends that of the first i. */
  lemma ReportPrefix(results: seq<DiffRes>, i: nat, omitSame: bool)
    requires i < |results|
    ensures ReportText(results[..i + 1], omitSame) == ReportText(results[..i], omitSame) + Section(results[i], omitSame)
  {
    assert results[..i + 1][..i] == results[..i];
  }

  /** One step of ReportText. */
  lemma ReportSnoc(results: seq<DiffRes>, omitSame: bool)
    requires results != []
    ensures ReportText(results, omitSame)
      == ReportText(results[..|results| - 1], omitSame) + Section(results[|results| - 1], omitSame)
  {
  }

  /** Writing two runs of results one after the other writes their reports
      one after the other. */
  lemma {:induction false} ReportAppend(a: seq<DiffRes>, b: seq<DiffRes>, omitSame: bool)
    ensures ReportText(a + b, omitSame) == ReportText(a, omitSame) + ReportText(b, omitSame)
    decreases |b|
  {
    if b == [] {
      Seqs.AppendEmpty(a);
      Seqs.AppendEmpty(ReportText(a, omitSame));
    } else {
      var n := |b| - 1;
      Seqs.AppendInit(a, b);
      ReportSnoc(a + b, omitSame);
      ReportSnoc(b, omitSame);
      ReportAppend(a, b[..n], omitSame);
      Seqs.AppendAssoc(ReportText(a, omitSame), ReportText(b[..n], omitSame), Section(b[n], omitSame));
    }
  }

  /** The results that are not DifferenceNone, in order. */
  function Noticeable(results: seq<DiffRes>): (r: seq<DiffRes>)
    ensures forall i :: 0 <= i < |r| ==> r[i].diff != DifferenceNone
    ensures |r| <= |results|
  {
    if results == [] then []
    else
      var last := results[|results| - 1];
      Noticeable(results[..|results| - 1]) + (if last.diff == DifferenceNone then [] else [last])
  }

  /** With OmitSame, unchanged objects leave no trace in the report. */
  lemma {:induction false} OmitSameDropsUnchanged(results: seq<DiffRes>)
    ensures ReportText(results, true) == ReportText(Noticeable(results), true)
    decreases |results|
  {
    if results != [] {
      var n := |results| - 1;
      OmitSameDropsUnchanged(results[..n]);
      var last := if results[n].diff == DifferenceNone then [] else [results[n]];
      ReportAppend(Noticeable(results[..n]), last, true);
      if last != [] {
        assert last[..0] == [];
      }
    }
  }

  /** A run whose results are all errors prints one error line per result
      and no header: the report is the error lines alone. */
  function ErrorLines(results: seq<DiffRes>): string
  {
    if results == [] then ""
    else ErrorLines(results[..|results| - 1]) + ErrorText(results[|results| - 1].err) + "\n"
  }

  lemma {:induction false} ErrorsPrintOnlyMessages(results: seq<DiffRes>, omitSame: bool)
    requires forall i :: 0 <= i < |results| ==> results[i].diff == DifferenceError
    ensures ReportText(results, omitSame) == ErrorLines(results)
    decreases |results|
  {
    if results != [] {
      ErrorsPrintOnlyMessages(results[..|results| - 1], omitSame);
    }
  }

  /** Scenario: a declared object the server does not have. The report is
      its header and the "doesn't exist on server" line, and it counts as a
      difference. */
  lemma MissingObjectScenario(c: DiffCmd, obj: LocalObject, env: Lookup, marshal: Json -> string,
                              lineDiff: (string, string) -> seq<Segment>, tty: bool)
    requires env.clientErr.None? && obj.name != "" && env.fetch.NotFound?
    ensures var r := DiffOne(c, obj, env, marshal, lineDiff, tty);
      && IsDifference(r)
      && ReportText([r], c.omitSame) == Header(Desc(env)) + Desc(env) + " doesn't exist on server\n"
  {
    var r := DiffOne(c, obj, env, marshal, lineDiff, tty);
    assert [r][..0] == [];
  }

  /** Scenario: an object identical on both sides. It gets a bare header,
      or nothing with OmitSame, and does not count as a difference. */
  lemma UnchangedObjectScenario(c: DiffCmd, obj: LocalObject, env: Lookup, marshal: Json -> string,
                                lineDiff: (string, string) -> seq<Segment>, tty: bool)
    requires env.clientErr.None? && obj.name != "" && env.fetch.Fetched?
    requires IsUnchanged(Segments(c, obj, env.fetch.live, marshal, lineDiff))
    ensures var r := DiffOne(c, obj, env, marshal, lineDiff, tty);
      && !IsDifference(r)
      && ReportText([r], c.omitSame) == (if c.omitSame then "" else Header(Desc(env)))
  {
    var r := DiffOne(c, obj, env, marshal, lineDiff, tty);
    assert [r][..0] == [];
  }
}
