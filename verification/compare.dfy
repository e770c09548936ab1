/**
 Per-object comparison: diffOne in pkg/kubecfg/diff.go. The server lookup,
 the JSON serialiser and the line-diff algorithm are collaborators outside
 this model; their outcomes are inputs (a Lookup, and the functions
 marshal and lineDiff).
 */
module Compare {
  import opened Wrappers
  import opened JsonValues
  import opened Masking
  import opened Render
  import opened Sides

  /** difference: the outcome of comparing a local object with the server. */
  datatype Difference = DifferenceNone | DifferenceError | DifferenceOnlyLocal | DifferenceDifferent

  /** diffRes: the object's description, the outcome, the rendered diff
      (for DifferenceDifferent) and the error (for DifferenceError). */
  datatype DiffRes = DiffRes(desc: string, diff: Difference, details: string, err: Option<string>)

  /** The options of DiffCmd that the comparison and the report read. */
  datatype DiffCmd = DiffCmd(omitSecrets: bool, omitSame: bool, diffStrategy: string)

  /** A local object: its kind, its name and its content. */
  datatype LocalObject = LocalObject(kind: string, name: string, content: map<string, Json>)

  /** The outcome of fetching the object from the server. */
  datatype FetchResult = Fetched(live: map<string, Json>) | NotFound | FetchFailed(msg: string)

  /** What the collaborators report about one object: the resource name of
      its kind, its qualified name, whether a client for it could be made,
      and the fetch outcome. */
  datatype Lookup = Lookup(resourceName: string, fqName: string, clientErr: Option<string>, fetch: FetchResult)

  /** The description used in every outcome, e.g. "pods default.x". */
  function Desc(env: Lookup): string
  {
    env.resourceName + " " + env.fqName
  }

  function NoNameMessage(resourceName: string): string
  {
    "Error fetching one of the " + resourceName + ": it does not have a name set"
  }

  function FetchErrorMessage(desc: string, err: string): string
  {
    "Error fetching " + desc + ": " + err
  }

  /** The live object as compared: masked by the declared object only under
      the "subset" strategy. */
  function Compared(c: DiffCmd, obj: LocalObject, live: map<string, Json>): (r: map<string, Json>)
    ensures c.diffStrategy != "subset" ==> r == live
    ensures c.diffStrategy == "subset" ==> r.Keys <= obj.content.Keys
    ensures c.diffStrategy == "subset" ==> (r == obj.content <==> Covers(Obj(obj.content), Obj(live)))
  {
    if c.diffStrategy == "subset" then
      MaskedEqualsConfigIffCovers(Obj(obj.content), Obj(live));
      RemoveMapFields(obj.content, live)
    else live
  }

  /** The segments diffOne classifies: live text first, config text second. */
  function Segments(c: DiffCmd, obj: LocalObject, live: map<string, Json>,
                    marshal: Json -> string, lineDiff: (string, string) -> seq<Segment>): seq<Segment>
  {
    lineDiff(marshal(Obj(Compared(c, obj, live))), marshal(Obj(obj.content)))
  }

  /** A single Equal segment: the diff found nothing to report. */
  predicate IsUnchanged(diffs: seq<Segment>)
  {
    |diffs| == 1 && diffs[0].op == DiffEqual
  }

  /** Secrets are redacted only when asked for and only for kind Secret. */
  function Redacts(c: DiffCmd, obj: LocalObject): bool
  {
    c.omitSecrets && obj.kind == "Secret"
  }

  /** diffOne. */
  function DiffOne(c: DiffCmd, obj: LocalObject, env: Lookup, marshal: Json -> string,
                   lineDiff: (string, string) -> seq<Segment>, tty: bool): (r: DiffRes)
    ensures r.desc == Desc(env)
    ensures r.diff == DifferenceError <==> r.err.Some?
    ensures r.diff != DifferenceDifferent ==> r.details == ""
    ensures env.clientErr.Some? ==> r.diff == DifferenceError && r.err == env.clientErr
    ensures env.clientErr.None? && obj.name == "" ==>
      r.diff == DifferenceError && r.err == Some(NoNameMessage(env.resourceName))
    ensures env.clientErr.None? && obj.name != "" ==>
      && (r.diff == DifferenceOnlyLocal <==> env.fetch.NotFound?)
      && (env.fetch.FetchFailed? ==> r.err == Some(FetchErrorMessage(Desc(env), env.fetch.msg)))
      && (env.fetch.Fetched? ==>
            var diffs := Segments(c, obj, env.fetch.live, marshal, lineDiff);
            && (r.diff == DifferenceNone <==> IsUnchanged(diffs))
            && (r.diff != DifferenceNone ==>
                  r.diff == DifferenceDifferent && r.details == FormatDiff(diffs, tty, Redacts(c, obj))))
  {
    var desc := Desc(env);
    if env.clientErr.Some? then
      DiffRes(desc, DifferenceError, "", env.clientErr)
    else if obj.name == "" then
      DiffRes(desc, DifferenceError, "", Some(NoNameMessage(env.resourceName)))
    else
      match env.fetch
      case NotFound => DiffRes(desc, DifferenceOnlyLocal, "", None)
      case FetchFailed(err) => DiffRes(desc, DifferenceError, "", Some(FetchErrorMessage(desc, err)))
      case Fetched(live) =>
        var diffs := Segments(c, obj, live, marshal, lineDiff);
        if IsUnchanged(diffs) then DiffRes(desc, DifferenceNone, "", None)
        else DiffRes(desc, DifferenceDifferent, FormatDiff(diffs, tty, Redacts(c, obj)), None)
  }

  /** An object without a name is rejected before anything is fetched: the
      outcome does not depend on what the server would have said. */
  lemma NoNameIsNotFetched(c: DiffCmd, obj: LocalObject, env: Lookup, other: FetchResult,
                           marshal: Json -> string, lineDiff: (string, string) -> seq<Segment>, tty: bool)
    requires obj.name == ""
    ensures DiffOne(c, obj, env, marshal, lineDiff, tty) == DiffOne(c, obj, env.(fetch := other), marshal, lineDiff, tty)
  {
  }

  /** The line diff is sound for texts a (live) and b (config): its Delete
      and Equal segments spell a, its Insert and Equal segments spell b. */
  predicate SoundDiff(diffs: seq<Segment>, a: string, b: string)
  {
    SideText(diffs, DiffDelete) == a && SideText(diffs, DiffInsert) == b
  }

  /** With a sound line diff, an object found unchanged serialises exactly
      like its declared form once compared. */
  lemma UnchangedMeansSameText(c: DiffCmd, obj: LocalObject, live: map<string, Json>,
                               marshal: Json -> string, lineDiff: (string, string) -> seq<Segment>)
    requires SoundDiff(Segments(c, obj, live, marshal, lineDiff),
                       marshal(Obj(Compared(c, obj, live))), marshal(Obj(obj.content)))
    requires IsUnchanged(Segments(c, obj, live, marshal, lineDiff))
    ensures marshal(Obj(Compared(c, obj, live))) == marshal(Obj(obj.content))
  {
    var diffs := Segments(c, obj, live, marshal, lineDiff);
    assert diffs[1..] == [];
    assert SideText(diffs, DiffDelete) == diffs[0].text;
    assert SideText(diffs, DiffInsert) == diffs[0].text;
  }

  /** Under the full strategy, a live object that differs from the declared
      one (an extra status field, say) is reported as different, provided
      the serialiser tells the two apart and the line diff is sound. */
  lemma FullStrategyReportsDrift(c: DiffCmd, obj: LocalObject, env: Lookup,
                                 marshal: Json -> string, lineDiff: (string, string) -> seq<Segment>, tty: bool)
    requires c.diffStrategy != "subset"
    requires env.clientErr.None? && obj.name != "" && env.fetch.Fetched?
    requires marshal(Obj(env.fetch.live)) != marshal(Obj(obj.content))
    requires SoundDiff(Segments(c, obj, env.fetch.live, marshal, lineDiff),
                       marshal(Obj(env.fetch.live)), marshal(Obj(obj.content)))
    ensures DiffOne(c, obj, env, marshal, lineDiff, tty).diff == DifferenceDifferent
  {
    var diffs := Segments(c, obj, env.fetch.live, marshal, lineDiff);
    if IsUnchanged(diffs) {
      UnchangedMeansSameText(c, obj, env.fetch.live, marshal, lineDiff);
    }
  }

  /** The converse of UnchangedMeansSameText, for every strategy: when the
      compared live text and the config text are the same, and the line
      diff returns one Equal segment for two identical texts (as go-diff
      does for non-empty texts), the object is reported unchanged. */
  lemma SameTextIsUnchanged(c: DiffCmd, obj: LocalObject, env: Lookup,
                            marshal: Json -> string, lineDiff: (string, string) -> seq<Segment>, tty: bool)
    requires env.clientErr.None? && obj.name != "" && env.fetch.Fetched?
    requires var text := marshal(Obj(obj.content));
      && marshal(Obj(Compared(c, obj, env.fetch.live))) == text
      && lineDiff(text, text) == [Segment(DiffEqual, text)]
    ensures DiffOne(c, obj, env, marshal, lineDiff, tty).diff == DifferenceNone
  {
    var text := marshal(Obj(obj.content));
    assert Segments(c, obj, env.fetch.live, marshal, lineDiff) == [Segment(DiffEqual, text)];
  }

  /** Under the subset strategy, a live object that covers the declared one
      (extra server-side fields, empty declared fields the server left out)
      is reported unchanged, given that the line diff returns one Equal
      segment for two identical texts. */
  lemma SubsetIgnoresServerFields(c: DiffCmd, obj: LocalObject, env: Lookup,
                                  marshal: Json -> string, lineDiff: (string, string) -> seq<Segment>, tty: bool)
    requires c.diffStrategy == "subset"
    requires env.clientErr.None? && obj.name != "" && env.fetch.Fetched?
    requires Covers(Obj(obj.content), Obj(env.fetch.live))
    requires var text := marshal(Obj(obj.content));
      lineDiff(text, text) == [Segment(DiffEqual, text)]
    ensures DiffOne(c, obj, env, marshal, lineDiff, tty).diff == DifferenceNone
  {
    assert Compared(c, obj, env.fetch.live) == obj.content;
    SameTextIsUnchanged(c, obj, env, marshal, lineDiff, tty);
  }

  /** The details of a difference, rendered without colour or redaction,
      give back both serialised texts: the "- " and "  " lines the live
      text, the "+ " and "  " lines the declared text. */
  lemma DetailsRoundTrip(c: DiffCmd, obj: LocalObject, env: Lookup,
                         marshal: Json -> string, lineDiff: (string, string) -> seq<Segment>)
    requires env.clientErr.None? && obj.name != "" && env.fetch.Fetched?
    requires !Redacts(c, obj)
    requires var diffs := Segments(c, obj, env.fetch.live, marshal, lineDiff);
      && LineAligned(diffs)
      && SoundDiff(diffs, marshal(Obj(Compared(c, obj, env.fetch.live))), marshal(Obj(obj.content)))
    requires DiffOne(c, obj, env, marshal, lineDiff, false).diff == DifferenceDifferent
    ensures var details := DiffOne(c, obj, env, marshal, lineDiff, false).details;
      && ExtractSide(details, DiffDelete) == marshal(Obj(Compared(c, obj, env.fetch.live)))
      && ExtractSide(details, DiffInsert) == marshal(Obj(obj.content))
  {
    var diffs := Segments(c, obj, env.fetch.live, marshal, lineDiff);
    RenderRoundTrip(diffs, DiffDelete);
    RenderRoundTrip(diffs, DiffInsert);
  }
}
