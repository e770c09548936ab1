# kubecfg diff, modelled in Dafny

This project models the core of kubecfg's `diff` command, found in
`pkg/kubecfg/diff.go`. It covers five pieces:

- **Subset masking.** `removeFields`, `removeMapFields` and
  `removeListFields` trim a live object to the shape of the declared object.
  Under the `subset` strategy, fields that the server adds do not show up as
  differences. A declared field the server leaves out survives only when its
  value is empty (`isEmptyValue`).
- **Line marking.** `DiffLineStart.ReplaceAllString` with the regular
  expression `(^|\n)(.)` puts the marker `"+ "`, `"- "` or `"  "` in front of
  every non-empty line of a segment.
- **Secret redaction.** `DiffKeyValue.ReplaceAllString` rewrites a
  `"key": "value"` pair, with its comma if one follows, to `key: <omitted>`.
  It does so only when the key is made of `[-._a-zA-Z0-9]` and the value of
  `[[:alnum:]=+]`. A value with any other character stays in clear. That
  includes a standard base64 value holding a `/`, which is common in Secret
  data (`RedactKeepsSlashValue`).
- **formatDiff.** This renders the segments of a line diff as one text, with
  optional colour codes and optional redaction.
- **diffOne and Run.** `diffOne` classifies one object as unchanged, an
  error, only local or different. `Run` writes a section per object and
  returns `ErrDiffFound` when some object is only local or different.

Each Go function becomes a pure function over immutable data. JSON values are
the `Json` datatype, and strings are `seq<char>`. The regular expressions are
written out as scanners:

- `ScanFrom` performs the line-start substitution. It is proved equal to the
  declarative `Marked`.
- `MatchAt` finds one match of the key/value pattern. It is proved to find
  the longest instance of the declarative `Shape`/`InPattern` that starts at
  the given position, and to find nothing when none starts there.
- `Redact`, the replace-all loop around `MatchAt`, has no declarative
  counterpart. Lemmas state what it does instead: it leaves a text without
  matches unchanged, it redacts the two sides of a clean line break
  independently, and it rewrites every pair line wherever it occurs.

The collaborators the command calls are inputs:

- **The server lookup.** The client, the REST mapper, `ResourceNameFor`,
  `FqName` and `client.Get` are a `Lookup` value.
- **The JSON serialiser.** `json.MarshalIndent` is the function `marshal`.
- **The line-diff algorithm.** The go-diff line mode is the function
  `lineDiff`.
- **The terminal check.** `isatty` is the boolean `tty`.

Properties that need the diff to be correct take that as a hypothesis
(`SoundDiff`, `LineAligned`).

The order of `diffOne`'s checks follows the code. It first builds the client
(lines 106-109), then rejects an object without a name (lines 111-113), and
only then fetches. A client error therefore wins over a missing name.

Modules:

- `Wrappers` (`Option`)
- `JsonValues` (`Json`, `IsEmptyValue`)
- `Masking`
- `LineMarks`
- `Redaction`
- `Render` (formatDiff)
- `Sides` (reading a rendered diff back)
- `Compare` (diffOne)
- `Report` (Run)
- `Seqs` (small sequence facts the proofs share)

## Model

| member | source | states |
|---|---|---|
| JsonValues.IsEmptyValue | pkg/kubecfg/diff.go:228-249 | A value is empty exactly when it is null, false, 0, "", the empty list or the empty map. |
| Masking.RemoveFields | pkg/kubecfg/diff.go:251-263 | Unless both sides are maps or both are lists, the live value is returned untouched. The result always has the live value's kind. |
| Masking.RemoveMapFields | pkg/kubecfg/diff.go:265-280 | Only declared keys remain. A key on both sides maps to the masked pair. A declared key missing live survives iff its declared value is empty, and then keeps that value. |
| Masking.RemoveListFields | pkg/kubecfg/diff.go:282-294 | The result has the live list's length. The first len(config) elements are masked pairwise, and any overflow live elements are copied verbatim. |
| Masking.ListFrom | pkg/kubecfg/diff.go:285-293 | What the append loop produces from index i on: one element per remaining live element, masked while a declared element exists, copied otherwise. |
| Masking.MaskedEqualsConfigIffCovers | pkg/kubecfg/diff.go:251-294 | Masking the live value yields the declared value iff the live value covers it: every declared field is present and equal, apart from empty declared values the server omits, with lists of equal length. |
| Masking.MaskSelf | pkg/kubecfg/diff.go:251-294 | Masking a value by itself returns it unchanged. |
| Masking.RemoveFieldsIdempotent | pkg/kubecfg/diff.go:251-294 | Masking an already masked live value by the same declared value changes nothing. |
| Masking.RemoveMapFieldsIdempotent | pkg/kubecfg/diff.go:265-280 | removeMapFields is idempotent for a fixed declared map. |
| LineMarks.ScanFromIsMarked | pkg/kubecfg/diff.go:42 | From any position that is not a line start, the leftmost, non-overlapping scan for (^\|\n)(.) produces the reference marking of the rest of the text. |
| LineMarks.ReplaceLineStarts | pkg/kubecfg/diff.go:42 | The substitution (`ReplaceAllString` at lines 205, 213 and 219) equals the reference marking: the marker goes right before every character that opens a non-empty line, and nowhere else. |
| LineMarks.MarkedAppend | pkg/kubecfg/diff.go:42 | Marking two texts one after the other equals marking their concatenation, with the line state carried across. |
| LineMarks.UnmarkMarked | pkg/kubecfg/diff.go:42 | Deleting the inserted markers gives back the original text, for any marker that does not begin with a newline. |
| Redaction.RunEnd | pkg/kubecfg/diff.go:44 | The end of the maximal run of key or value characters starting at p: all characters before it are in the class, and the one at it is not. |
| Redaction.MatchAtIsLongestMatch | pkg/kubecfg/diff.go:44 | When the scan finds a match at p, that match is an instance of the pattern and no longer one starts at p. When it finds none, no instance of the pattern starts at p. |
| Redaction.Redact | pkg/kubecfg/diff.go:197-199 | The `ReplaceAllString` of line 198. A text in which no substring matches the pattern is left unchanged. |
| Redaction.RedactWithoutQuotes | pkg/kubecfg/diff.go:197-199 | A text without a double quote is left unchanged. |
| Redaction.RedactQuoteFreePrefix | pkg/kubecfg/diff.go:197-199 | A quote-free stretch at the front is copied verbatim, and the substitution goes on after it as if the text started there. |
| Redaction.RedactPairFirst | pkg/kubecfg/diff.go:197-199 | A pair `"key": "value"` at the front, with or without its comma, becomes key + ": <omitted>". The substitution goes on right after the pair. A comma-less pair must not be followed by a comma, which the pattern's `,?` would take in. |
| Redaction.RedactPairLine | pkg/kubecfg/diff.go:197-199 | Take any key of [-._a-zA-Z0-9]+ and value of [[:alnum:]=+]+, a quote-free indent and a quote-free rest. The pair `"key": "value"`, with or without its comma, becomes indent + key + ": <omitted>" + rest, and the value is gone. |
| Redaction.RedactPasswordExample | pkg/kubecfg/diff.go:197-199 | The last entry of a Secret's data as the serialiser writes it, `    "password": "YWJjMTIz"` (four spaces, no comma), becomes `    password: <omitted>`. |
| Redaction.RedactAppend | pkg/kubecfg/diff.go:197-199 | No match crosses a line break whose line does not end in a colon. The text before such a break and the text after it are redacted independently. |
| Redaction.RedactPairLineIn | pkg/kubecfg/diff.go:197-199 | Every pair line of a larger text becomes indent + key + ": <omitted>", whether or not it ends in a comma. The text around it is redacted on its own. |
| Redaction.RedactPasswordInText | pkg/kubecfg/diff.go:197-199 | The line `    "password": "YWJjMTIz"` of a serialised Secret becomes `    password: <omitted>` wherever it occurs, after any text that ends in a clean line break. |
| Redaction.RedactKeepsSlashValue | pkg/kubecfg/diff.go:44 | A pair whose value holds a "/" and no quote is left unchanged, value included. This holds for any key of [-._a-zA-Z0-9]+, any quote-free indent and rest, with or without the comma. The value class [[:alnum:]=+] does not cover the whole base64 alphabet. |
| Render.RenderSegment | pkg/kubecfg/diff.go:194-222 | Insert and delete segments are marked with "+ " or "- ", redacted first when omitchanges is set, and wrapped in green or red when color is set. An Equal segment is marked with "  ", or dropped entirely when omitchanges is set. |
| Render.FormatDiff | pkg/kubecfg/diff.go:191-225 | A single segment renders exactly as that segment. With omitchanges, a diff of only Equal segments renders as nothing. Rendering of longer lists is given by FormatDiffAppend. |
| Render.FormatDiffAppend | pkg/kubecfg/diff.go:191-225 | The rendering of a concatenation of segment lists is the concatenation of their renderings: segments are written in order with nothing in between. |
| Render.OmitChangesDropsEqual | pkg/kubecfg/diff.go:217-220 | With omitchanges, the output equals the rendering of the non-Equal segments alone. |
| Render.ColorOnlyWraps | pkg/kubecfg/diff.go:201-216 | Colour changes nothing but the wrapping: insert/delete output is green/red + uncoloured output + reset, and Equal output is unaffected. |
| Sides.ExtractMarked | pkg/kubecfg/diff.go:205-219 | Reading a marked text of whole lines back for one side gives the text itself when the marker belongs to that side, and nothing otherwise. |
| Sides.RenderRoundTrip | pkg/kubecfg/diff.go:191-225 | For line-aligned segments, the "- " and "  " lines of the plain rendering, unmarked, spell the live side's text, and the "+ " and "  " lines spell the config side's text. |
| Compare.Compared | pkg/kubecfg/diff.go:127-130 | Under a strategy other than "subset" the live object is compared as fetched. Under "subset" only declared keys remain, and the masked object equals the declared one iff the live object covers it. |
| Compare.DiffOne | pkg/kubecfg/diff.go:85-149 | A client error, then an empty name, then a failed fetch give Error; NotFound gives OnlyLocal; a single Equal segment of the (subset-masked) texts gives None; anything else gives Different with formatDiff details, redacted iff OmitSecrets and kind Secret. The full rules are listed below the table. |
| Compare.NoNameIsNotFetched | pkg/kubecfg/diff.go:106-115 | For an object without a name, the outcome does not depend on what the server would return. |
| Compare.UnchangedMeansSameText | pkg/kubecfg/diff.go:135-145 | With a sound line diff, a single Equal segment means the compared live text and the config text are identical. |
| Compare.SameTextIsUnchanged | pkg/kubecfg/diff.go:132-145 | For any strategy, when the compared live text equals the config text and the line diff of two identical texts is one Equal segment, the object is reported None. |
| Compare.FullStrategyReportsDrift | pkg/kubecfg/diff.go:127-148 | Under a non-subset strategy, a live object that serialises differently from the declared one, with a sound diff, is reported Different. |
| Compare.SubsetIgnoresServerFields | pkg/kubecfg/diff.go:127-145 | Under "subset", a live object that covers the declared one (server-side extras, omitted empty values) is reported None, given that the line diff of two identical texts is one Equal segment. |
| Compare.DetailsRoundTrip | pkg/kubecfg/diff.go:132-148 | The details of a Different result, rendered without colour or redaction, give back both serialised texts: the "- "/"  " lines the live text, the "+ "/"  " lines the config text. |
| Report.Header | pkg/kubecfg/diff.go:158-161 | The header is the line `---`, then `- live ` and the description, then `+ config ` and the description, each line ending in a newline. |
| Report.Section | pkg/kubecfg/diff.go:158-181 | An error prints only its error line, never a header. None prints the header iff OmitSame is off. OnlyLocal prints the header, then the "doesn't exist on server" line. Different prints the header, then the details and a newline. |
| Report.Run | pkg/kubecfg/diff.go:151-188 | The output is the sections of the results in order. The error is ErrDiffFound iff some result is OnlyLocal or Different, and nil otherwise. |
| Report.ReportText | pkg/kubecfg/diff.go:155-182 | The loop writes nothing at all exactly when there are no objects, or OmitSame is on and every object is unchanged. |
| Report.ReportAppend | pkg/kubecfg/diff.go:155-182 | The report of two runs of results one after the other is their reports one after the other. |
| Report.OmitSameDropsUnchanged | pkg/kubecfg/diff.go:164-167 | With OmitSame, the report equals the report of the results that are not None. |
| Report.ErrorsPrintOnlyMessages | pkg/kubecfg/diff.go:169-170 | A run whose results are all errors prints exactly one error line per result and no headers. |
| Report.MissingObjectScenario | pkg/kubecfg/diff.go:172-175 | An object the server does not have counts as a difference. Its report is the header and the "doesn't exist on server" line. |
| Report.UnchangedObjectScenario | pkg/kubecfg/diff.go:164-167 | An unchanged object is not a difference. Its report is the bare header, or nothing with OmitSame. |

`Compare.DiffOne` states these classification rules:

- The description is "resource fqname".
- A client error becomes an Error carrying that error.
- An empty name becomes an Error with the "does not have a name set" message.
- NotFound becomes OnlyLocal.
- Any other fetch failure becomes an Error with the "Error fetching" message.
- A fetched object is compared after "subset" masking.
- A single Equal segment becomes None.
- Anything else becomes Different, whose details are formatDiff with redaction exactly when OmitSecrets is set and the kind is Secret.
- An error is present iff the outcome is Error.

## Left out

- Sorting: Run sorts the objects with `utils.AlphabeticalOrder` (line 152). That order is defined in `utils`, which is not part of this model, so the objects are taken in the order given.
- Server access: `utils.ClientForResource`, `ResourceNameFor`, `FqName`, `errors.IsNotFound` and `client.Get` become the `Lookup` input. A nil object returned without an error is not represented.
- Serialiser and diff algorithm: `json.MarshalIndent` and the go-diff line-mode algorithm (`DiffLinesToChars`, `DiffMain`, `DiffCharsToLines`) are function parameters, not implementations. Properties that need the diff to be correct assume it (`SoundDiff`, `LineAligned`).
- Terminal detection: `isatty.IsTerminal(os.Stdout.Fd())` is the `tty` parameter. `istty` (lines 296-301) is unused terminal I/O.
- Logging: the `log.Debug` calls produce no result.
- Writer errors: Run returns its output as a string, so write errors on `out` are not modelled.
- Value types: the `[]string` case of isEmptyValue and its panic on an unexpected type cannot arise for the closed `Json` datatype. Numbers are modelled as integers, so fractional values are not represented.
- Redaction: only the two regular expressions of the file are modelled, not a general engine. `MatchAt` relies on the greedy classes `+` stopping at the closing quote, which is the only place they can stop.
- Redaction.RedactAppend: splits only at a line break whose line does not end in a colon. The pattern's `\s` may match a newline right after the colon, so a match can span any other break. The indented JSON serialiser never ends a line with a colon.
