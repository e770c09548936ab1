/**
 Secret redaction: DiffKeyValue.ReplaceAllString(text, "$1: <omitted>") in
 pkg/kubecfg/diff.go, with DiffKeyValue the regular expression
   "([-._a-zA-Z0-9]+)":\s"([[:alnum:]=+]+)",?
 which rewrites a `"key": "value"` pair of an indented JSON text, and the
 comma after it if any, to `key: <omitted>` only when the key is made of
 [-._a-zA-Z0-9] and the value of [[:alnum:]=+]. A value with any other
 character, such as the "/" of standard base64, stays in clear.
 */
module Redaction {
  import opened Wrappers
  import Seqs

  /** The class [-._a-zA-Z0-9] of the key group. */
  predicate IsKeyChar(c: char)
  {
    c == '-' || c == '.' || c == '_' || ('a' <= c <= 'z') || ('A' <= c <= 'Z') || ('0' <= c <= '9')
  }

  /** The class [[:alnum:]=+] of the value group. */
  predicate IsValueChar(c: char)
  {
    ('a' <= c <= 'z') || ('A' <= c <= 'Z') || ('0' <= c <= '9') || c == '=' || c == '+'
  }

  /** The class \s of the RE2 syntax: tab, newline, form feed, carriage
      return and space. */
  predicate IsSpace(c: char)
  {
    c == '\t' || c == '\n' || c == 12 as char || c == '\r' || c == ' '
  }

  const Omitted: string := ": <omitted>"

  /** The two character classes the pattern repeats. */
  datatype CharClass = KeyClass | ValueClass

  predicate InClass(c: char, cls: CharClass)
  {
    match cls
    case KeyClass => IsKeyChar(c)
    case ValueClass => IsValueChar(c)
  }

  /** The end of the longest run of characters of class cls that starts at p. */
  function RunEnd(t: string, p: nat, cls: CharClass): (e: nat)
    requires p <= |t|
    decreases |t| - p
    ensures p <= e <= |t|
    ensures forall i {:trigger InClass(t[i], cls)} :: p <= i < e ==> InClass(t[i], cls)
    ensures e < |t| ==> !InClass(t[e], cls)
  {
    if p == |t| || !InClass(t[p], cls) then p else RunEnd(t, p + 1, cls)
  }

  /** Any run that ends where the class first fails is the run RunEnd finds. */
  lemma RunEndUnique(t: string, p: nat, e: nat, cls: CharClass)
    requires p <= e <= |t|
    requires forall i :: p <= i < e ==> InClass(t[i], cls)
    requires e < |t| ==> !InClass(t[e], cls)
    ensures RunEnd(t, p, cls) == e
  {
  }

  /** s is, as a whole, one match of the pattern: the key's closing quote is
      at k, the value's closing quote at v, and a trailing comma may follow. */
  predicate Shape(s: string, k: int, v: int)
  {
    && 2 <= k && k + 4 < v < |s|
    && s[0] == '"'
    && (forall i :: 1 <= i < k ==> IsKeyChar(s[i]))
    && s[k] == '"' && s[k + 1] == ':' && IsSpace(s[k + 2]) && s[k + 3] == '"'
    && (forall i :: k + 4 <= i < v ==> IsValueChar(s[i]))
    && s[v] == '"'
    && (|s| == v + 1 || (|s| == v + 2 && s[v + 1] == ','))
  }

  predicate InPattern(s: string)
  {
    exists k, v | 0 <= k < v < |s| :: Shape(s, k, v)
  }

  /** One match: the positions of the closing quotes of key and value, and
      the end of the matched text. */
  datatype KeyValueMatch = KeyValueMatch(keyEnd: nat, valueEnd: nat, end: nat)

  /** The match the regular-expression engine finds starting at p, if any.
      Both repetitions are greedy and the optional comma is taken when
      present (see MatchAtIsLongestMatch). */
  function MatchAt(t: string, p: nat): Option<KeyValueMatch>
    requires p <= |t|
  {
    if p < |t| && t[p] == '"' then MatchKey(t, p, RunEnd(t, p + 1, KeyClass)) else None
  }

  /** The rest of the match once the key's run ends at k: the key's closing
      quote, the colon, one space character and the value's opening quote. */
  function MatchKey(t: string, p: nat, k: nat): Option<KeyValueMatch>
    requires k <= |t|
  {
    if k > p + 1 && k + 3 < |t| && t[k] == '"' && t[k + 1] == ':' && IsSpace(t[k + 2]) && t[k + 3] == '"' then
      MatchValue(t, k, RunEnd(t, k + 4, ValueClass))
    else None
  }

  /** The rest of the match once the value's run ends at v: the value's
      closing quote and an optional comma. */
  function MatchValue(t: string, k: nat, v: nat): Option<KeyValueMatch>
    requires v <= |t|
  {
    if v > k + 4 && v < |t| && t[v] == '"' then
      Some(KeyValueMatch(k, v, if v + 1 < |t| && t[v + 1] == ',' then v + 2 else v + 1))
    else None
  }

  /** m is the longest match of the pattern that starts at p. */
  predicate IsLongestMatch(t: string, p: nat, m: KeyValueMatch)
    requires p <= |t|
  {
    && p < m.end <= |t|
    && Shape(t[p..m.end], m.keyEnd - p, m.valueEnd - p)
    && forall e :: m.end < e <= |t| ==> !InPattern(t[p..e])
  }

  /** No match of the pattern starts at p. */
  predicate NoMatchAt(t: string, p: nat)
    requires p <= |t|
  {
    forall e :: p < e <= |t| ==> !InPattern(t[p..e])
  }

  /** MatchAt finds the longest match of the pattern that starts at p, and
      finds nothing exactly when no match starts at p. */
  lemma MatchAtIsLongestMatch(t: string, p: nat)
    requires p <= |t|
    ensures MatchAt(t, p).Some? ==> IsLongestMatch(t, p, MatchAt(t, p).value)
    ensures MatchAt(t, p).None? ==> NoMatchAt(t, p)
  {
    var r := MatchAt(t, p);
    if r.Some? {
      MatchAtSome(t, p, r.value);
    } else {
      MatchAtNone(t, p);
    }
  }

  /** Any match starting at p has its closing quotes where the scan finds them. */
  lemma ShapeDetermined(t: string, p: nat, e: nat, k: int, v: int)
    requires p < e <= |t|
    requires Shape(t[p..e], k, v)
    ensures RunEnd(t, p + 1, KeyClass) == p + k
    ensures RunEnd(t, p + k + 4, ValueClass) == p + v
    ensures e == p + v + 1 || (e == p + v + 2 && t[p + v + 1] == ',')
  {
    var s := t[p..e];
    assert forall i :: p + 1 <= i < p + k ==> t[i] == s[i - p];
    RunEndUnique(t, p + 1, p + k, KeyClass);
    assert forall i :: p + k + 4 <= i < p + v ==> t[i] == s[i - p];
    RunEndUnique(t, p + k + 4, p + v, ValueClass);
    if e == p + v + 2 {
      assert s[v + 1] == t[p + v + 1];
    }
  }

  /** Whatever match starts at p, the scan finds one there, and that one
      reaches at least as far. */
  lemma ShapeFound(t: string, p: nat, e: nat, k: int, v: int)
    requires p < e <= |t|
    requires Shape(t[p..e], k, v)
    ensures MatchAt(t, p).Some? && e <= MatchAt(t, p).value.end
  {
    var s := t[p..e];
    ShapeDetermined(t, p, e, k, v);
    assert t[p] == s[0] && t[p + k] == s[k] && t[p + k + 1] == s[k + 1];
    assert t[p + k + 2] == s[k + 2] && t[p + k + 3] == s[k + 3] && t[p + v] == s[v];
  }

  /** What the scan found is a match of the pattern. */
  lemma MatchShape(t: string, p: nat, k: nat, v: nat, end: nat)
    requires p < |t| && t[p] == '"'
    requires k == RunEnd(t, p + 1, KeyClass)
    requires k > p + 1 && k + 3 < |t| && t[k] == '"' && t[k + 1] == ':' && IsSpace(t[k + 2]) && t[k + 3] == '"'
    requires v == RunEnd(t, k + 4, ValueClass)
    requires v > k + 4 && v < |t| && t[v] == '"'
    requires end == if v + 1 < |t| && t[v + 1] == ',' then v + 2 else v + 1
    ensures end <= |t| && Shape(t[p..end], k - p, v - p)
  {
    var s := t[p..end];
    forall i | 1 <= i < k - p
      ensures IsKeyChar(s[i])
    {
      assert s[i] == t[p + i] && InClass(t[p + i], KeyClass);
    }
    forall i | k - p + 4 <= i < v - p
      ensures IsValueChar(s[i])
    {
      assert s[i] == t[p + i] && InClass(t[p + i], ValueClass);
    }
  }

  lemma MatchAtSome(t: string, p: nat, m: KeyValueMatch)
    requires p <= |t| && MatchAt(t, p) == Some(m)
    ensures IsLongestMatch(t, p, m)
  {
    var k := RunEnd(t, p + 1, KeyClass);
    var v := RunEnd(t, k + 4, ValueClass);
    MatchShape(t, p, k, v, m.end);
    forall e | m.end < e <= |t|
      ensures !InPattern(t[p..e])
    {
      if InPattern(t[p..e]) {
        var k', v' :| Shape(t[p..e], k', v');
        ShapeFound(t, p, e, k', v');
      }
    }
  }

  lemma MatchAtNone(t: string, p: nat)
    requires p <= |t| && MatchAt(t, p) == None
    ensures NoMatchAt(t, p)
  {
    forall e | p < e <= |t|
      ensures !InPattern(t[p..e])
    {
      if InPattern(t[p..e]) {
        var k, v :| Shape(t[p..e], k, v);
        ShapeFound(t, p, e, k, v);
      }
    }
  }

  /** The substitution over the whole text. The engine tries a match at
      the start of what is left: a match is replaced by its key followed by
      ": <omitted>" and the search resumes right after it; otherwise one
      character is copied. The pattern never looks behind its start, so
      searching the rest of the text on its own is the same as searching
      the whole text from that position on. A text in which no substring is
      a key/value pair comes out unchanged. */
  function Redact(t: string): (r: string)
    ensures (forall i, j :: 0 <= i < j <= |t| ==> !InPattern(t[i..j])) ==> r == t
    decreases |t|
  {
    if t == [] then []
    else
      match MatchAt(t, 0)
      case Some(m) =>
        MatchAtIsLongestMatch(t, 0);
        t[1..m.keyEnd] + Omitted + Redact(t[m.end..])
      case None =>
        NoMatchTail(t);
        [t[0]] + Redact(t[1..])
  }

  /** A text without a match has none in its tail either. */
  lemma NoMatchTail(t: string)
    requires |t| > 0
    ensures (forall i, j :: 0 <= i < j <= |t| ==> !InPattern(t[i..j])) ==>
      (forall i, j :: 0 <= i < j <= |t| - 1 ==> !InPattern(t[1..][i..j])) && t == [t[0]] + t[1..]
  {
    if forall i, j :: 0 <= i < j <= |t| ==> !InPattern(t[i..j]) {
      forall i, j | 0 <= i < j <= |t| - 1
        ensures !InPattern(t[1..][i..j])
      {
        assert t[1..][i..j] == t[i + 1..j + 1];
      }
    }
  }

  /** One step of the substitution where no match starts: a copied character. */
  lemma RedactCopy(t: string)
    requires |t| > 0 && MatchAt(t, 0) == None
    ensures Redact(t) == [t[0]] + Redact(t[1..])
  {
  }

  /** One step of the substitution where a match starts: its key and ": <omitted>". */
  lemma RedactReplace(t: string, m: KeyValueMatch)
    requires |t| > 0 && MatchAt(t, 0) == Some(m)
    ensures 1 <= m.keyEnd <= m.end <= |t|
    ensures Redact(t) == t[1..m.keyEnd] + Omitted + Redact(t[m.end..])
  {
  }

  /** The scan never matches at a character other than a double quote. */
  lemma MatchAtNoQuote(t: string, p: nat)
    requires p < |t| && t[p] != '"'
    ensures MatchAt(t, p) == None
  {
  }

  /** A text without a double quote is left alone. */
  lemma {:induction false} RedactWithoutQuotes(t: string)
    requires '"' !in t
    ensures Redact(t) == t
    decreases |t|
  {
    if t != [] {
      MatchAtNoQuote(t, 0);
      assert '"' !in t[1..] by {
        forall i | 0 <= i < |t| - 1 ensures t[1..][i] != '"' {
          assert t[1..][i] == t[i + 1];
        }
      }
      RedactWithoutQuotes(t[1..]);
      RedactCopy(t);
      Seqs.SplitFirst(t);
    }
  }

  /** A stretch without a double quote in front is copied through, and the
      substitution goes on after it as if it started there. */
  lemma {:induction false} RedactQuoteFreePrefix(x: string, y: string)
    requires '"' !in x
    ensures Redact(x + y) == x + Redact(y)
    decreases |x|
  {
    if x == [] {
      Seqs.AppendEmpty(y);
    } else {
      assert '"' !in x[1..] by {
        forall i | 0 <= i < |x| - 1 ensures x[1..][i] != '"' {
          assert x[1..][i] == x[i + 1];
        }
      }
      RedactQuoteFreePrefix(x[1..], y);
      QuoteFreeStep(x, y);
    }
  }

  lemma QuoteFreeStep(x: string, y: string)
    requires |x| > 0 && x[0] != '"'
    requires Redact(x[1..] + y) == x[1..] + Redact(y)
    ensures Redact(x + y) == x + Redact(y)
  {
    var t := x + y;
    Seqs.AppendTail(x, y);
    MatchAtNoQuote(t, 0);
    RedactCopy(t);
    Seqs.AppendAssoc([x[0]], x[1..], Redact(y));
    Seqs.SplitFirst(x);
  }

  /** A pair laid out at p is what the scan matches there. */
  lemma MatchAtPair(t: string, p: nat, k: nat, v: nat)
    requires p + 1 < k && k + 4 < v < |t|
    requires t[p] == '"' && t[k] == '"' && t[k + 1] == ':' && IsSpace(t[k + 2]) && t[k + 3] == '"' && t[v] == '"'
    requires forall i :: p + 1 <= i < k ==> IsKeyChar(t[i])
    requires forall i :: k + 4 <= i < v ==> IsValueChar(t[i])
    ensures MatchAt(t, p) == Some(KeyValueMatch(k, v, if v + 1 < |t| && t[v + 1] == ',' then v + 2 else v + 1))
  {
    RunEndUnique(t, p + 1, k, KeyClass);
    RunEndUnique(t, k + 4, v, ValueClass);
  }

  /** The text of one string-valued pair as the indented JSON serialiser
      writes it: the comma separates it from the next pair of its object, so
      the last pair of an object has none. */
  function PairText(key: string, value: string, comma: bool): string
  {
    "\"" + key + "\": \"" + value + "\"" + (if comma then "," else "")
  }

  /** What follows a pair lets the match end with the pair: the pattern's
      ",?" would also take in a comma that follows a comma-less pair. */
  predicate EndsWithPair(comma: bool, rest: string)
  {
    comma || rest == [] || rest[0] != ','
  }

  lemma PairTextLayout(key: string, value: string, comma: bool)
    ensures var pair := PairText(key, value, comma);
      && |pair| == |key| + |value| + (if comma then 7 else 6)
      && pair[0] == '"'
      && (forall i :: 0 <= i < |key| ==> pair[1 + i] == key[i])
      && pair[|key| + 1] == '"' && pair[|key| + 2] == ':' && pair[|key| + 3] == ' ' && pair[|key| + 4] == '"'
      && (forall i :: 0 <= i < |value| ==> pair[|key| + 5 + i] == value[i])
      && pair[|key| + |value| + 5] == '"'
      && (comma ==> pair[|key| + |value| + 6] == ',')
  {
  }

  /** A pair at the start of the text, with or without its comma: the scan
      replaces it by its key and ": <omitted>", and goes on right after it. */
  lemma RedactPairFirst(key: string, value: string, comma: bool, rest: string)
    requires |key| > 0 && forall i :: 0 <= i < |key| ==> IsKeyChar(key[i])
    requires |value| > 0 && forall i :: 0 <= i < |value| ==> IsValueChar(value[i])
    requires EndsWithPair(comma, rest)
    ensures Redact(PairText(key, value, comma) + rest) == key + Omitted + Redact(rest)
  {
    var pair := PairText(key, value, comma);
    var t := pair + rest;
    var k := 1 + |key|;
    var v := k + 4 + |value|;
    PairFirstMatch(key, value, comma, rest);
    RedactReplace(t, KeyValueMatch(k, v, |pair|));
    PairTextLayout(key, value, comma);
    Seqs.SliceLeft(pair, rest, 1, k);
    assert pair[1..k] == key;
    Seqs.ConcatParts(pair, rest);
  }

  /** The scan matches a leading pair up to its end, comma included. */
  lemma PairFirstMatch(key: string, value: string, comma: bool, rest: string)
    requires |key| > 0 && forall i :: 0 <= i < |key| ==> IsKeyChar(key[i])
    requires |value| > 0 && forall i :: 0 <= i < |value| ==> IsValueChar(value[i])
    requires EndsWithPair(comma, rest)
    ensures var k := 1 + |key|; var v := k + 4 + |value|;
      MatchAt(PairText(key, value, comma) + rest, 0) == Some(KeyValueMatch(k, v, |PairText(key, value, comma)|))
  {
    var pair := PairText(key, value, comma);
    var t := pair + rest;
    var k := 1 + |key|;
    var v := k + 4 + |value|;
    PairTextLayout(key, value, comma);
    forall i | 1 <= i < k ensures IsKeyChar(t[i]) {
      assert t[i] == pair[i] == key[i - 1];
    }
    forall i | k + 4 <= i < v ensures IsValueChar(t[i]) {
      assert t[i] == pair[i] == value[i - k - 4];
    }
    assert t[0] == pair[0] && t[k] == pair[k] && t[k + 1] == pair[k + 1];
    assert t[k + 2] == pair[k + 2] && t[k + 3] == pair[k + 3];
    assert t[v] == pair[v];
    if comma {
      assert t[v + 1] == pair[v + 1];
    } else if rest != [] {
      assert t[v + 1] == rest[0];
    }
    MatchAtPair(t, 0, k, v);
  }

  /** A line of an indented JSON text holding one string-valued pair, with
      or without a trailing comma, loses its value: the quotes go, the key
      stays, and ": <omitted>" replaces the value. */
  lemma RedactPairLine(indent: string, key: string, value: string, comma: bool, rest: string)
    requires '"' !in indent && '"' !in rest
    requires |key| > 0 && forall i :: 0 <= i < |key| ==> IsKeyChar(key[i])
    requires |value| > 0 && forall i :: 0 <= i < |value| ==> IsValueChar(value[i])
    requires EndsWithPair(comma, rest)
    ensures Redact(indent + PairText(key, value, comma) + rest) == indent + key + Omitted + rest
  {
    var pair := PairText(key, value, comma);
    Seqs.AppendAssoc(indent, pair, rest);
    RedactQuoteFreePrefix(indent, pair + rest);
    RedactPairFirst(key, value, comma, rest);
    RedactWithoutQuotes(rest);
    Seqs.AppendAssoc(indent, key + Omitted, rest);
    Seqs.AppendAssoc(indent, key, Omitted);
  }

  /** The password entry of a Secret's data, as the serialiser writes it
      when it is the last entry: four spaces deep and without a comma. Its
      base64 value is gone after the rewrite. */
  lemma RedactPasswordExample(line: string)
    requires line == "    \"password\": \"YWJjMTIz\"\n"
    ensures Redact(line) == "    password: <omitted>\n"
  {
    var key, value := "password", "YWJjMTIz";
    PasswordLineText(line, key, value);
    PasswordLineChars(key, value);
    assert '"' !in "    " && '"' !in "\n";
    RedactPairLine("    ", key, value, false, "\n");
  }

  lemma PasswordLineText(line: string, key: string, value: string)
    requires line == "    \"password\": \"YWJjMTIz\"\n"
    requires key == "password" && value == "YWJjMTIz"
    ensures line == "    " + PairText(key, value, false) + "\n"
    ensures "    " + key + Omitted + "\n" == "    password: <omitted>\n"
  {
  }

  lemma PasswordLineChars(key: string, value: string)
    requires key == "password" && value == "YWJjMTIz"
    ensures forall i :: 0 <= i < |key| ==> IsKeyChar(key[i])
    ensures forall i :: 0 <= i < |value| ==> IsValueChar(value[i])
  {
  }

  /** A quote followed by a quote-free stretch, where the scan finds no
      match, is copied through with that stretch. */
  lemma QuoteThenText(x: string, y: string)
    requires '"' !in x
    requires MatchAt("\"" + x + y, 0) == None
    ensures Redact("\"" + x + y) == "\"" + x + Redact(y)
  {
    var t := "\"" + x + y;
    RedactCopy(t);
    Seqs.AppendAssoc("\"", x, y);
    Seqs.AppendTail("\"", x + y);
    RedactQuoteFreePrefix(x, y);
    Seqs.AppendAssoc("\"", x, Redact(y));
  }

  /** A run of class cls that starts at or before a character outside the
      class ends at or before it. */
  lemma RunStopsAt(t: string, p: nat, q: nat, cls: CharClass)
    requires p <= q < |t| && !InClass(t[q], cls)
    ensures RunEnd(t, p, cls) <= q
  {
  }

  /** No match starts at a quote that no other quote follows. */
  lemma MatchAtLoneQuote(x: string)
    requires '"' !in x
    ensures MatchAt("\"" + x, 0) == None
  {
    var t := "\"" + x;
    var k := RunEnd(t, 1, KeyClass);
    if k < |t| {
      assert t[k] == x[k - 1];
    }
  }

  /** The scan finds no match at the opening quote of a pair whose value
      holds a "/": the value's run stops at the slash, not at a quote. */
  lemma SlashPairNoMatch(key: string, value: string, comma: bool, rest: string)
    requires |key| > 0 && forall i :: 0 <= i < |key| ==> IsKeyChar(key[i])
    requires '"' !in value && '/' in value
    ensures MatchAt(PairText(key, value, comma) + rest, 0) == None
  {
    var t := PairText(key, value, comma) + rest;
    var k := 1 + |key|;
    var j :| 0 <= j < |value| && value[j] == '/';
    PairKeyEnd(key, value, comma, rest);
    ValueStopsAt(t, k, j);
  }

  /** Where the text holds a slash before any quote, j characters into a
      value, the value's run ends before a quote and no match results. */
  lemma ValueStopsAt(t: string, k: nat, j: nat)
    requires k + 4 + j < |t| && t[k + 4 + j] == '/'
    requires forall i :: k + 4 <= i < k + 4 + j ==> t[i] != '"'
    ensures MatchValue(t, k, RunEnd(t, k + 4, ValueClass)) == None
  {
    RunStopsAt(t, k + 4, k + 4 + j, ValueClass);
  }

  /** In a pair followed by any text, the key's run ends at its closing
      quote, and the value sits four characters further on. */
  lemma PairKeyEnd(key: string, value: string, comma: bool, rest: string)
    requires |key| > 0 && forall i :: 0 <= i < |key| ==> IsKeyChar(key[i])
    ensures var t := PairText(key, value, comma) + rest; var k := 1 + |key|;
      && k + 4 + |value| < |t|
      && t[0] == '"'
      && RunEnd(t, 1, KeyClass) == k
      && (forall i :: 0 <= i < |value| ==> t[k + 4 + i] == value[i])
  {
    var pair := PairText(key, value, comma);
    var t := pair + rest;
    var k := 1 + |key|;
    PairTextLayout(key, value, comma);
    forall i | 1 <= i < k ensures InClass(t[i], KeyClass) {
      assert t[i] == pair[i] == key[i - 1];
    }
    assert t[k] == pair[k];
    RunEndUnique(t, 1, k, KeyClass);
    forall i | 0 <= i < |value| ensures t[k + 4 + i] == value[i] {
      assert t[k + 4 + i] == pair[k + 4 + i];
    }
  }

  /** The scan finds no match at the value's opening quote of such a pair:
      the run of key characters also stops before the slash. */
  lemma SlashValueNoMatch(value: string, y: string)
    requires '"' !in value && '/' in value
    ensures MatchAt("\"" + value + y, 0) == None
  {
    var t := "\"" + value + y;
    var j :| 0 <= j < |value| && value[j] == '/';
    assert t[1 + j] == value[j];
    RunStopsAt(t, 1, 1 + j, KeyClass);
    var k := RunEnd(t, 1, KeyClass);
    assert t[k] == value[k - 1];
  }

  /** A pair whose value holds a character outside [[:alnum:]=+], such as
      the "/" of standard base64, is not a match: its line is left as it
      is, value included. */
  lemma RedactKeepsSlashValue(indent: string, key: string, value: string, comma: bool, rest: string)
    requires '"' !in indent && '"' !in rest
    requires |key| > 0 && forall i :: 0 <= i < |key| ==> IsKeyChar(key[i])
    requires '"' !in value && '/' in value
    ensures Redact(indent + PairText(key, value, comma) + rest) == indent + PairText(key, value, comma) + rest
  {
    var pair := PairText(key, value, comma);
    RedactKeepsSlashPair(key, value, comma, rest);
    RedactQuoteFreePrefix(indent, pair + rest);
    Seqs.AppendAssoc(indent, pair, rest);
  }

  /** The same, for the pair at the start of the text: the scan steps over
      each of its four quotes without a match. */
  lemma RedactKeepsSlashPair(key: string, value: string, comma: bool, rest: string)
    requires '"' !in rest
    requires |key| > 0 && forall i :: 0 <= i < |key| ==> IsKeyChar(key[i])
    requires '"' !in value && '/' in value
    ensures Redact(PairText(key, value, comma) + rest) == PairText(key, value, comma) + rest
  {
    var tail := (if comma then "," else "") + rest;
    var d := "\"" + tail;
    var c := "\"" + value + d;
    var b := "\"" + ": " + c;
    SlashPairParts(key, value, comma, rest);
    RedactLoneQuote(tail);
    RedactSlashValue(value, d);
    RedactColon(c);
    SlashPairNoMatch(key, value, comma, rest);
    KeyQuoteFree(key);
    QuoteThenText(key, b);
  }

  /** A pair cut at its four quotes. */
  lemma SlashPairParts(key: string, value: string, comma: bool, rest: string)
    ensures PairText(key, value, comma) + rest
         == "\"" + key + ("\"" + ": " + ("\"" + value + ("\"" + ((if comma then "," else "") + rest))))
  {
  }

  lemma KeyQuoteFree(key: string)
    requires forall i :: 0 <= i < |key| ==> IsKeyChar(key[i])
    ensures '"' !in key
  {
    forall i | 0 <= i < |key| ensures key[i] != '"' {
      assert IsKeyChar(key[i]);
    }
  }

  /** A last quote, with no quote after it, is copied through. */
  lemma RedactLoneQuote(x: string)
    requires '"' !in x
    ensures Redact("\"" + x) == "\"" + x
  {
    MatchAtLoneQuote(x);
    RedactCopy("\"" + x);
    assert ("\"" + x)[1..] == x;
    RedactWithoutQuotes(x);
  }

  /** A quoted value holding a slash is copied through up to its closing
      quote. */
  lemma RedactSlashValue(value: string, y: string)
    requires '"' !in value && '/' in value
    ensures Redact("\"" + value + y) == "\"" + value + Redact(y)
  {
    SlashValueNoMatch(value, y);
    QuoteThenText(value, y);
  }

  /** The key's closing quote, followed by a colon, starts no match. */
  lemma RedactColon(y: string)
    ensures Redact("\"" + ": " + y) == "\"" + ": " + Redact(y)
  {
    RunEndUnique("\"" + ": " + y, 1, 1, KeyClass);
    QuoteThenText(": ", y);
  }

  /** a is empty or ends with a line break whose line does not end in a
      colon. The indented JSON serialiser never ends a line with a colon,
      and a match can only span a line break right after its colon, so no
      match straddles such a boundary. */
  predicate EndsCleanLine(a: string)
  {
    a == [] || (a[|a| - 1] == '\n' && (|a| == 1 || a[|a| - 2] != ':'))
  }

  /** A run inside a, which a's final line break closes, is the same run in a + b. */
  lemma RunEndPrefix(a: string, b: string, p: nat, cls: CharClass)
    requires p < |a| && a[|a| - 1] == '\n'
    ensures RunEnd(a + b, p, cls) == RunEnd(a, p, cls) < |a|
  {
    var t := a + b;
    var e := RunEnd(a, p, cls);
    assert !InClass(a[|a| - 1], cls);
    forall i | p <= i < e
      ensures InClass(t[i], cls)
    {
      assert t[i] == a[i];
    }
    assert t[e] == a[e];
    RunEndUnique(t, p, e, cls);
  }

  /** Scanning inside a, the engine finds what it finds in a alone, and
      the match ends within a. */
  lemma MatchAtPrefix(a: string, b: string, p: nat)
    requires EndsCleanLine(a) && p < |a|
    ensures MatchAt(a + b, p) == MatchAt(a, p)
    ensures MatchAt(a, p).Some? ==> MatchAt(a, p).value.end <= |a|
  {
    var t := a + b;
    assert t[p] == a[p];
    if a[p] == '"' {
      RunEndPrefix(a, b, p + 1, KeyClass);
      MatchKeyPrefix(a, b, p, RunEnd(a, p + 1, KeyClass));
    }
  }

  /** The key part of a match inside a. */
  lemma MatchKeyPrefix(a: string, b: string, p: nat, k: nat)
    requires EndsCleanLine(a) && k < |a|
    ensures MatchKey(a + b, p, k) == MatchKey(a, p, k)
    ensures MatchKey(a, p, k).Some? ==> MatchKey(a, p, k).value.end <= |a|
  {
    var t := a + b;
    assert t[k] == a[k];
    if k + 3 < |a| {
      assert t[k + 1] == a[k + 1] && t[k + 2] == a[k + 2] && t[k + 3] == a[k + 3];
      if a[k + 3] == '"' {
        RunEndPrefix(a, b, k + 4, ValueClass);
        MatchValuePrefix(a, b, k, RunEnd(a, k + 4, ValueClass));
      }
    } else if k + 1 < |a| {
      assert t[k + 1] == a[k + 1];
    }
  }

  /** The value part of a match inside a. */
  lemma MatchValuePrefix(a: string, b: string, k: nat, v: nat)
    requires a != [] && a[|a| - 1] == '\n' && v < |a|
    ensures MatchValue(a + b, k, v) == MatchValue(a, k, v)
    ensures MatchValue(a, k, v).Some? ==> MatchValue(a, k, v).value.end <= |a|
  {
    var t := a + b;
    assert t[v] == a[v];
    if v + 1 < |a| {
      assert t[v + 1] == a[v + 1];
    }
  }

  /** What is left of a after a step of the scan still ends cleanly. */
  lemma EndsCleanLineTail(a: string, i: nat)
    requires EndsCleanLine(a) && i <= |a|
    ensures EndsCleanLine(a[i..])
  {
    if i < |a| {
      Seqs.SuffixLast(a, i);
      if |a| - i >= 2 {
        assert a[i..][|a| - i - 2] == a[|a| - 2];
      }
    }
  }

  /** No match crosses a clean line end: the texts before and after it are
      redacted independently. */
  lemma {:induction false} RedactAppend(a: string, b: string)
    requires EndsCleanLine(a)
    ensures Redact(a + b) == Redact(a) + Redact(b)
    decreases |a|
  {
    if a == [] {
      Seqs.AppendEmpty(b);
      Seqs.AppendEmpty(Redact(b));
    } else {
      MatchAtPrefix(a, b, 0);
      var n := match MatchAt(a, 0) case Some(m) => m.end case None => 1;
      EndsCleanLineTail(a, n);
      RedactAppend(a[n..], b);
      AppendStep(a, b, n);
    }
  }

  /** One step of RedactAppend: the step taken in a is the one taken in
      a + b, and what follows is the rest of a followed by b. */
  lemma AppendStep(a: string, b: string, n: nat)
    requires EndsCleanLine(a) && |a| > 0
    requires MatchAt(a + b, 0) == MatchAt(a, 0)
    requires MatchAt(a, 0).Some? ==> MatchAt(a, 0).value.end <= |a|
    requires n == match MatchAt(a, 0) case Some(m) => m.end case None => 1
    requires n <= |a| && Redact(a[n..] + b) == Redact(a[n..]) + Redact(b)
    ensures Redact(a + b) == Redact(a) + Redact(b)
  {
    var t := a + b;
    Seqs.AppendPrefix(a, b, n);
    match MatchAt(a, 0)
    case None =>
      RedactCopy(t);
      RedactCopy(a);
      assert t[0] == a[0];
      Seqs.AppendAssoc([a[0]], Redact(a[1..]), Redact(b));
    case Some(m) =>
      RedactReplace(t, m);
      RedactReplace(a, m);
      Seqs.SliceLeft(a, b, 1, m.keyEnd);
      Seqs.AppendAssoc(a[1..m.keyEnd] + Omitted, Redact(a[m.end..]), Redact(b));
  }

  /** Every pair line of a larger text loses its value, whatever surrounds
      it and whether or not it ends in a comma: the text before it (ending
      in a clean line end) and the text after it are redacted on their own. */
  lemma RedactPairLineIn(before: string, indent: string, key: string, value: string, comma: bool, after: string)
    requires EndsCleanLine(before)
    requires '"' !in indent
    requires |key| > 0 && forall i :: 0 <= i < |key| ==> IsKeyChar(key[i])
    requires |value| > 0 && forall i :: 0 <= i < |value| ==> IsValueChar(value[i])
    ensures Redact(before + (indent + PairText(key, value, comma) + "\n") + after)
         == Redact(before) + (indent + key + Omitted + "\n") + Redact(after)
  {
    var line := indent + PairText(key, value, comma) + "\n";
    RedactPairLine(indent, key, value, comma, "\n");
    PairLineEnd(indent, key, value, comma);
    RedactAppend(line, after);
    RedactAppend(before, line + after);
    Seqs.AppendAssoc(before, line, after);
    Seqs.AppendAssoc(Redact(before), Redact(line), Redact(after));
  }

  /** A pair line ends with a comma or a quote before its line break, never
      with a colon: a clean line end. */
  lemma PairLineEnd(indent: string, key: string, value: string, comma: bool)
    ensures EndsCleanLine(indent + PairText(key, value, comma) + "\n")
  {
    var pair := PairText(key, value, comma);
    var line := indent + pair + "\n";
    PairTextLayout(key, value, comma);
    assert line[|line| - 2] == pair[|pair| - 1];
  }

  /** The password entry of a Secret, anywhere in its serialised text, is
      rewritten to password: <omitted>. */
  lemma RedactPasswordInText(before: string, after: string)
    requires EndsCleanLine(before)
    ensures Redact(before + "    \"password\": \"YWJjMTIz\"\n" + after)
         == Redact(before) + "    password: <omitted>\n" + Redact(after)
  {
    var key, value := "password", "YWJjMTIz";
    PasswordLineText("    \"password\": \"YWJjMTIz\"\n", key, value);
    PasswordLineChars(key, value);
    assert '"' !in "    ";
    RedactPairLineIn(before, "    ", key, value, false, after);
  }
}
