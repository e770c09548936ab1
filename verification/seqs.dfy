/** Small facts about sequences, stated once so that the proofs that use
    them do not have to rediscover them next to recursive definitions. */
module Seqs {

  lemma SplitFirst<T>(s: seq<T>)
    requires |s| > 0
    ensures s == [s[0]] + s[1..]
  {
  }

  lemma SplitAt<T>(s: seq<T>, i: nat)
    requires i <= |s|
    ensures s == s[..i] + s[i..]
  {
  }

  lemma AppendAssoc<T>(a: seq<T>, b: seq<T>, c: seq<T>)
    ensures a + (b + c) == (a + b) + c
  {
  }

  /** Dropping the first element of a non-empty left operand. */
  lemma AppendTail<T>(a: seq<T>, b: seq<T>)
    requires |a| > 0
    ensures (a + b)[0] == a[0] && (a + b)[1..] == a[1..] + b
  {
  }

  /** Taking a prefix of a concatenation that lies within the left operand. */
  lemma AppendPrefix<T>(a: seq<T>, b: seq<T>, i: nat)
    requires i <= |a|
    ensures (a + b)[..i] == a[..i] && (a + b)[i..] == a[i..] + b
  {
  }

  /** Dropping the last element of a non-empty right operand. */
  lemma AppendInit<T>(a: seq<T>, b: seq<T>)
    requires |b| > 0
    ensures (a + b)[..|a + b| - 1] == a + b[..|b| - 1] && (a + b)[|a + b| - 1] == b[|b| - 1]
  {
  }

  /** A non-empty suffix ends where the whole sequence ends. */
  lemma SuffixLast<T>(s: seq<T>, i: nat)
    requires i < |s|
    ensures |s[i..]| > 0 && s[i..][|s[i..]| - 1] == s[|s| - 1]
  {
  }

  lemma AppendEmpty<T>(a: seq<T>)
    ensures a + [] == a && [] + a == a
  {
  }

  lemma SuffixCons<T>(s: seq<T>, p: nat)
    requires p < |s|
    ensures |s[p..]| > 0 && s[p..][0] == s[p] && s[p..][1..] == s[p + 1..]
  {
  }

  /** The two operands of a concatenation, taken back apart. */
  lemma ConcatParts<T>(a: seq<T>, b: seq<T>)
    ensures (a + b)[..|a|] == a && (a + b)[|a|..] == b
  {
  }

  /** A stretch of the left operand of a concatenation. */
  lemma SliceLeft<T>(a: seq<T>, b: seq<T>, i: nat, j: nat)
    requires i <= j <= |a|
    ensures (a + b)[i..j] == a[i..j]
  {
  }
}
