/**
 Subset masking (removeFields, removeMapFields, removeListFields in
 pkg/kubecfg/diff.go): trims a live object to the shape of the declared
 object so that fields the declared object never mentions do not show up
 as differences.
 */
module Masking {
  import opened JsonValues

  /** removeFields: recurse when both sides are maps or both are lists;
      otherwise the live value passes through untouched. */
  function RemoveFields(config: Json, live: Json): (r: Json)
    decreases config, 2, 0
    ensures !(config.Obj? && live.Obj?) && !(config.Arr? && live.Arr?) ==> r == live
    ensures KindOf(r) == KindOf(live)
  {
    match (config, live)
    case (Obj(c), Obj(l)) => Obj(RemoveMapFields(c, l))
    case (Arr(c), Arr(l)) => Arr(RemoveListFields(c, l))
    case _ => live
  }

  /** removeMapFields: keeps exactly the declared keys; a declared key the
      live map lacks survives, with its declared value, only when that value
      is empty. */
  function RemoveMapFields(config: map<string, Json>, live: map<string, Json>): (r: map<string, Json>)
    decreases Obj(config), 1, 0
    ensures r.Keys <= config.Keys
    ensures forall k :: k in config && k in live ==> k in r && r[k] == RemoveFields(config[k], live[k])
    ensures forall k :: k in config && k !in live ==> (k in r <==> IsEmptyValue(config[k]))
    ensures forall k :: k in r && k !in live ==> r[k] == config[k]
  {
    map k | k in config && (k in live || IsEmptyValue(config[k])) ::
      if k in live then RemoveFields(config[k], live[k]) else config[k]
  }

  /** removeListFields: one output element per live element; the first
      |config| are masked pairwise, the rest are copied verbatim. */
  function RemoveListFields(config: seq<Json>, live: seq<Json>): (r: seq<Json>)
    decreases Arr(config), 1, |live| + 1
    ensures |r| == |live|
    ensures forall i :: 0 <= i < |live| && i < |config| ==> r[i] == RemoveFields(config[i], live[i])
    ensures forall i :: |config| <= i < |live| ==> r[i] == live[i]
  {
    ListFrom(config, live, 0)
  }

  /** The elements the Go loop `for i, v2 := range live` appends from
      index i onward. */
  function ListFrom(config: seq<Json>, live: seq<Json>, i: nat): (r: seq<Json>)
    requires i <= |live|
    decreases Arr(config), 1, |live| - i
    ensures |r| == |live| - i
    ensures forall j :: i <= j < |live| && j < |config| ==> r[j - i] == RemoveFields(config[j], live[j])
    ensures forall j :: i <= j < |live| && |config| <= j ==> r[j - i] == live[j]
  {
    if i == |live| then []
    else
      var head := if i < |config| then RemoveFields(config[i], live[i]) else live[i];
      var rest := ListFrom(config, live, i + 1);
      assert forall d :: 0 < d <= |rest| ==> ([head] + rest)[d] == rest[d - 1];
      [head] + rest
  }

  /** The live value already has every declared field: map keys may be
      extra on the live side, a declared key may be missing live only when
      its value is empty, lists have the same length, and everything else
      is equal. */
  predicate Covers(config: Json, live: Json)
  {
    match (config, live)
    case (Obj(c), Obj(l)) =>
      forall k :: k in c ==> if k in l then Covers(c[k], l[k]) else IsEmptyValue(c[k])
    case (Arr(c), Arr(l)) =>
      |c| == |l| && forall i :: 0 <= i < |c| ==> Covers(c[i], l[i])
    case _ => config == live
  }

  /** Masking the live value gives back the declared value exactly when the
      live value covers it: in subset mode the two sides compare equal iff
      nothing declared is missing or different. */
  lemma {:induction false} MaskedEqualsConfigIffCovers(config: Json, live: Json)
    ensures RemoveFields(config, live) == config <==> Covers(config, live)
    decreases config
  {
    match (config, live)
    case (Obj(c), Obj(l)) =>
      var r := RemoveMapFields(c, l);
      forall k | k in c && k in l
        ensures RemoveFields(c[k], l[k]) == c[k] <==> Covers(c[k], l[k])
      {
        MaskedEqualsConfigIffCovers(c[k], l[k]);
      }
      if Covers(config, live) {
        assert r.Keys == c.Keys;
        assert forall k :: k in r ==> r[k] == c[k];
      }
      if r == c {
        assert forall k :: k in c ==> if k in l then Covers(c[k], l[k]) else IsEmptyValue(c[k]);
      }
    case (Arr(c), Arr(l)) =>
      var r := RemoveListFields(c, l);
      forall i | 0 <= i < |c| && i < |l|
        ensures RemoveFields(c[i], l[i]) == c[i] <==> Covers(c[i], l[i])
      {
        MaskedEqualsConfigIffCovers(c[i], l[i]);
      }
      if Covers(config, live) {
        assert r == c;
      }
      if r == c {
        assert |c| == |l|;
      }
    case _ =>
  }

  /** Every value covers itself. */
  lemma {:induction false} CoversReflexive(v: Json)
    ensures Covers(v, v)
    decreases v
  {
    match v
    case Obj(m) =>
      forall k | k in m ensures Covers(m[k], m[k]) {
        CoversReflexive(m[k]);
      }
    case Arr(s) =>
      forall i | 0 <= i < |s| ensures Covers(s[i], s[i]) {
        CoversReflexive(s[i]);
      }
    case _ =>
  }

  /** A live object identical to the declared one is left as it is. */
  lemma MaskSelf(v: Json)
    ensures RemoveFields(v, v) == v
  {
    CoversReflexive(v);
    MaskedEqualsConfigIffCovers(v, v);
  }

  /** Masking is idempotent: a masked live value is already in the shape of
      the declared value. */
  lemma {:induction false} RemoveFieldsIdempotent(config: Json, live: Json)
    ensures RemoveFields(config, RemoveFields(config, live)) == RemoveFields(config, live)
    decreases config
  {
    match (config, live)
    case (Obj(c), Obj(l)) =>
      RemoveMapFieldsIdempotent(c, l);
    case (Arr(c), Arr(l)) =>
      var r := RemoveListFields(c, l);
      forall i | 0 <= i < |l| && i < |c|
        ensures RemoveFields(c[i], r[i]) == r[i]
      {
        RemoveFieldsIdempotent(c[i], l[i]);
      }
      assert RemoveListFields(c, r) == r;
    case _ =>
  }

  /** removeMapFields(D, removeMapFields(D, L)) == removeMapFields(D, L). */
  lemma RemoveMapFieldsIdempotent(config: map<string, Json>, live: map<string, Json>)
    ensures RemoveMapFields(config, RemoveMapFields(config, live)) == RemoveMapFields(config, live)
    decreases Obj(config), 0
  {
    var r := RemoveMapFields(config, live);
    var r2 := RemoveMapFields(config, r);
    forall k | k in r
      ensures k in r2 && r2[k] == r[k]
    {
      if k in live {
        RemoveFieldsIdempotent(config[k], live[k]);
      } else {
        MaskSelf(config[k]);
      }
    }
    assert r2.Keys == r.Keys;
  }
}
