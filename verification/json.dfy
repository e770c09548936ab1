/**
 This module defines the JSON-like values that an unstructured Kubernetes
 object is made of once it has been decoded: the closed set of kinds that
 isEmptyValue in pkg/kubecfg/diff.go switches on.
 */
module JsonValues {

  /** A decoded JSON value. Numbers are integers: the model does not
      distinguish the float64 and int64 representations the decoder produces. */
  datatype Json =
    | Null
    | Bool(b: bool)
    | Num(n: int)
    | Str(s: string)
    | Arr(items: seq<Json>)
    | Obj(fields: map<string, Json>)

  /** The top-level kind of a value, without its contents. */
  datatype Kind = NullKind | BoolKind | NumKind | StrKind | ArrKind | ObjKind

  function KindOf(v: Json): Kind
  {
    match v
    case Null => NullKind
    case Bool(_) => BoolKind
    case Num(_) => NumKind
    case Str(_) => StrKind
    case Arr(_) => ArrKind
    case Obj(_) => ObjKind
  }

  /** isEmptyValue: the value is the zero value of its kind, which the API
      server leaves out of the objects it returns. */
  function IsEmptyValue(v: Json): (r: bool)
    ensures r <==> v == Null || v == Bool(false) || v == Num(0) || v == Str("") || v == Arr([]) || v == Obj(map[])
  {
    match v
    case Arr(items) => |items| == 0
    case Obj(fields) => |fields| == 0
    case Bool(b) => !b
    case Num(n) => n == 0
    case Str(s) => |s| == 0
    case Null => true
  }
}
