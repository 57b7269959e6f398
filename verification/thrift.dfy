/** Thrift structures as typed tokens: what the generated `write` emits and what
    the generated `read` makes of a token stream (gen-cpp/parquet_types.cpp).
    Every generated struct has the same two loops; here a struct is described by
    the table of its fields and the loops are given once, over any table. */
module Thrift {
  import opened Bytes

  datatype TType = T_BOOL | T_I16 | T_I32 | T_I64 | T_STRING | T_LIST | T_STRUCT

  datatype Scalar = Bool(b: bool) | I16(i: int) | I32(i: int) | I64(i: int) | Str(s: string)

  datatype Token =
    | FieldBegin(ftype: TType, id: int)
    | FieldStop
    | ListBegin(etype: TType, size: nat)
    | Val(v: Scalar)

  function KindOf(v: Scalar): TType {
    match v
    case Bool(_) => T_BOOL
    case I16(_) => T_I16
    case I32(_) => T_I32
    case I64(_) => T_I64
    case Str(_) => T_STRING
  }

  predicate In16(n: int) {
    -0x8000 <= n < 0x8000
  }

  predicate In32(n: int) {
    -TWO31 <= n < TWO31
  }

  predicate In64(n: int) {
    -TWO63 <= n < TWO63
  }

  /** What a `std::string` can hold and the protocol can carry: one-byte characters. */
  predicate IsText(s: string) {
    |s| < TWO31 && forall i :: 0 <= i < |s| ==> s[i] as int < 256
  }

  predicate InRange(v: Scalar) {
    match v
    case Bool(_) => true
    case I16(i) => In16(i)
    case I32(i) => In32(i)
    case I64(i) => In64(i)
    case Str(s) => IsText(s)
  }

  /** The type of a member: a scalar, a list, or a struct given by its field table. */
  datatype Ty = Prim(t: TType) | TList(elem: Ty) | TStruct(fields: Fields)

  /** A field table maps ids to fields. */
  type Fields = map<int, Field>

  /** `preset` is the value a default-constructed object has under this field,
      if it counts as set; an optional field without it starts out unset. */
  datatype Field = Field(ty: Ty, required: bool, preset: Option<Value>)

  /** The largest field id in any table here; ids count from 1. */
  const LAST_ID := 17

  /** A struct value maps the ids of its set fields to their values. Required
      fields are always set. Two structs are equal, as the generated
      `operator==` has it, exactly when these maps are equal. */
  datatype Value = Leaf(v: Scalar) | Items(elems: seq<Value>) | Struct(m: map<int, Value>)

  function WireType(ty: Ty): TType {
    match ty
    case Prim(t) => t
    case TList(_) => T_LIST
    case TStruct(_) => T_STRUCT
  }

  function Lookup(fields: Fields, id: int): Option<Field> {
    if id in fields then Some(fields[id]) else None
  }

  /** A default-constructed object. */
  function Fresh(fields: Fields): map<int, Value> {
    map id | id in fields && fields[id].preset.Some? :: fields[id].preset.value
  }

  function Required(fields: Fields): set<int> {
    set id | id in fields && fields[id].required
  }

  // Writing.

  function Write(ty: Ty, v: Value): seq<Token>
    decreases ty, 2
  {
    match (ty, v)
    case (Prim(_), Leaf(s)) => [Val(s)]
    case (TList(elem), Items(vs)) => [ListBegin(WireType(elem), |vs|)] + WriteElems(elem, vs)
    case (TStruct(fields), Struct(m)) => WriteFields(fields, m, 1)
    case _ => []
  }

  function WriteElems(elem: Ty, vs: seq<Value>): seq<Token>
    decreases elem, 3, |vs|
  {
    if vs == [] then [] else Write(elem, vs[0]) + WriteElems(elem, vs[1..])
  }

  /** Fields go out in the order of their ids, here from `id` on; an unset
      optional field is left out. */
  function WriteFields(fields: Fields, m: map<int, Value>, id: nat): seq<Token>
    decreases TStruct(fields), 1, LAST_ID + 1 - id
  {
    if id > LAST_ID then [FieldStop]
    else
      (if id in fields && id in m then
         [FieldBegin(WireType(fields[id].ty), id)] + Write(fields[id].ty, m[id])
       else [])
      + WriteFields(fields, m, id + 1)
  }

  // Reading.

  /** `Missing` is a required field that never came; `Bad` is a token of the wrong kind. */
  datatype Read<+T> = Ok(value: T, rest: seq<Token>) | Missing | Bad

  /** The object that a struct member is read into: the member as it stands. */
  function Start(fields: Fields, cur: Option<Value>): map<int, Value> {
    if cur.Some? && cur.value.Struct? then cur.value.m else Fresh(fields)
  }

  function Current(m: map<int, Value>, id: int): Option<Value> {
    if id in m then Some(m[id]) else None
  }

  function ReadValue(ty: Ty, cur: Option<Value>, ts: seq<Token>): (r: Read<Value>)
    ensures r.Ok? ==> |r.rest| < |ts|
    decreases |ts|, 1
  {
    match ty
    case Prim(t) =>
      if ts != [] && ts[0].Val? && KindOf(ts[0].v) == t then Ok(Leaf(ts[0].v), ts[1..]) else Bad
    case TList(elem) =>
      if ts != [] && ts[0].ListBegin? then
        match ReadElems(elem, ts[0].size, ts[1..])
        case Ok(vs, rest) => Ok(Items(vs), rest)
        case Missing => Missing
        case Bad => Bad
      else Bad
    case TStruct(fields) =>
      match ReadFields(fields, Start(fields, cur), {}, ts)
      case Ok(pair, rest) => if Required(fields) <= pair.1 then Ok(Struct(pair.0), rest) else Missing
      case Missing => Missing
      case Bad => Bad
  }

  function ReadElems(elem: Ty, n: nat, ts: seq<Token>): (r: Read<seq<Value>>)
    ensures r.Ok? ==> |r.rest| <= |ts|
    decreases |ts|, 2
  {
    if n == 0 then Ok([], ts)
    else
      match ReadValue(elem, None, ts)
      case Ok(v, rest) => (
        match ReadElems(elem, n - 1, rest)
        case Ok(vs, rest2) => Ok([v] + vs, rest2)
        case Missing => Missing
        case Bad => Bad)
      case Missing => Missing
      case Bad => Bad
  }

  /** The field loop: `seen` are the ids of the fields read so far. */
  function ReadFields(fields: Fields, m: map<int, Value>, seen: set<int>, ts: seq<Token>)
    : (r: Read<(map<int, Value>, set<int>)>)
    ensures r.Ok? ==> |r.rest| < |ts|
    decreases |ts|, 0
  {
    if ts == [] then Bad
    else
      match ts[0]
      case FieldStop => Ok((m, seen), ts[1..])
      case FieldBegin(t, id) => (
        var known := Lookup(fields, id);
        if known.Some? && WireType(known.value.ty) == t then
          match ReadValue(known.value.ty, Current(m, id), ts[1..])
          case Ok(v, rest) => ReadFields(fields, m[id := v], seen + {id}, rest)
          case Missing => Missing
          case Bad => Bad
        else
          match Skip(t, ts[1..])
          case Ok(_, rest) => ReadFields(fields, m, seen, rest)
          case Missing => Missing
          case Bad => Bad)
      case _ => Bad
  }

  /** Passes over one value of the given type. */
  function Skip(t: TType, ts: seq<Token>): (r: Read<()>)
    ensures !r.Missing?
    ensures r.Ok? ==> |r.rest| < |ts|
    decreases |ts|, 1
  {
    match t
    case T_LIST => if ts != [] && ts[0].ListBegin? then SkipElems(ts[0].etype, ts[0].size, ts[1..]) else Bad
    case T_STRUCT => SkipFields(ts)
    case _ => if ts != [] && ts[0].Val? && KindOf(ts[0].v) == t then Ok((), ts[1..]) else Bad
  }

  function SkipElems(t: TType, n: nat, ts: seq<Token>): (r: Read<()>)
    ensures !r.Missing?
    ensures r.Ok? ==> |r.rest| <= |ts|
    decreases |ts|, 2
  {
    if n == 0 then Ok((), ts)
    else
      match Skip(t, ts)
      case Ok(_, rest) => SkipElems(t, n - 1, rest)
      case Missing => Missing
      case Bad => Bad
  }

  function SkipFields(ts: seq<Token>): (r: Read<()>)
    ensures !r.Missing?
    ensures r.Ok? ==> |r.rest| < |ts|
    decreases |ts|, 0
  {
    if ts == [] then Bad
    else
      match ts[0]
      case FieldStop => Ok((), ts[1..])
      case FieldBegin(t, _) => (
        match Skip(t, ts[1..])
        case Ok(_, rest) => SkipFields(rest)
        case Missing => Missing
        case Bad => Bad)
      case _ => Bad
  }
}
