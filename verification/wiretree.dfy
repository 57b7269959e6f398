/** Token streams as trees, and reading as interpretation of trees. Trees cover
    streams no `write` here ever emits: unknown fields, foreign types, any order. */
module WireTrees {
  import opened Bytes
  import opened Thrift

  datatype Wire = One(v: Scalar) | Many(etype: TType, elems: seq<Wire>) | Group(items: seq<Item>)
  datatype Item = Item(id: int, w: Wire)

  function TypeOf(w: Wire): TType {
    match w
    case One(v) => KindOf(v)
    case Many(_, _) => T_LIST
    case Group(_) => T_STRUCT
  }

  /** Numbers fit their types, and list elements have the type their list announces. */
  ghost predicate WellFormed(w: Wire) {
    match w
    case One(v) => InRange(v)
    case Many(t, elems) => |elems| < TWO31 && forall e :: e in elems ==> TypeOf(e) == t && WellFormed(e)
    case Group(items) => forall it :: it in items ==> In16(it.id) && WellFormed(it.w)
  }

  function Flatten(w: Wire): seq<Token>
    decreases w, 0
  {
    match w
    case One(v) => [Val(v)]
    case Many(t, elems) => [ListBegin(t, |elems|)] + FlattenElems(elems)
    case Group(items) => FlattenItems(items)
  }

  function FlattenElems(elems: seq<Wire>): seq<Token>
    decreases elems, 0
  {
    if elems == [] then [] else Flatten(elems[0]) + FlattenElems(elems[1..])
  }

  function FlattenItems(items: seq<Item>): seq<Token>
    decreases items, 0
  {
    if items == [] then [FieldStop]
    else
      assert items decreases to items[0];
      match items[0]
      case Item(id, w) => [FieldBegin(TypeOf(w), id)] + Flatten(w) + FlattenItems(items[1..])
  }

  /** The outcome of reading a tree. */
  datatype Sense<+T> = Good(value: T) | NoField | Nonsense

  function Interp(ty: Ty, cur: Option<Value>, w: Wire): Sense<Value>
    decreases w, 0
  {
    match (ty, w)
    case (Prim(t), One(v)) => if KindOf(v) == t then Good(Leaf(v)) else Nonsense
    case (TList(elem), Many(_, elems)) => (
      match InterpElems(elem, elems)
      case Good(vs) => Good(Items(vs))
      case NoField => NoField
      case Nonsense => Nonsense)
    case (TStruct(fields), Group(items)) => (
      match InterpItems(fields, Start(fields, cur), {}, items)
      case Good(pair) => if Required(fields) <= pair.1 then Good(Struct(pair.0)) else NoField
      case NoField => NoField
      case Nonsense => Nonsense)
    case _ => Nonsense
  }

  function InterpElems(elem: Ty, elems: seq<Wire>): Sense<seq<Value>>
    decreases elems, 0
  {
    if elems == [] then Good([])
    else
      match Interp(elem, None, elems[0])
      case Good(v) => (
        match InterpElems(elem, elems[1..])
        case Good(vs) => Good([v] + vs)
        case NoField => NoField
        case Nonsense => Nonsense)
      case NoField => NoField
      case Nonsense => Nonsense
  }

  /** An item that the reader of `fields` takes; it passes over any other. */
  predicate Known(fields: Fields, it: Item) {
    var known := Lookup(fields, it.id);
    known.Some? && WireType(known.value.ty) == TypeOf(it.w)
  }

  function InterpItems(fields: Fields, m: map<int, Value>, seen: set<int>, items: seq<Item>)
    : Sense<(map<int, Value>, set<int>)>
    decreases items, 0
  {
    if items == [] then Good((m, seen))
    else
      assert items decreases to items[0];
      match items[0]
      case Item(id, w) =>
        if Known(fields, items[0]) then
          match Interp(Lookup(fields, id).value.ty, Current(m, id), w)
          case Good(v) => InterpItems(fields, m[id := v], seen + {id}, items[1..])
          case NoField => NoField
          case Nonsense => Nonsense
        else InterpItems(fields, m, seen, items[1..])
  }

  ghost function Then<T>(s: Sense<T>, rest: seq<Token>): Read<T> {
    match s
    case Good(v) => Ok(v, rest)
    case NoField => Missing
    case Nonsense => Bad
  }

  // Skipping passes over exactly one value.

  lemma {:induction false} SkipFlatten(w: Wire, rest: seq<Token>)
    requires WellFormed(w)
    ensures Skip(TypeOf(w), Flatten(w) + rest) == Ok((), rest)
    decreases w, 0
  {
    match w
    case One(v) =>
      assert (Flatten(w) + rest)[1..] == rest;
    case Many(t, elems) =>
      SkipFlattenElems(t, elems, rest);
      assert (Flatten(w) + rest)[1..] == FlattenElems(elems) + rest;
    case Group(items) =>
      SkipFlattenItems(items, rest);
  }

  lemma {:induction false} SkipFlattenElems(t: TType, elems: seq<Wire>, rest: seq<Token>)
    requires forall e :: e in elems ==> TypeOf(e) == t && WellFormed(e)
    ensures SkipElems(t, |elems|, FlattenElems(elems) + rest) == Ok((), rest)
    decreases elems, 0
  {
    if elems == [] {
      assert FlattenElems(elems) + rest == rest;
    } else {
      SkipFlatten(elems[0], FlattenElems(elems[1..]) + rest);
      SkipFlattenElems(t, elems[1..], rest);
      Associative(Flatten(elems[0]), FlattenElems(elems[1..]), rest);
    }
  }

  lemma ItemsUnfold(items: seq<Item>, rest: seq<Token>)
    requires items != []
    ensures var ts := FlattenItems(items) + rest;
            ts[0] == FieldBegin(TypeOf(items[0].w), items[0].id) &&
            ts[1..] == Flatten(items[0].w) + (FlattenItems(items[1..]) + rest)
  {
    hide Flatten;
    HeadAndRest(FieldBegin(TypeOf(items[0].w), items[0].id), Flatten(items[0].w), FlattenItems(items[1..]), rest);
  }

  lemma {:induction false} SkipFlattenItems(items: seq<Item>, rest: seq<Token>)
    requires forall it :: it in items ==> WellFormed(it.w)
    ensures SkipFields(FlattenItems(items) + rest) == Ok((), rest)
    decreases items, 0
  {
    if items == [] {
      assert (FlattenItems(items) + rest)[1..] == rest;
    } else {
      ItemsUnfold(items, rest);
      assert items decreases to items[0];
      match items[0]
      case Item(_, w) => SkipFlatten(w, FlattenItems(items[1..]) + rest);
      SkipFlattenItems(items[1..], rest);
    }
  }

  // The token-level reader computes the tree-level interpretation and stops
  // right behind the value.

  lemma {:induction false} ReadFlatten(ty: Ty, cur: Option<Value>, w: Wire, rest: seq<Token>)
    requires WellFormed(w)
    ensures ReadValue(ty, cur, Flatten(w) + rest) == Then(Interp(ty, cur, w), rest)
    decreases w, 0
  {
    match w
    case One(v) =>
      assert (Flatten(w) + rest)[0] == Val(v) && (Flatten(w) + rest)[1..] == rest;
    case Many(t, elems) =>
      assert (Flatten(w) + rest)[0] == ListBegin(t, |elems|);
      assert (Flatten(w) + rest)[1..] == FlattenElems(elems) + rest;
      if ty.TList? {
        ReadFlattenElems(ty.elem, elems, rest);
      }
    case Group(items) =>
      if items != [] {
        ItemsUnfold(items, rest);
      }
      if ty.TStruct? {
        ReadFlattenItems(ty.fields, Start(ty.fields, cur), {}, items, rest);
      }
  }

  lemma {:induction false} ReadFlattenElems(elem: Ty, elems: seq<Wire>, rest: seq<Token>)
    requires forall e :: e in elems ==> WellFormed(e)
    ensures ReadElems(elem, |elems|, FlattenElems(elems) + rest) == Then(InterpElems(elem, elems), rest)
    decreases elems, 0
  {
    if elems == [] {
      assert FlattenElems(elems) + rest == rest;
    } else {
      ReadFlatten(elem, None, elems[0], FlattenElems(elems[1..]) + rest);
      ReadFlattenElems(elem, elems[1..], rest);
      Associative(Flatten(elems[0]), FlattenElems(elems[1..]), rest);
    }
  }

  lemma {:induction false} ReadFlattenItems(
    fields: Fields, m: map<int, Value>, seen: set<int>, items: seq<Item>, rest: seq<Token>)
    requires forall it :: it in items ==> WellFormed(it.w)
    ensures ReadFields(fields, m, seen, FlattenItems(items) + rest) == Then(InterpItems(fields, m, seen, items), rest)
    decreases items, 0
  {
    if items == [] {
      assert (FlattenItems(items) + rest)[0] == FieldStop && (FlattenItems(items) + rest)[1..] == rest;
    } else {
      var it, more := items[0], FlattenItems(items[1..]) + rest;
      ItemsUnfold(items, rest);
      assert items decreases to items[0];
      match it
      case Item(id, w) =>
        if Known(fields, it) {
          var ty, cur := Lookup(fields, id).value.ty, Current(m, id);
          ReadFlatten(ty, cur, w, more);
          if Interp(ty, cur, w).Good? {
            ReadFlattenItems(fields, m[id := Interp(ty, cur, w).value], seen + {id}, items[1..], rest);
          }
        } else {
          SkipFlatten(w, more);
          ReadFlattenItems(fields, m, seen, items[1..], rest);
        }
    }
  }
}
