/** Reading back what a struct wrote, and what a reader tolerates. */
module RoundTrip {
  import opened Bytes
  import opened Thrift
  import opened WireTrees

  /** A field table as the generator makes them: no struct member counts as set
      in a new object. */
  ghost predicate TyOk(ty: Ty) {
    match ty
    case Prim(t) => !t.T_LIST? && !t.T_STRUCT?
    case TList(elem) => TyOk(elem)
    case TStruct(fields) =>
      forall id :: id in fields ==>
        && 1 <= id <= LAST_ID
        && TyOk(fields[id].ty)
        && (fields[id].preset.Some? ==> !fields[id].preset.value.Struct?)
  }

  ghost predicate HasType(ty: Ty, v: Value) {
    match (ty, v)
    case (Prim(t), Leaf(s)) => KindOf(s) == t && InRange(s)
    case (TList(elem), Items(vs)) => |vs| < TWO31 && forall e :: e in vs ==> HasType(elem, e)
    case (TStruct(fields), Struct(m)) =>
      && (forall id :: id in m ==> id in fields && HasType(fields[id].ty, m[id]))
      && Required(fields) <= m.Keys
    case _ => false
  }

  // The tree of a value.

  function ToWire(ty: Ty, v: Value): Wire
    decreases ty, 2
  {
    match (ty, v)
    case (Prim(_), Leaf(s)) => One(s)
    case (TList(elem), Items(vs)) => Many(WireType(elem), ToWires(elem, vs))
    case (TStruct(fields), Struct(m)) => Group(ToItems(fields, m, 1))
    case _ => Many(T_BOOL, [])
  }

  function ToWires(elem: Ty, vs: seq<Value>): (ws: seq<Wire>)
    ensures |ws| == |vs|
    decreases elem, 3, |vs|
  {
    if vs == [] then [] else [ToWire(elem, vs[0])] + ToWires(elem, vs[1..])
  }

  function ToItems(fields: Fields, m: map<int, Value>, id: nat): seq<Item>
    decreases TStruct(fields), 1, LAST_ID + 1 - id
  {
    if id > LAST_ID then []
    else
      (if id in fields && id in m then [Item(id, ToWire(fields[id].ty, m[id]))] else [])
      + ToItems(fields, m, id + 1)
  }

  ghost predicate Typed(fields: Fields, m: map<int, Value>) {
    forall id :: id in m ==> id in fields && HasType(fields[id].ty, m[id])
  }

  lemma {:induction false} WriteIsFlatten(ty: Ty, v: Value)
    requires HasType(ty, v)
    ensures TypeOf(ToWire(ty, v)) == WireType(ty) && WellFormed(ToWire(ty, v))
    ensures Write(ty, v) == Flatten(ToWire(ty, v))
    decreases ty, 2
  {
    match (ty, v)
    case (Prim(_), Leaf(s)) =>
    case (TList(elem), Items(vs)) => WriteElemsIsFlatten(elem, vs);
    case (TStruct(fields), Struct(m)) => WriteFieldsIsFlatten(fields, m, 1);
  }

  lemma {:induction false} WriteElemsIsFlatten(elem: Ty, vs: seq<Value>)
    requires forall e :: e in vs ==> HasType(elem, e)
    ensures forall w :: w in ToWires(elem, vs) ==> TypeOf(w) == WireType(elem) && WellFormed(w)
    ensures WriteElems(elem, vs) == FlattenElems(ToWires(elem, vs))
    decreases elem, 3, |vs|
  {
    if vs != [] {
      WriteIsFlatten(elem, vs[0]);
      WriteElemsIsFlatten(elem, vs[1..]);
      assert ToWires(elem, vs)[1..] == ToWires(elem, vs[1..]);
    }
  }

  lemma {:induction false} WriteFieldsIsFlatten(fields: Fields, m: map<int, Value>, id: nat)
    requires Typed(fields, m)
    ensures forall it :: it in ToItems(fields, m, id) ==> In16(it.id) && WellFormed(it.w)
    ensures WriteFields(fields, m, id) == FlattenItems(ToItems(fields, m, id))
    decreases TStruct(fields), 1, LAST_ID + 1 - id
  {
    if id <= LAST_ID {
      WriteFieldsIsFlatten(fields, m, id + 1);
      var items, more := ToItems(fields, m, id), ToItems(fields, m, id + 1);
      if id in m {
        WriteIsFlatten(fields[id].ty, m[id]);
        assert items[0] == Item(id, ToWire(fields[id].ty, m[id])) && items[1..] == more;
      } else {
        assert items == more;
      }
    }
  }

  // What a fresh object reads back.

  /** The value as it arrives in a fresh object: preset fields that were not
      written keep their preset value. */
  function Merged(ty: Ty, v: Value): Value
    decreases ty, 2
  {
    match (ty, v)
    case (TList(elem), Items(vs)) => Items(MergedElems(elem, vs))
    case (TStruct(fields), Struct(m)) => Struct(Fresh(fields) + MergedFields(fields, m))
    case _ => v
  }

  function MergedElems(elem: Ty, vs: seq<Value>): (r: seq<Value>)
    ensures |r| == |vs|
    decreases elem, 3, |vs|
  {
    if vs == [] then [] else [Merged(elem, vs[0])] + MergedElems(elem, vs[1..])
  }

  function MergedFields(fields: Fields, m: map<int, Value>): map<int, Value>
    decreases TStruct(fields), 1
  {
    map id | id in m && id in fields :: Merged(fields[id].ty, m[id])
  }

  lemma MapPush<K, V>(m0: map<K, V>, k: K, v: V, more: map<K, V>)
    ensures m0[k := v] + more == m0 + (map[k := v] + more)
  {
  }

  lemma Union3<K>(a: set<K>, b: set<K>, c: set<K>)
    ensures a + b + c == a + (b + c)
  {
  }

  // What a reader tolerates.

  /** The items that the reader of a table takes, in order. */
  function Taken(fields: Fields, items: seq<Item>): seq<Item> {
    if items == [] then []
    else (if Known(fields, items[0]) then [items[0]] else []) + Taken(fields, items[1..])
  }

  /** Unknown fields, and known ids under a foreign type, change nothing. */
  lemma {:induction false} OnlyTakenMatter(fields: Fields, m: map<int, Value>, seen: set<int>, items: seq<Item>)
    ensures InterpItems(fields, m, seen, items) == InterpItems(fields, m, seen, Taken(fields, items))
    decreases |items|
  {
    hide Interp;
    if items != [] {
      var it, taken := items[0], Taken(fields, items);
      if Known(fields, it) {
        assert taken[0] == it && taken[1..] == Taken(fields, items[1..]);
        var r := Interp(Lookup(fields, it.id).value.ty, Current(m, it.id), it.w);
        if r.Good? {
          OnlyTakenMatter(fields, m[it.id := r.value], seen + {it.id}, items[1..]);
        }
      } else {
        assert taken == Taken(fields, items[1..]);
        OnlyTakenMatter(fields, m, seen, items[1..]);
      }
    }
  }

  /** What a fresh reader of the table makes of one item. */
  ghost function Meaning(fields: Fields, it: Item): Sense<Value> {
    if Known(fields, it) then Interp(Lookup(fields, it.id).value.ty, None, it.w) else Nonsense
  }

  ghost predicate AllGood(fields: Fields, items: seq<Item>) {
    forall it :: it in items ==> Known(fields, it) && Meaning(fields, it).Good?
  }

  ghost predicate DistinctItems(items: seq<Item>) {
    forall i, j :: 0 <= i < j < |items| ==> items[i].id != items[j].id
  }

  ghost function ItemMap(fields: Fields, items: seq<Item>): map<int, Value>
    requires AllGood(fields, items)
  {
    if items == [] then map[]
    else map[items[0].id := Meaning(fields, items[0]).value] + ItemMap(fields, items[1..])
  }

  function ItemIds(items: seq<Item>): set<int> {
    set it | it in items :: it.id
  }

  lemma CurrentPlain(fields: Fields, m: map<int, Value>, it: Item)
    requires Known(fields, it) && (it.id in m ==> !m[it.id].Struct?)
    ensures Interp(Lookup(fields, it.id).value.ty, Current(m, it.id), it.w) == Meaning(fields, it)
  {
  }

  lemma {:induction false} InterpDistinct(fields: Fields, m: map<int, Value>, seen: set<int>, items: seq<Item>)
    requires AllGood(fields, items) && DistinctItems(items)
    requires forall it :: it in items && it.id in m ==> !m[it.id].Struct?
    ensures InterpItems(fields, m, seen, items) == Good((m + ItemMap(fields, items), seen + ItemIds(items)))
    decreases |items|
  {
    hide Interp, Known, Meaning;
    if items == [] {
      assert ItemIds(items) == {};
      assert m + map[] == m && seen + {} == seen;
    } else {
      var it, more := items[0], items[1..];
      assert items == [it] + more;
      CurrentPlain(fields, m, it);
      var v := Meaning(fields, it).value;
      InterpDistinct(fields, m[it.id := v], seen + {it.id}, more);
      MapPush(m, it.id, v, ItemMap(fields, more));
      assert ItemIds(items) == {it.id} + ItemIds(more);
      Union3(seen, {it.id}, ItemIds(more));
    }
  }

  lemma {:induction false} ItemMapAt(fields: Fields, items: seq<Item>)
    requires AllGood(fields, items) && DistinctItems(items)
    ensures ItemMap(fields, items).Keys == ItemIds(items)
    ensures forall it :: it in items ==> ItemMap(fields, items)[it.id] == Meaning(fields, it).value
    decreases |items|
  {
    hide Meaning, Known;
    if items != [] {
      var first, more := items[0], items[1..];
      ItemMapAt(fields, more);
      assert items == [first] + more;
      assert ItemIds(items) == {first.id} + ItemIds(more);
      assert first.id !in ItemIds(more);
      var tail := ItemMap(fields, more);
      assert ItemMap(fields, items) == map[first.id := Meaning(fields, first).value] + tail;
      forall it | it in items ensures ItemMap(fields, items)[it.id] == Meaning(fields, it).value {
        if it in more {
          assert it.id in tail;
        }
      }
    }
  }

  /** Two item lists with the same items, each id once, mean the same. */
  lemma OrderDoesNotMatter(fields: Fields, m: map<int, Value>, seen: set<int>, a: seq<Item>, b: seq<Item>)
    requires AllGood(fields, a) && DistinctItems(a) && DistinctItems(b)
    requires forall it :: it in a <==> it in b
    requires forall it :: it in a && it.id in m ==> !m[it.id].Struct?
    ensures InterpItems(fields, m, seen, a) == InterpItems(fields, m, seen, b)
  {
    hide Meaning, Known, InterpItems, ItemMap, DistinctItems;
    InterpDistinct(fields, m, seen, a);
    InterpDistinct(fields, m, seen, b);
    SameItems(fields, a, b);
  }

  lemma SameItems(fields: Fields, a: seq<Item>, b: seq<Item>)
    requires AllGood(fields, a) && AllGood(fields, b) && DistinctItems(a) && DistinctItems(b)
    requires forall it :: it in a <==> it in b
    ensures ItemIds(a) == ItemIds(b) && ItemMap(fields, a) == ItemMap(fields, b)
  {
    hide Meaning, Known, ItemMap, DistinctItems;
    ItemMapAt(fields, a);
    ItemMapAt(fields, b);
    assert ItemIds(a) == ItemIds(b);
    var ma, mb := ItemMap(fields, a), ItemMap(fields, b);
    forall id | id in ma ensures ma[id] == mb[id] {
      var it :| it in a && it.id == id;
      assert it in b;
    }
    assert ma == mb;
  }

  // Streams that carry a value.

  /** The tree says the value, at every depth with fields in whatever order and
      with whatever else in between: scalars and list elements as they are, and
      of a struct exactly the set fields, each once. */
  ghost predicate Carries(ty: Ty, v: Value, w: Wire)
    decreases w
  {
    match (ty, v, w)
    case (Prim(_), Leaf(s), One(x)) => x == s
    case (TList(elem), Items(vs), Many(_, ws)) =>
      |ws| == |vs| && forall i :: 0 <= i < |ws| ==> Carries(elem, vs[i], ws[i])
    case (TStruct(fields), Struct(m), Group(items)) =>
      && DistinctItems(Taken(fields, items))
      && ItemIds(Taken(fields, items)) == m.Keys
      && (forall it :: it in items && Known(fields, it) && it.id in m ==> CarriesItem(fields, m, it))
    case _ => false
  }

  ghost predicate CarriesItem(fields: Fields, m: map<int, Value>, it: Item)
    requires Known(fields, it) && it.id in m
    decreases it
  {
    match it
    case Item(id, w) => Carries(fields[id].ty, m[id], w)
  }

  /** Reading makes the same of every tree that carries a value. */
  lemma {:induction false} InterpCarried(ty: Ty, cur: Option<Value>, v: Value, w: Wire)
    requires TyOk(ty) && HasType(ty, v) && Carries(ty, v, w)
    requires cur.Some? ==> !cur.value.Struct?
    ensures Interp(ty, cur, w) == Good(Merged(ty, v))
    decreases w, 0
  {
    match (ty, v, w)
    case (Prim(_), Leaf(s), One(x)) =>
    case (TList(elem), Items(vs), Many(_, ws)) => InterpCarriedElems(elem, vs, ws);
    case (TStruct(fields), Struct(m), Group(items)) =>
      forall it | it in Taken(fields, items) ensures Known(fields, it) && it.id in m && it in items {
        TakenFacts(fields, items, it);
      }
      forall it | it in Taken(fields, items) ensures Meaning(fields, it) == Good(Merged(fields[it.id].ty, m[it.id])) {
        InterpCarriedItem(fields, m, it);
      }
      InterpTaken(fields, m, items);
  }

  lemma {:induction false} InterpCarriedItem(fields: Fields, m: map<int, Value>, it: Item)
    requires TyOk(TStruct(fields)) && HasType(TStruct(fields), Struct(m))
    requires Known(fields, it) && it.id in m && CarriesItem(fields, m, it)
    ensures Meaning(fields, it) == Good(Merged(fields[it.id].ty, m[it.id]))
    decreases it, 1
  {
    match it
    case Item(id, w) => InterpCarried(fields[id].ty, None, m[id], w);
  }

  lemma {:induction false} InterpCarriedElems(elem: Ty, vs: seq<Value>, ws: seq<Wire>)
    requires TyOk(elem) && (forall e :: e in vs ==> HasType(elem, e)) && |ws| == |vs|
    requires forall i :: 0 <= i < |ws| ==> Carries(elem, vs[i], ws[i])
    ensures InterpElems(elem, ws) == Good(MergedElems(elem, vs))
    decreases ws, 0
  {
    if ws != [] {
      InterpCarried(elem, None, vs[0], ws[0]);
      InterpCarriedElems(elem, vs[1..], ws[1..]);
    }
  }

  lemma {:induction false} TakenFacts(fields: Fields, items: seq<Item>, it: Item)
    requires it in Taken(fields, items)
    ensures Known(fields, it) && it in items && it.id in ItemIds(Taken(fields, items))
    decreases |items|
  {
    if !(Known(fields, items[0]) && it == items[0]) {
      TakenFacts(fields, items[1..], it);
    }
  }

  /** Taken items that mean the fields of a struct make up the struct. */
  lemma InterpTaken(fields: Fields, m: map<int, Value>, items: seq<Item>)
    requires TyOk(TStruct(fields)) && HasType(TStruct(fields), Struct(m))
    requires DistinctItems(Taken(fields, items)) && ItemIds(Taken(fields, items)) == m.Keys
    requires forall it :: it in Taken(fields, items) ==>
               Known(fields, it) && it.id in m && Meaning(fields, it) == Good(Merged(fields[it.id].ty, m[it.id]))
    ensures InterpItems(fields, Fresh(fields), {}, items) == Good((Fresh(fields) + MergedFields(fields, m), m.Keys))
    ensures Required(fields) <= m.Keys
  {
    hide Merged, Known, Meaning, Taken, DistinctItems, InterpItems;
    var taken := Taken(fields, items);
    OnlyTakenMatter(fields, Fresh(fields), {}, items);
    FreshHoldsNoStruct(fields);
    InterpDistinct(fields, Fresh(fields), {}, taken);
    ItemMapAt(fields, taken);
    var merged := MergedFields(fields, m);
    forall id | id in m ensures id in merged && ItemMap(fields, taken)[id] == merged[id] {
      assert id in ItemIds(taken);
      var it :| it in taken && it.id == id;
    }
    assert ItemMap(fields, taken) == merged;
    assert {} + ItemIds(taken) == m.Keys;
  }

  lemma FreshHoldsNoStruct(fields: Fields)
    requires TyOk(TStruct(fields))
    ensures forall id :: id in Fresh(fields) ==> !Fresh(fields)[id].Struct?
  {
  }

  // What else can come: too little, or a field more than once.

  /** A struct whose fields are all good and come once each is refused exactly if
      a required one is not among them. */
  lemma MissingIff(fields: Fields, items: seq<Item>, rest: seq<Token>)
    requires TyOk(TStruct(fields)) && WellFormed(Group(items))
    requires AllGood(fields, Taken(fields, items)) && DistinctItems(Taken(fields, items))
    ensures ReadValue(TStruct(fields), None, FlattenItems(items) + rest) == Missing
            <==> !(Required(fields) <= ItemIds(Taken(fields, items)))
  {
    hide Known, Meaning, Taken, DistinctItems, InterpItems, ReadValue, WellFormed, TyOk, ItemMap;
    ReadFlatten(TStruct(fields), None, Group(items), rest);
    OnlyTakenMatter(fields, Fresh(fields), {}, items);
    FreshHoldsNoStruct(fields);
    InterpDistinct(fields, Fresh(fields), {}, Taken(fields, items));
    assert {} + ItemIds(Taken(fields, items)) == ItemIds(Taken(fields, items));
  }

  lemma {:induction false} InterpConcat(fields: Fields, m: map<int, Value>, seen: set<int>, a: seq<Item>, b: seq<Item>)
    requires InterpItems(fields, m, seen, a).Good?
    ensures var first := InterpItems(fields, m, seen, a).value;
            InterpItems(fields, m, seen, a + b) == InterpItems(fields, first.0, first.1, b)
    decreases |a|
  {
    hide Interp;
    if a == [] {
      assert a + b == b;
    } else {
      var it := a[0];
      assert (a + b)[0] == it && (a + b)[1..] == a[1..] + b;
      if Known(fields, it) {
        var v := Interp(Lookup(fields, it.id).value.ty, Current(m, it.id), it.w).value;
        InterpConcat(fields, m[it.id := v], seen + {it.id}, a[1..], b);
      } else {
        InterpConcat(fields, m, seen, a[1..], b);
      }
    }
  }

  lemma TakeOne(fields: Fields, m: map<int, Value>, seen: set<int>, it: Item, more: seq<Item>, v: Value)
    requires Known(fields, it) && Interp(Lookup(fields, it.id).value.ty, Current(m, it.id), it.w) == Good(v)
    ensures InterpItems(fields, m, seen, [it] + more) == InterpItems(fields, m[it.id := v], seen + {it.id}, more)
  {
    hide Interp;
    assert ([it] + more)[1..] == more;
  }

  /** Two good fields of the same id, read one after the other: the second stands. */
  lemma {:induction false} TakeTwo(
    fields: Fields, m: map<int, Value>, seen: set<int>, a: Item, b: Item, va: Value, vb: Value)
    requires a.id == b.id && a.id in fields && Known(fields, a) && Known(fields, b)
    requires Interp(fields[a.id].ty, Current(m, a.id), a.w) == Good(va)
    requires Interp(fields[a.id].ty, Some(va), b.w) == Good(vb)
    ensures InterpItems(fields, m, seen, [a, b]) == Good((m[a.id := vb], seen + {a.id}))
  {
    hide Interp;
    assert Lookup(fields, a.id).value == fields[a.id];
    TakeOne(fields, m, seen, a, [b], va);
    TakeOne(fields, m[a.id := va], seen + {a.id}, b, [], vb);
    assert [a] + [b] == [a, b] && [b] + [] == [b];
    assert m[a.id := va][a.id := vb] == m[a.id := vb] && seen + {a.id} + {a.id} == seen + {a.id};
  }

  /** A scalar that comes again replaces the one before. */
  lemma {:induction false} LastScalarWins(
    fields: Fields, m: map<int, Value>, seen: set<int>, id: int, a: Scalar, b: Scalar)
    requires id in fields && fields[id].ty == Prim(KindOf(a)) && KindOf(a) == KindOf(b)
    ensures InterpItems(fields, m, seen, [Item(id, One(a)), Item(id, One(b))]) == Good((m[id := Leaf(b)], seen + {id}))
  {
    TakeTwo(fields, m, seen, Item(id, One(a)), Item(id, One(b)), Leaf(a), Leaf(b));
  }

  /** A struct member that comes again is read into the one that is there: the two
      together are as one with the fields of both, in order. */
  lemma {:induction false} StructsMerge(
    fields: Fields, m: map<int, Value>, seen: set<int>, id: int, sub: Fields, xs: seq<Item>, ys: seq<Item>)
    requires id in fields && fields[id].ty == TStruct(sub) && id !in m
    requires Interp(TStruct(sub), None, Group(xs)).Good?
    requires Interp(TStruct(sub), Some(Interp(TStruct(sub), None, Group(xs)).value), Group(ys)).Good?
    ensures InterpItems(sub, Fresh(sub), {}, xs + ys).Good?
    ensures InterpItems(fields, m, seen, [Item(id, Group(xs)), Item(id, Group(ys))])
            == Good((m[id := Struct(InterpItems(sub, Fresh(sub), {}, xs + ys).value.0)], seen + {id}))
  {
    hide InterpItems;
    InterpConcat(sub, Fresh(sub), {}, xs, ys);
    var first := InterpItems(sub, Fresh(sub), {}, xs).value;
    SeenAside(sub, first.0, first.1, {}, ys);
    var v := Interp(TStruct(sub), None, Group(xs)).value;
    TakeTwo(fields, m, seen, Item(id, Group(xs)), Item(id, Group(ys)), v,
            Interp(TStruct(sub), Some(v), Group(ys)).value);
  }

  /** Which fields were seen before does not change what is read. */
  lemma {:induction false} SeenAside(
    fields: Fields, m: map<int, Value>, seen: set<int>, other: set<int>, items: seq<Item>)
    ensures var a, b := InterpItems(fields, m, seen, items), InterpItems(fields, m, other, items);
            (a.Good? <==> b.Good?) && (a.Good? ==> a.value.0 == b.value.0)
    decreases |items|
  {
    hide Interp;
    if items != [] {
      var it := items[0];
      if Known(fields, it) {
        var r := Interp(Lookup(fields, it.id).value.ty, Current(m, it.id), it.w);
        if r.Good? {
          SeenAside(fields, m[it.id := r.value], seen + {it.id}, other + {it.id}, items[1..]);
        }
      } else {
        SeenAside(fields, m, seen, other, items[1..]);
      }
    }
  }

  // What is written is such a stream.

  function IdsFrom(m: map<int, Value>, least: nat): set<int> {
    set id | id in m && id >= least
  }

  lemma {:induction false} ToItemsFacts(fields: Fields, m: map<int, Value>, id: nat)
    requires TyOk(TStruct(fields)) && Typed(fields, m)
    ensures var items := ToItems(fields, m, id);
            && DistinctItems(items) && ItemIds(items) == IdsFrom(m, id)
            && forall it :: it in items ==>
                 Known(fields, it) && it.id in m && it.w == ToWire(fields[it.id].ty, m[it.id])
    decreases LAST_ID + 1 - id
  {
    hide HasType, ToWire, WellFormed;
    if id > LAST_ID {
      NoIds(fields, m, id);
    } else {
      ToItemsFacts(fields, m, id + 1);
      OneMoreItem(fields, m, id);
    }
  }

  /** Fields are written in the order of their ids. */
  lemma {:induction false} WrittenInOrder(fields: Fields, m: map<int, Value>, id: nat)
    ensures var items := ToItems(fields, m, id);
            (forall it :: it in items ==> id <= it.id) &&
            (forall i, j :: 0 <= i < j < |items| ==> items[i].id < items[j].id)
    decreases LAST_ID + 1 - id
  {
    hide ToWire;
    if id <= LAST_ID {
      WrittenInOrder(fields, m, id + 1);
      var more := ToItems(fields, m, id + 1);
      if id in fields && id in m {
        assert ToItems(fields, m, id) == [Item(id, ToWire(fields[id].ty, m[id]))] + more;
      } else {
        assert ToItems(fields, m, id) == more;
      }
    }
  }

  lemma NoIds(fields: Fields, m: map<int, Value>, id: nat)
    requires TyOk(TStruct(fields)) && Typed(fields, m) && id > LAST_ID
    ensures ItemIds([]) == IdsFrom(m, id)
  {
  }

  lemma OneMoreItem(fields: Fields, m: map<int, Value>, id: nat)
    requires TyOk(TStruct(fields)) && Typed(fields, m) && id <= LAST_ID
    requires var more := ToItems(fields, m, id + 1);
             DistinctItems(more) && ItemIds(more) == IdsFrom(m, id + 1)
    ensures var items, more := ToItems(fields, m, id), ToItems(fields, m, id + 1);
            && DistinctItems(items) && ItemIds(items) == IdsFrom(m, id)
            && if id in m then
                 && items == [Item(id, ToWire(fields[id].ty, m[id]))] + more
                 && Known(fields, items[0])
               else items == more
  {
    hide HasType, ToWire, WellFormed, TyOk, DistinctItems;
    var items, more := ToItems(fields, m, id), ToItems(fields, m, id + 1);
    if id in m {
      WriteIsFlatten(fields[id].ty, m[id]);
      var first := Item(id, ToWire(fields[id].ty, m[id]));
      assert items == [first] + more;
      assert ItemIds(items) == {id} + ItemIds(more);
      assert IdsFrom(m, id) == {id} + IdsFrom(m, id + 1);
      FirstIsNew(first, more);
    } else {
      assert items == more && IdsFrom(m, id) == IdsFrom(m, id + 1);
    }
  }

  lemma FirstIsNew(first: Item, more: seq<Item>)
    requires DistinctItems(more) && first.id !in ItemIds(more)
    ensures DistinctItems([first] + more)
  {
    var items := [first] + more;
    forall i, j | 0 <= i < j < |items| ensures items[i].id != items[j].id {
      assert items[j] in more && items[j].id in ItemIds(more);
    }
  }

  lemma {:induction false} TakenAll(fields: Fields, items: seq<Item>)
    requires forall it :: it in items ==> Known(fields, it)
    ensures Taken(fields, items) == items
  {
    hide Known;
    if items != [] {
      TakenAll(fields, items[1..]);
    }
  }

  lemma {:induction false} WriteCarries(ty: Ty, v: Value)
    requires TyOk(ty) && HasType(ty, v)
    ensures Carries(ty, v, ToWire(ty, v))
    decreases ty, 2
  {
    match (ty, v)
    case (Prim(_), Leaf(s)) =>
    case (TList(elem), Items(vs)) => WriteElemsCarry(elem, vs);
    case (TStruct(fields), Struct(m)) =>
      var items := ToItems(fields, m, 1);
      ToItemsFacts(fields, m, 1);
      TakenAll(fields, items);
      assert IdsFrom(m, 1) == m.Keys;
      forall it | it in items ensures CarriesItem(fields, m, it) {
        WriteCarries(fields[it.id].ty, m[it.id]);
      }
  }

  lemma {:induction false} WriteElemsCarry(elem: Ty, vs: seq<Value>)
    requires TyOk(elem) && forall e :: e in vs ==> HasType(elem, e)
    ensures forall i :: 0 <= i < |vs| ==> Carries(elem, vs[i], ToWires(elem, vs)[i])
    decreases elem, 3, |vs|
  {
    if vs != [] {
      WriteCarries(elem, vs[0]);
      WriteElemsCarry(elem, vs[1..]);
      assert vs == [vs[0]] + vs[1..];
    }
  }

  /** Any stream that carries a written value, at every depth in whatever order
      and with whatever else in between, reads as that value. */
  lemma ReaderTolerates(ty: Ty, v: Value, w: Wire, rest: seq<Token>)
    requires TyOk(ty) && HasType(ty, v) && WellFormed(w) && Carries(ty, v, w)
    ensures ReadValue(ty, None, Flatten(w) + rest)
            == ReadValue(ty, None, Write(ty, v) + rest)
            == Ok(Merged(ty, v), rest)
  {
    hide *;
    InterpCarried(ty, None, v, w);
    ReadFlatten(ty, None, w, rest);
    WriteThenRead(ty, v, rest);
    GoodIsOk(Merged(ty, v), rest);
  }

  /** Reading what `Write` emitted, with anything behind it, consumes exactly
      those tokens, misses no required field, and yields the written value with
      the presets of a fresh object filled in. */
  lemma WriteThenRead(ty: Ty, v: Value, rest: seq<Token>)
    requires TyOk(ty) && HasType(ty, v)
    ensures ReadValue(ty, None, Write(ty, v) + rest) == Ok(Merged(ty, v), rest)
  {
    hide *;
    WriteCarries(ty, v);
    InterpCarried(ty, None, v, ToWire(ty, v));
    WriteIsFlatten(ty, v);
    ReadFlatten(ty, None, ToWire(ty, v), rest);
    GoodIsOk(Merged(ty, v), rest);
  }

  lemma GoodIsOk(v: Value, rest: seq<Token>)
    ensures Then(Good(v), rest) == Ok(v, rest)
  {
  }

  // When the round trip is exact.

  /** Every field that a fresh object has preset is set, at every level. */
  ghost predicate Covers(ty: Ty, v: Value) {
    match (ty, v)
    case (TList(elem), Items(vs)) => forall e :: e in vs ==> Covers(elem, e)
    case (TStruct(fields), Struct(m)) =>
      && Fresh(fields).Keys <= m.Keys
      && (forall id :: id in fields && id in m ==> Covers(fields[id].ty, m[id]))
    case _ => true
  }

  /** A value comes back as it was exactly when no preset of a fresh object can
      show through. */
  lemma {:induction false} ExactIffCovers(ty: Ty, v: Value)
    requires TyOk(ty) && HasType(ty, v)
    ensures Merged(ty, v) == v <==> Covers(ty, v)
    decreases ty, 2
  {
    match (ty, v)
    case (Prim(_), Leaf(s)) =>
    case (TList(elem), Items(vs)) => ElemsExactIffCover(elem, vs);
    case (TStruct(fields), Struct(m)) =>
      forall id | id in m ensures Merged(fields[id].ty, m[id]) == m[id] <==> Covers(fields[id].ty, m[id]) {
        ExactIffCovers(fields[id].ty, m[id]);
      }
      PresetsShow(fields, m);
  }

  lemma {:induction false} ElemsExactIffCover(elem: Ty, vs: seq<Value>)
    requires TyOk(elem) && forall e :: e in vs ==> HasType(elem, e)
    ensures MergedElems(elem, vs) == vs <==> forall e :: e in vs ==> Covers(elem, e)
    decreases elem, 3, |vs|
  {
    if vs != [] {
      ExactIffCovers(elem, vs[0]);
      ElemsExactIffCover(elem, vs[1..]);
      assert vs == [vs[0]] + vs[1..];
      assert MergedElems(elem, vs)[0] == Merged(elem, vs[0]);
      assert MergedElems(elem, vs)[1..] == MergedElems(elem, vs[1..]);
    }
  }

  lemma PresetsShow(fields: Fields, m: map<int, Value>)
    requires TyOk(TStruct(fields)) && HasType(TStruct(fields), Struct(m))
    ensures Fresh(fields) + MergedFields(fields, m) == m <==>
            && Fresh(fields).Keys <= m.Keys
            && forall id :: id in m ==> Merged(fields[id].ty, m[id]) == m[id]
  {
    hide Merged;
    var blank, merged := Fresh(fields), MergedFields(fields, m);
    assert forall id :: id in m ==> id in fields;
    assert merged.Keys == m.Keys;
    if blank.Keys <= m.Keys && forall id :: id in m ==> Merged(fields[id].ty, m[id]) == m[id] {
      assert blank + merged == m;
    }
  }

  /** Writing and reading back gives an equal object if and only if the object
      has every preset field set: the `is_compressed` flag, for one. */
  lemma RoundTripExact(ty: Ty, v: Value, rest: seq<Token>)
    requires TyOk(ty) && HasType(ty, v)
    ensures ReadValue(ty, None, Write(ty, v) + rest) == Ok(v, rest) <==> Covers(ty, v)
  {
    hide *;
    WriteThenRead(ty, v, rest);
    ExactIffCovers(ty, v);
  }

  /** A well-typed value that comes back as it was. */
  ghost predicate Exact(ty: Ty, v: Value) {
    HasType(ty, v) && Covers(ty, v)
  }

  /** Unsetting an optional field that has a preset spoils the round trip. */
  lemma WithoutPreset(fields: Fields, m: map<int, Value>, id: int)
    requires HasType(TStruct(fields), Struct(m))
    requires id in fields && !fields[id].required && fields[id].preset.Some?
    ensures HasType(TStruct(fields), Struct(m - {id})) && !Covers(TStruct(fields), Struct(m - {id}))
  {
    assert id in Fresh(fields).Keys && id !in m - {id};
    assert Required(fields) <= (m - {id}).Keys;
  }

  lemma StructExact(fields: Fields, m: map<int, Value>)
    requires forall id :: id in m ==> id in fields && Exact(fields[id].ty, m[id])
    requires forall id :: id in fields && (fields[id].required || fields[id].preset.Some?) ==> id in m
    ensures Exact(TStruct(fields), Struct(m))
  {
    forall id | id in m ensures HasType(fields[id].ty, m[id]) && Covers(fields[id].ty, m[id]) {
      assert Exact(fields[id].ty, m[id]);
    }
    forall id | id in Required(fields) || id in Fresh(fields) ensures id in m {
      assert id in fields && (fields[id].required || fields[id].preset.Some?);
    }
    assert HasType(TStruct(fields), Struct(m)) && Covers(TStruct(fields), Struct(m));
  }

  lemma ListExact(elem: Ty, vs: seq<Value>)
    requires |vs| < TWO31 && forall e :: e in vs ==> Exact(elem, e)
    ensures Exact(TList(elem), Items(vs))
  {
  }

  lemma ScalarExact(v: Scalar)
    requires InRange(v)
    ensures Exact(Prim(KindOf(v)), Leaf(v))
  {
  }
}
