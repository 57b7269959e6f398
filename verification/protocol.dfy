/** The generated `read` and `write` as they run: loops over a protocol object
    (gen-cpp/parquet_types.cpp). */
module Protocols {
  import opened Bytes
  import opened Thrift
  import opened WireTrees

  /** A `TProtocol`: for a reader what is left to read, for a writer what has been written. */
  class Protocol {
    var tokens: seq<Token>

    constructor (tokens: seq<Token>)
      ensures this.tokens == tokens
    {
      this.tokens := tokens;
    }

    /** The next token, taken off the stream. */
    method Next() returns (t: Option<Token>)
      modifies this
      ensures if old(tokens) == [] then t == None && tokens == []
              else t == Some(old(tokens)[0]) && tokens == old(tokens)[1..]
    {
      if tokens == [] {
        return None;
      }
      t := Some(tokens[0]);
      tokens := tokens[1..];
    }

    method Put(t: Token)
      modifies this
      ensures tokens == old(tokens) + [t]
    {
      tokens := tokens + [t];
    }
  }

  /** A reader's outcome, and what it left on the stream, are as specified. */
  ghost predicate Agrees<T>(r: Sense<T>, left: seq<Token>, spec: Read<T>) {
    match spec
    case Ok(v, rest) => r == Good(v) && left == rest
    case Missing => r == NoField
    case Bad => r == Nonsense
  }

  /** The field loop of a generated `read`. */
  method ReadStruct(fields: Fields, cur: Option<Value>, iprot: Protocol) returns (r: Sense<Value>)
    modifies iprot
    ensures Agrees(r, iprot.tokens, ReadValue(TStruct(fields), cur, old(iprot.tokens)))
    decreases |iprot.tokens|, 0
  {
    var m, seen := Start(fields, cur), {};
    while true
      invariant |iprot.tokens| <= |old(iprot.tokens)|
      invariant ReadFields(fields, m, seen, iprot.tokens)
                == ReadFields(fields, Start(fields, cur), {}, old(iprot.tokens))
      decreases |iprot.tokens|
    {
      var t := iprot.Next();
      if t == None || t.value.ListBegin? || t.value.Val? {
        return Nonsense;
      }
      if t.value.FieldStop? {
        break;
      }
      var id, known := t.value.id, Lookup(fields, t.value.id);
      if known.Some? && WireType(known.value.ty) == t.value.ftype {
        var member := ReadMember(known.value.ty, Current(m, id), iprot);
        if !member.Good? {
          return if member.NoField? then NoField else Nonsense;
        }
        m, seen := m[id := member.value], seen + {id};
      } else {
        var skipped := SkipValue(t.value.ftype, iprot);
        if !skipped.Good? {
          return Nonsense;
        }
      }
    }
    if !(Required(fields) <= seen) {
      return NoField;
    }
    r := Good(Struct(m));
  }

  method ReadMember(ty: Ty, cur: Option<Value>, iprot: Protocol) returns (r: Sense<Value>)
    modifies iprot
    ensures Agrees(r, iprot.tokens, ReadValue(ty, cur, old(iprot.tokens)))
    decreases |iprot.tokens|, 1
  {
    if ty.TStruct? {
      r := ReadStruct(ty.fields, cur, iprot);
      return;
    }
    var t := iprot.Next();
    if ty.Prim? {
      if t.Some? && t.value.Val? && KindOf(t.value.v) == ty.t {
        return Good(Leaf(t.value.v));
      }
      return Nonsense;
    }
    if t == None || !t.value.ListBegin? {
      return Nonsense;
    }
    ghost var start := iprot.tokens;
    var vs, i := [], 0;
    PrefixedTwice(vs, Items([]), ReadElems(ty.elem, t.value.size, start));
    while i < t.value.size
      invariant 0 <= i <= t.value.size && |iprot.tokens| <= |start| < |old(iprot.tokens)|
      invariant ReadElems(ty.elem, t.value.size, start)
                == Prefixed(vs, ReadElems(ty.elem, t.value.size - i, iprot.tokens))
    {
      var e := ReadMember(ty.elem, None, iprot);
      if !e.Good? {
        return if e.NoField? then NoField else Nonsense;
      }
      PrefixedTwice(vs, e.value, ReadElems(ty.elem, t.value.size - i - 1, iprot.tokens));
      vs, i := vs + [e.value], i + 1;
    }
    assert vs + [] == vs;
    r := Good(Items(vs));
  }

  ghost function Prefixed(vs: seq<Value>, r: Read<seq<Value>>): Read<seq<Value>> {
    match r
    case Ok(more, rest) => Ok(vs + more, rest)
    case Missing => Missing
    case Bad => Bad
  }

  lemma PrefixedTwice(vs: seq<Value>, v: Value, r: Read<seq<Value>>)
    ensures Prefixed(vs, Prefixed([v], r)) == Prefixed(vs + [v], r)
    ensures Prefixed([], r) == r
  {
    if r.Ok? {
      assert vs + ([v] + r.value) == vs + [v] + r.value;
      assert [] + r.value == r.value;
    }
  }

  /** `skip` of a protocol. */
  method SkipValue(t: TType, iprot: Protocol) returns (r: Sense<()>)
    modifies iprot
    ensures Agrees(r, iprot.tokens, Skip(t, old(iprot.tokens)))
    decreases |iprot.tokens|
  {
    if t == T_STRUCT {
      while true
        invariant |iprot.tokens| <= |old(iprot.tokens)|
        invariant SkipFields(iprot.tokens) == SkipFields(old(iprot.tokens))
        decreases |iprot.tokens|
      {
        var f := iprot.Next();
        if f == None || f.value.ListBegin? || f.value.Val? {
          return Nonsense;
        }
        if f.value.FieldStop? {
          return Good(());
        }
        var inner := SkipValue(f.value.ftype, iprot);
        if !inner.Good? {
          return inner;
        }
      }
    }
    var first := iprot.Next();
    if t != T_LIST {
      return if first.Some? && first.value.Val? && KindOf(first.value.v) == t then Good(()) else Nonsense;
    }
    if first == None || !first.value.ListBegin? {
      return Nonsense;
    }
    ghost var start := iprot.tokens;
    var i := 0;
    while i < first.value.size
      invariant 0 <= i <= first.value.size && |iprot.tokens| <= |start| < |old(iprot.tokens)|
      invariant SkipElems(first.value.etype, first.value.size, start)
                == SkipElems(first.value.etype, first.value.size - i, iprot.tokens)
    {
      var e := SkipValue(first.value.etype, iprot);
      if !e.Good? {
        return e;
      }
      i := i + 1;
    }
    r := Good(());
  }

  /** A generated `write`: the set fields in the order of their ids, then the stop mark. */
  method WriteStruct(fields: Fields, m: map<int, Value>, oprot: Protocol)
    modifies oprot
    ensures oprot.tokens == old(oprot.tokens) + WriteFields(fields, m, 1)
    decreases TStruct(fields), 1
  {
    var id := 1;
    while id <= LAST_ID
      invariant 1 <= id <= LAST_ID + 1
      invariant oprot.tokens + WriteFields(fields, m, id) == old(oprot.tokens) + WriteFields(fields, m, 1)
    {
      ghost var before, more := oprot.tokens, WriteFields(fields, m, id + 1);
      if id in fields && id in m {
        var head := FieldBegin(WireType(fields[id].ty), id);
        oprot.Put(head);
        WriteMember(fields[id].ty, m[id], oprot);
        Regroup(before, head, Write(fields[id].ty, m[id]), more);
      } else {
        assert WriteFields(fields, m, id) == more;
      }
      id := id + 1;
    }
    oprot.Put(FieldStop);
  }

  lemma Regroup(before: seq<Token>, head: Token, body: seq<Token>, more: seq<Token>)
    ensures before + [head] + body + more == before + ([head] + body + more)
  {
  }

  method WriteMember(ty: Ty, v: Value, oprot: Protocol)
    modifies oprot
    ensures oprot.tokens == old(oprot.tokens) + Write(ty, v)
    decreases ty, 2
  {
    match (ty, v)
    case (Prim(_), Leaf(s)) =>
      oprot.Put(Val(s));
    case (TList(elem), Items(vs)) =>
      oprot.Put(ListBegin(WireType(elem), |vs|));
      ghost var start := oprot.tokens;
      var i := 0;
      assert vs[0..] == vs;
      while i < |vs|
        invariant 0 <= i <= |vs|
        invariant oprot.tokens + WriteElems(elem, vs[i..]) == start + WriteElems(elem, vs)
      {
        assert vs[i..][0] == vs[i] && vs[i..][1..] == vs[i + 1..];
        Associative(oprot.tokens, Write(elem, vs[i]), WriteElems(elem, vs[i + 1..]));
        WriteMember(elem, vs[i], oprot);
        i := i + 1;
      }
      assert oprot.tokens + WriteElems(elem, vs[i..]) == oprot.tokens;
      Associative(old(oprot.tokens), [ListBegin(WireType(elem), |vs|)], WriteElems(elem, vs));
    case (TStruct(fields), Struct(m)) =>
      WriteStruct(fields, m, oprot);
    case _ =>
  }
}
