/** A codec that keeps the promise asked of one: a struct as a list of numbers,
    and each number as a run of ones. */
module Codecs {
  import opened Bytes
  import opened Thrift
  import opened WireTrees
  import opened Layout

  // Numbers as bytes.

  function NatBytes(n: nat): seq<byte> {
    if n == 0 then [0] else [1] + NatBytes(n - 1)
  }

  function ReadNat(s: seq<byte>): (r: Option<(nat, seq<byte>)>) {
    if s == [] then None
    else if s[0] == 0 then Some((0, s[1..]))
    else
      match ReadNat(s[1..])
      case None => None
      case Some((n, rest)) => Some((n + 1, rest))
  }

  lemma {:induction false} NatBack(n: nat, rest: seq<byte>)
    ensures ReadNat(NatBytes(n) + rest) == Some((n, rest))
  {
    var s := NatBytes(n) + rest;
    if n == 0 {
      assert s[1..] == rest;
    } else {
      assert s[1..] == NatBytes(n - 1) + rest;
      NatBack(n - 1, rest);
    }
  }

  function NatsBytes(ns: seq<nat>): seq<byte> {
    if ns == [] then [] else NatBytes(ns[0]) + NatsBytes(ns[1..])
  }

  function ReadNats(count: nat, s: seq<byte>): Option<(seq<nat>, seq<byte>)> {
    if count == 0 then Some(([], s))
    else
      match ReadNat(s)
      case None => None
      case Some((n, rest)) =>
        match ReadNats(count - 1, rest)
        case None => None
        case Some((ns, more)) => Some(([n] + ns, more))
  }

  lemma {:induction false} NatsBack(ns: seq<nat>, rest: seq<byte>)
    ensures ReadNats(|ns|, NatsBytes(ns) + rest) == Some((ns, rest))
  {
    hide NatBytes, ReadNat;
    if ns == [] {
      assert NatsBytes(ns) + rest == rest;
    } else {
      Associative(NatBytes(ns[0]), NatsBytes(ns[1..]), rest);
      NatBack(ns[0], NatsBytes(ns[1..]) + rest);
      NatsBack(ns[1..], rest);
      assert ns == [ns[0]] + ns[1..];
    }
  }

  // Tokens as numbers.

  function TypeCode(t: TType): nat {
    match t
    case T_BOOL => 0
    case T_I16 => 1
    case T_I32 => 2
    case T_I64 => 3
    case T_STRING => 4
    case T_LIST => 5
    case T_STRUCT => 6
  }

  function TypeOfCode(n: nat): TType {
    match n
    case 0 => T_BOOL
    case 1 => T_I16
    case 2 => T_I32
    case 3 => T_I64
    case 4 => T_STRING
    case 5 => T_LIST
    case _ => T_STRUCT
  }

  function IntCode(i: int): nat {
    if i >= 0 then 2 * i else -2 * i - 1
  }

  function IntOfCode(n: nat): int {
    if n % 2 == 0 then n / 2 else -(n / 2) - 1
  }

  function TextCodes(s: string): (ns: seq<nat>)
    ensures |ns| == |s|
  {
    seq(|s|, i requires 0 <= i < |s| => s[i] as nat)
  }

  function TextOfCodes(ns: seq<nat>): (s: string) {
    seq(|ns|, i requires 0 <= i < |ns| =>
      if ns[i] < 0xD800 || 0xE000 <= ns[i] < 0x11_0000 then ns[i] as char else ' ')
  }

  function TokenNats(t: Token): (ns: seq<nat>)
    ensures ns != []
  {
    match t
    case FieldStop => [0]
    case FieldBegin(ftype, id) => [1, TypeCode(ftype), IntCode(id)]
    case ListBegin(etype, size) => [2, TypeCode(etype), size]
    case Val(Bool(b)) => [3, if b then 1 else 0]
    case Val(I16(i)) => [4, IntCode(i)]
    case Val(I32(i)) => [5, IntCode(i)]
    case Val(I64(i)) => [6, IntCode(i)]
    case Val(Str(s)) => [7, |s|] + TextCodes(s)
  }

  function ReadToken(ns: seq<nat>): (r: Option<(Token, seq<nat>)>)
    ensures r.Some? ==> |r.value.1| < |ns|
  {
    if ns == [] then None
    else if ns[0] == 0 then Some((FieldStop, ns[1..]))
    else if |ns| < 2 then None
    else
      match ns[0]
      case 3 => Some((Val(Bool(ns[1] == 1)), ns[2..]))
      case 4 => Some((Val(I16(IntOfCode(ns[1]))), ns[2..]))
      case 5 => Some((Val(I32(IntOfCode(ns[1]))), ns[2..]))
      case 6 => Some((Val(I64(IntOfCode(ns[1]))), ns[2..]))
      case 7 =>
        var end := 2 + ns[1];
        if end > |ns| then None else Some((Val(Str(TextOfCodes(ns[2..end]))), ns[end..]))
      case tag =>
        if |ns| < 3 then None
        else if tag == 1 then Some((FieldBegin(TypeOfCode(ns[1]), IntOfCode(ns[2])), ns[3..]))
        else Some((ListBegin(TypeOfCode(ns[1]), ns[2]), ns[3..]))
  }

  lemma TextBack(s: string)
    ensures TextOfCodes(TextCodes(s)) == s
  {
  }

  lemma TokenBack(t: Token, rest: seq<nat>)
    ensures ReadToken(TokenNats(t) + rest) == Some((t, rest))
  {
    hide TextOfCodes, TextCodes;
    var own := TokenNats(t);
    assert forall i :: 0 <= i < |own| ==> (own + rest)[i] == own[i];
    DropIntoConcat(own, rest, |own|);
    if t.Val? && t.v.Str? {
      var codes := TextCodes(t.v.s);
      TextBack(t.v.s);
      assert (own + rest)[2..2 + |codes|] == codes;
    }
  }

  function TokensNats(ts: seq<Token>): seq<nat> {
    if ts == [] then [] else TokenNats(ts[0]) + TokensNats(ts[1..])
  }

  function ReadTokens(ns: seq<nat>): Option<seq<Token>> {
    if ns == [] then Some([])
    else
      match ReadToken(ns)
      case None => None
      case Some((t, rest)) =>
        match ReadTokens(rest)
        case None => None
        case Some(ts) => Some([t] + ts)
  }

  lemma {:induction false} TokensBack(ts: seq<Token>)
    ensures ReadTokens(TokensNats(ts)) == Some(ts)
  {
    hide TokenNats, ReadToken;
    if ts != [] {
      TokenBack(ts[0], TokensNats(ts[1..]));
      TokensBack(ts[1..]);
      assert ts == [ts[0]] + ts[1..];
    }
  }

  // The codec.

  function EncodeTokens(ts: seq<Token>): seq<byte> {
    var ns := TokensNats(ts);
    NatBytes(|ns|) + NatsBytes(ns)
  }

  function DecodeTokens(bytes: seq<byte>): Option<(seq<Token>, nat)> {
    match ReadNat(bytes)
    case None => None
    case Some((count, rest)) =>
      match ReadNats(count, rest)
      case None => None
      case Some((ns, more)) =>
        match ReadTokens(ns)
        case None => None
        case Some(ts) => if |more| > |bytes| then None else Some((ts, |bytes| - |more|))
  }

  function Unary(): Codec {
    Codec(EncodeTokens, DecodeTokens)
  }

  lemma DecodeBack(ts: seq<Token>, rest: seq<byte>)
    ensures DecodeTokens(EncodeTokens(ts) + rest) == Some((ts, |EncodeTokens(ts)|))
  {
    hide NatBytes, NatsBytes, ReadNat, ReadNats, TokensNats, ReadTokens;
    var ns := TokensNats(ts);
    Associative(NatBytes(|ns|), NatsBytes(ns), rest);
    NatBack(|ns|, NatsBytes(ns) + rest);
    NatsBack(ns, rest);
    TokensBack(ts);
  }

  /** What is assumed of the library can be had. */
  lemma UnaryIsSelfDelimiting()
    ensures SelfDelimiting(Unary())
  {
    hide EncodeTokens, DecodeTokens, FlattenItems, WellFormed;
    var c := Unary();
    forall items, rest | WellFormed(Group(items))
      ensures c.decode(c.encode(FlattenItems(items)) + rest)
              == Some((FlattenItems(items), |c.encode(FlattenItems(items))|))
    {
      DecodeBack(FlattenItems(items), rest);
    }
  }
}
