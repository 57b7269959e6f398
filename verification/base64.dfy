/** Random access into base64 text (sections 4 and 3.5 of RFC 4648). */
module Base64 {
  import opened Bytes
  import opened Storage

  const PAD: byte := 61  // '='

  /** The alphabet of Table 1 of RFC 4648, as ASCII codes. */
  function Symbol(v: nat): byte
    requires v < 64
  {
    if v < 26 then 65 + v
    else if v < 52 then 97 + (v - 26)
    else if v < 62 then 48 + (v - 52)
    else if v == 62 then 43
    else 47
  }

  predicate InAlphabet(c: byte) {
    65 <= c <= 90 || 97 <= c <= 122 || 48 <= c <= 57 || c == 43 || c == 47
  }

  function Sextet(c: byte): (v: nat)
    requires InAlphabet(c)
    ensures v < 64 && Symbol(v) == c
  {
    if 65 <= c <= 90 then c - 65
    else if 97 <= c <= 122 then c - 97 + 26
    else if 48 <= c <= 57 then c - 48 + 52
    else if c == 43 then 62
    else 63
  }

  lemma SextetOfSymbol(v: nat)
    requires v < 64
    ensures InAlphabet(Symbol(v)) && Sextet(Symbol(v)) == v && Symbol(v) != PAD
  {
  }

  /** One, two or three bytes as one group of four characters. */
  function EncodeGroup(d: seq<byte>): (g: seq<byte>)
    requires 1 <= |d| <= 3
    ensures |g| == 4
  {
    var d1 := if |d| > 1 then d[1] else 0;
    var d2 := if |d| > 2 then d[2] else 0;
    [ Symbol(d[0] / 4),
      Symbol(d[0] % 4 * 16 + d1 / 16),
      if |d| > 1 then Symbol(d1 % 16 * 4 + d2 / 64) else PAD,
      if |d| > 2 then Symbol(d2 % 64) else PAD ]
  }

  /** The bytes in one group of four characters; none if it is malformed. */
  function DecodeGroup(g: seq<byte>): (d: seq<byte>)
    requires |g| == 4
    ensures |d| <= 3
  {
    if !InAlphabet(g[0]) || !InAlphabet(g[1]) then []
    else
      var v0, v1 := Sextet(g[0]), Sextet(g[1]);
      if g[2] == PAD then
        if g[3] == PAD then [v0 * 4 + v1 / 16] else []
      else if !InAlphabet(g[2]) then []
      else
        var v2 := Sextet(g[2]);
        var two := [v0 * 4 + v1 / 16, v1 % 16 * 16 + v2 / 4];
        if g[3] == PAD then two
        else if !InAlphabet(g[3]) then []
        else two + [v2 % 4 * 64 + Sextet(g[3])]
  }

  /** Reassembling bytes from the sextets they were cut into. */
  lemma Recombine(x: byte, y: byte, z: byte)
    ensures x / 4 * 4 + (x % 4 * 16 + y / 16) / 16 == x
    ensures (x % 4 * 16 + y / 16) % 16 * 16 + (y % 16 * 4 + z / 64) / 4 == y
    ensures (y % 16 * 4 + z / 64) % 4 * 64 + z % 64 == z
  {
  }

  lemma GroupRoundTrip(d: seq<byte>)
    requires 1 <= |d| <= 3
    ensures DecodeGroup(EncodeGroup(d)) == d
  {
    hide DecodeGroup, EncodeGroup;
    if |d| == 1 {
      OneByteGroup(d[0]);
      assert d == [d[0]];
    } else if |d| == 2 {
      TwoByteGroup(d[0], d[1]);
      assert d == [d[0], d[1]];
    } else {
      ThreeByteGroup(d[0], d[1], d[2]);
      assert d == [d[0], d[1], d[2]];
    }
  }

  lemma OneByteGroup(x: byte)
    ensures DecodeGroup(EncodeGroup([x])) == [x]
  {
    hide Symbol, Sextet;
    SextetOfSymbol(x / 4);
    SextetOfSymbol(x % 4 * 16);
    Recombine(x, 0, 0);
  }

  lemma TwoByteGroup(x: byte, y: byte)
    ensures DecodeGroup(EncodeGroup([x, y])) == [x, y]
  {
    hide Symbol, Sextet;
    SextetOfSymbol(x / 4);
    SextetOfSymbol(x % 4 * 16 + y / 16);
    SextetOfSymbol(y % 16 * 4);
    Recombine(x, y, 0);
  }

  lemma ThreeByteGroup(x: byte, y: byte, z: byte)
    ensures DecodeGroup(EncodeGroup([x, y, z])) == [x, y, z]
  {
    hide Symbol, Sextet, DecodeGroup;
    DecodeFour(x / 4, x % 4 * 16 + y / 16, y % 16 * 4 + z / 64, z % 64);
    Recombine(x, y, z);
  }

  lemma DecodeFour(v0: nat, v1: nat, v2: nat, v3: nat)
    requires v0 < 64 && v1 < 64 && v2 < 64 && v3 < 64
    ensures DecodeGroup([Symbol(v0), Symbol(v1), Symbol(v2), Symbol(v3)])
            == [v0 * 4 + v1 / 16, v1 % 16 * 16 + v2 / 4, v2 % 4 * 64 + v3]
  {
    hide Symbol, Sextet;
    SextetOfSymbol(v0);
    SextetOfSymbol(v1);
    SextetOfSymbol(v2);
    SextetOfSymbol(v3);
  }

  /** Table 1 of RFC 4648, as it is printed. */
  lemma SymbolIsPrinted(v: nat)
    requires v < 64
    ensures v < 26 ==> Symbol(v) == 'A' as int + v && 'A' as int + 25 == 'Z' as int
    ensures 26 <= v < 52 ==> Symbol(v) == 'a' as int + (v - 26) && 'a' as int + 25 == 'z' as int
    ensures 52 <= v < 62 ==> Symbol(v) == '0' as int + (v - 52) && '0' as int + 9 == '9' as int
    ensures Symbol(62) == '+' as int && Symbol(63) == '/' as int && PAD == '=' as int
  {
  }

  /** The number with the given digits, most significant first. */
  function Digits(base: nat, ds: seq<int>): int {
    if ds == [] then 0 else Digits(base, ds[..|ds| - 1]) * base + ds[|ds| - 1]
  }

  lemma DigitsUnfolded(base: nat, a: int, b: int, c: int, d: int)
    ensures Digits(base, [a, b]) == a * base + b
    ensures Digits(base, [a, b, c]) == (a * base + b) * base + c
    ensures Digits(base, [a, b, c, d]) == ((a * base + b) * base + c) * base + d
  {
    var two, three, four := [a, b], [a, b, c], [a, b, c, d];
    var one, none: seq<int> := [a], [];
    assert four[..3] == three && three[..2] == two && two[..1] == one && one[..0] == none;
    assert Digits(base, one) == a;
  }

  /** A group is a number of 24 bits: four digits of 64 on one side, three of 256
      on the other. */
  lemma GroupIsNumber(g: seq<byte>)
    requires |g| == 4 && forall i :: 0 <= i < 4 ==> InAlphabet(g[i])
    ensures |DecodeGroup(g)| == 3
    ensures var d := DecodeGroup(g);
            Digits(256, [d[0], d[1], d[2]]) == Digits(64, [Sextet(g[0]), Sextet(g[1]), Sextet(g[2]), Sextet(g[3])])
  {
    hide Sextet, Symbol, Digits;
    assert g[2] != PAD && g[3] != PAD;
    var d := DecodeGroup(g);
    DigitsUnfolded(256, d[0], d[1], d[2], 0);
    DigitsUnfolded(64, Sextet(g[0]), Sextet(g[1]), Sextet(g[2]), Sextet(g[3]));
  }

  /** The test vectors of section 10 of RFC 4648, and one with the last two symbols. */
  lemma TestVectors()
    ensures EncodeGroup([102]) == [90, 103, 61, 61]              // "f" is "Zg=="
    ensures EncodeGroup([102, 111]) == [90, 109, 56, 61]         // "fo" is "Zm8="
    ensures EncodeGroup([102, 111, 111]) == [90, 109, 57, 118]   // "foo" is "Zm9v"
    ensures EncodeGroup([251, 255]) == [43, 47, 56, 61]          // "+/8="
  {
  }

  /** A whole byte string as one padded base64 unit. */
  function Encode(d: seq<byte>): (t: seq<byte>) {
    if d == [] then []
    else if |d| <= 3 then EncodeGroup(d)
    else EncodeGroup(d[..3]) + Encode(d[3..])
  }

  /** Every byte that text decodes to, front to back, up to and including the
      first group that yields fewer than three. */
  function DecodeAll(text: seq<byte>): seq<byte> {
    if |text| < 4 then []
    else
      var g := DecodeGroup(text[..4]);
      if |g| < 3 then g else g + DecodeAll(text[4..])
  }

  lemma DecodeAllStep(g: seq<byte>, rest: seq<byte>)
    requires |g| == 4
    ensures DecodeAll(g + rest) == if |DecodeGroup(g)| < 3 then DecodeGroup(g) else DecodeGroup(g) + DecodeAll(rest)
  {
    assert (g + rest)[..4] == g && (g + rest)[4..] == rest;
  }

  /** Decoding undoes encoding. A padded unit hides whatever follows it; an
      unpadded one is continued by the text behind it. */
  lemma {:induction false} DecodeAllOfEncode(d: seq<byte>, tail: seq<byte>)
    ensures DecodeAll(Encode(d) + tail) == if |d| % 3 == 0 then d + DecodeAll(tail) else d
    decreases |d|
  {
    hide DecodeGroup, EncodeGroup, DecodeAll;
    if d == [] {
      assert Encode(d) + tail == tail;
    } else if |d| <= 3 {
      GroupRoundTrip(d);
      DecodeAllStep(EncodeGroup(d), tail);
    } else {
      GroupRoundTrip(d[..3]);
      DecodeAllStep(EncodeGroup(d[..3]), Encode(d[3..]) + tail);
      assert EncodeGroup(d[..3]) + (Encode(d[3..]) + tail) == Encode(d) + tail;
      DecodeAllOfEncode(d[3..], tail);
      assert d == d[..3] + d[3..];
    }
  }

  /** What a read of `size` bytes finds in `text` once `skip` decoded bytes are
      dropped; none if some group it needs is missing or too short. */
  function Fetch(text: seq<byte>, skip: nat, size: nat): (r: Option<seq<byte>>)
    ensures r.Some? ==> |r.value| == size
  {
    if size == 0 then Some([])
    else if |text| < 4 then None
    else
      var g := DecodeGroup(text[..4]);
      if |g| <= skip then None
      else if size <= |g| - skip then Some(g[skip..skip + size])
      else
        match Fetch(text[4..], 0, size - (|g| - skip))
        case None => None
        case Some(rest) => Some(g[skip..] + rest)
  }

  /** `text` from its group number `k` on. */
  function FromGroup(text: seq<byte>, k: nat): seq<byte> {
    if 4 * k <= |text| then text[4 * k..] else []
  }

  /** A random access: jump to the group, then fetch. */
  function FetchAt(text: seq<byte>, offset: nat, size: nat): (r: Option<seq<byte>>)
    ensures r.Some? ==> |r.value| == size
  {
    Fetch(FromGroup(text, offset / 3), offset % 3, size)
  }

  lemma FetchNothing(text: seq<byte>, offset: nat)
    ensures FetchAt(text, offset, 0) == Some([])
  {
  }

  lemma {:induction false} FetchIsSlice(text: seq<byte>, skip: nat, size: nat)
    requires skip < 3 && skip + size <= |DecodeAll(text)|
    ensures Fetch(text, skip, size) == Some(DecodeAll(text)[skip..skip + size])
    decreases |text|
  {
    hide DecodeGroup;
    if size == 0 {
      assert DecodeAll(text)[skip..skip + size] == [];
    } else {
      assert |text| >= 4;
      var g, all := DecodeGroup(text[..4]), DecodeAll(text);
      if size <= |g| - skip {
        assert all[skip..skip + size] == g[skip..skip + size];
      } else {
        var more := size - (|g| - skip);
        FetchIsSlice(text[4..], 0, more);
        assert all[skip..skip + size] == g[skip..] + DecodeAll(text[4..])[..more];
      }
    }
  }

  /** Skipping whole groups of text skips three decoded bytes apiece. */
  lemma {:induction false} SkipGroups(text: seq<byte>, k: nat)
    requires 3 * k <= |DecodeAll(text)|
    ensures 4 * k <= |text|
    ensures DecodeAll(text[4 * k..]) == DecodeAll(text)[3 * k..]
    decreases k
  {
    hide DecodeGroup;
    if k == 0 {
      assert text[0..] == text;
    } else {
      assert |text| >= 4;
      var g, rest := DecodeGroup(text[..4]), text[4..];
      assert DecodeAll(text) == g + DecodeAll(rest);
      SkipGroups(rest, k - 1);
      DropDrop(text, 4, 4 * (k - 1));
      DropIntoConcat(g, DecodeAll(rest), 3 * k);
    }
  }

  /** Random access agrees with decoding everything and slicing. */
  lemma FetchAtIsSlice(text: seq<byte>, offset: nat, size: nat)
    requires offset + size <= |DecodeAll(text)|
    ensures FetchAt(text, offset, size) == Some(DecodeAll(text)[offset..offset + size])
  {
    hide DecodeGroup, DecodeAll;
    if size == 0 {
      assert DecodeAll(text)[offset..offset + size] == [];
    } else {
      var k, back := offset / 3, offset % 3;
      SkipGroups(text, k);
      FetchIsSlice(FromGroup(text, k), back, size);
      var all := DecodeAll(text);
      SliceOfDrop(all, 3 * k, back, back + size);
    }
  }

  /** Text in which only the last group may be short: what is left of base64
      when the text breaks off anywhere. */
  ghost predicate Unbroken(text: seq<byte>) {
    |text| < 8 || (|DecodeGroup(text[..4])| == 3 && Unbroken(text[4..]))
  }

  lemma {:induction false} FetchIffInside(text: seq<byte>, skip: nat, size: nat)
    requires Unbroken(text) && skip < 3 && size > 0
    ensures Fetch(text, skip, size).Some? <==> skip + size <= |DecodeAll(text)|
    decreases |text|
  {
    hide DecodeGroup;
    if |text| >= 4 {
      var g := DecodeGroup(text[..4]);
      if |text| >= 8 && size > |g| - skip {
        FetchIffInside(text[4..], 0, size - (|g| - skip));
      }
    }
  }

  lemma {:induction false} NoGroupPast(text: seq<byte>, k: nat)
    requires Unbroken(text) && 3 * k > |DecodeAll(text)|
    ensures |FromGroup(text, k)| < 4
    decreases k
  {
    hide DecodeGroup;
    if |text| >= 8 {
      NoGroupPast(text[4..], k - 1);
      if 4 * k <= |text| {
        DropDrop(text, 4, 4 * (k - 1));
      }
    }
  }

  lemma {:induction false} UnbrokenFrom(text: seq<byte>, k: nat)
    requires Unbroken(text)
    ensures Unbroken(FromGroup(text, k))
    decreases k
  {
    hide DecodeGroup;
    if k == 0 {
      assert text[0..] == text;
    } else if |text| >= 8 && 4 * k <= |text| {
      UnbrokenFrom(text[4..], k - 1);
      DropDrop(text, 4, 4 * (k - 1));
    }
  }

  /** In such text a request is met if and only if it lies inside what the text decodes to. */
  lemma FetchAtIffInside(text: seq<byte>, offset: nat, size: nat)
    requires Unbroken(text) && size > 0
    ensures FetchAt(text, offset, size).Some? <==> offset + size <= |DecodeAll(text)|
  {
    hide DecodeAll, Fetch, Unbroken;
    var k := offset / 3;
    UnbrokenFrom(text, k);
    FetchIffInside(FromGroup(text, k), offset % 3, size);
    if 3 * k <= |DecodeAll(text)| {
      SkipGroups(text, k);
    } else {
      NoGroupPast(text, k);
      ShortText(FromGroup(text, k));
    }
  }

  lemma ShortText(text: seq<byte>)
    requires |text| < 4
    ensures DecodeAll(text) == []
  {
  }

  /** Encoded data that breaks off anywhere is such text. */
  lemma {:induction false} TruncationIsUnbroken(d: seq<byte>, n: nat)
    requires n <= |Encode(d)|
    ensures Unbroken(Encode(d)[..n])
    decreases |d|
  {
    hide DecodeGroup, EncodeGroup;
    if n >= 8 {
      GroupRoundTrip(d[..3]);
      EncodeLength(d);
      var text := Encode(d)[..n];
      assert text[..4] == EncodeGroup(d[..3]) && text[4..] == Encode(d[3..])[..n - 4];
      TruncationIsUnbroken(d[3..], n - 4);
    }
  }

  lemma {:induction false} EncodeLength(d: seq<byte>)
    ensures |Encode(d)| == 4 * ((|d| + 2) / 3)
  {
    hide EncodeGroup;
    if |d| > 3 {
      EncodeLength(d[3..]);
    }
  }

  lemma {:induction false} EncodeDrop(d: seq<byte>, k: nat)
    requires 3 * k <= |d|
    ensures 4 * k <= |Encode(d)|
    ensures Encode(d)[4 * k..] == Encode(d[3 * k..])
    decreases k
  {
    hide EncodeGroup;
    if k == 0 {
      assert d[0..] == d;
    } else if |d| > 3 {
      EncodeDrop(d[3..], k - 1);
      DropDrop(d, 3, 3 * (k - 1));
      assert Encode(d)[4 * k..] == Encode(d[3..])[4 * (k - 1)..];
    }
  }

  lemma FromInside(d: seq<byte>, tail: seq<byte>, k: nat)
    requires 3 * k <= |d|
    ensures FromGroup(Encode(d) + tail, k) == Encode(d[3 * k..]) + tail
  {
    hide Encode, EncodeGroup;
    EncodeDrop(d, k);
    DropOfConcat(Encode(d), tail, 4 * k);
  }

  // Requests that run past the end of a unit.

  /** A request that starts in the data and runs past it goes on with the text behind the unit. */
  lemma {:induction false} FetchRunsOn(d: seq<byte>, tail: seq<byte>, skip: nat, size: nat)
    requires skip < 3 && skip < |d| && skip + size > |d|
    ensures Fetch(Encode(d) + tail, skip, size) == Prepend(d[skip..], Fetch(tail, 0, size - (|d| - skip)))
    decreases |d|
  {
    hide DecodeGroup, EncodeGroup, Fetch;
    var text := Encode(d) + tail;
    if |d| <= 3 {
      GroupRoundTrip(d);
      GroupFetched(d, tail, skip, size);
    } else {
      var more := Encode(d[3..]) + tail;
      GroupRoundTrip(d[..3]);
      Associative(EncodeGroup(d[..3]), Encode(d[3..]), tail);
      GroupFetched(d[..3], more, skip, size);
      FetchRunsOn(d[3..], tail, 0, size - (3 - skip));
      assert d[..3][skip..] + d[3..][0..] == d[skip..];
      PrependTwice(d[..3][skip..], d[3..][0..], Fetch(tail, 0, size - (|d| - skip)));
    }
  }

  lemma GroupFetched(d: seq<byte>, tail: seq<byte>, skip: nat, size: nat)
    requires 1 <= |d| <= 3 && size > 0 && skip + size > |d| && DecodeGroup(EncodeGroup(d)) == d
    ensures Fetch(EncodeGroup(d) + tail, skip, size)
            == if |d| <= skip then None else Prepend(d[skip..], Fetch(tail, 0, size - (|d| - skip)))
  {
    hide DecodeGroup, EncodeGroup;
    var text := EncodeGroup(d) + tail;
    assert text[..4] == EncodeGroup(d) && text[4..] == tail;
  }

  /** The exact answer to every request that runs past the data: the data's own
      bytes and then the text behind it; failure behind the data in its own last
      group; elsewhere the group that lies there, if any. */
  lemma PastEndExact(d: seq<byte>, tail: seq<byte>, offset: nat, size: nat)
    requires size > 0 && offset + size > |d|
    ensures FetchAt(Encode(d) + tail, offset, size) ==
            if offset < |d| then Prepend(d[offset..], Fetch(tail, 0, size - (|d| - offset)))
            else if 3 * (offset / 3) < |d| then None
            else Fetch(FromGroup(Encode(d) + tail, offset / 3), offset % 3, size)
  {
    hide DecodeGroup, EncodeGroup, Encode, Fetch;
    var k, skip := offset / 3, offset % 3;
    if 3 * k < |d| {
      var rest := d[3 * k..];
      FromInside(d, tail, k);
      if offset < |d| {
        FetchRunsOn(rest, tail, skip, size);
        DropDrop(d, 3 * k, skip);
      } else {
        GroupRoundTrip(rest);
        OneGroup(rest);
        GroupFetched(rest, tail, skip, size);
      }
    }
  }

  lemma OneGroup(d: seq<byte>)
    requires 1 <= |d| <= 3
    ensures Encode(d) == EncodeGroup(d)
  {
  }

  /** The bytes of the group of four characters at position `at`; none if there is no such group. */
  function GroupAt(text: seq<byte>, at: nat): (d: seq<byte>) {
    if at + 4 <= |text| then DecodeGroup(text[at..at + 4]) else []
  }

  /** All requests at `offset` that run past the data fail, exactly if the reader
      has to stop: behind the data in its own last group, or at a next group that
      has no byte for it. */
  ghost predicate StopsPast(d: seq<byte>, tail: seq<byte>, offset: nat) {
    var k := offset / 3;
    if 3 * k < |d| then offset >= |d| || GroupAt(Encode(d) + tail, |Encode(d)|) == []
    else |GroupAt(Encode(d) + tail, 4 * k)| <= offset % 3
  }

  lemma PastEndFailsIff(d: seq<byte>, tail: seq<byte>, offset: nat)
    ensures (forall size: nat :: size > 0 && offset + size > |d| ==> FetchAt(Encode(d) + tail, offset, size).None?)
            <==> StopsPast(d, tail, offset)
  {
    hide Encode, FetchAt, StopsPast;
    var least: nat := if offset < |d| then |d| - offset + 1 else 1;
    forall size: nat | size > 0 && offset + size > |d|
      ensures StopsPast(d, tail, offset) ==> FetchAt(Encode(d) + tail, offset, size).None?
    {
      PastEnd(d, tail, offset, size);
    }
    PastEnd(d, tail, offset, least);
  }

  lemma PastEnd(d: seq<byte>, tail: seq<byte>, offset: nat, size: nat)
    requires size > 0 && offset + size > |d|
    ensures StopsPast(d, tail, offset) ==> FetchAt(Encode(d) + tail, offset, size).None?
    ensures !StopsPast(d, tail, offset) && size == (if offset < |d| then |d| - offset + 1 else 1) ==>
              FetchAt(Encode(d) + tail, offset, size).Some?
  {
    hide DecodeGroup, EncodeGroup, Encode, Fetch, FetchAt, FromGroup, GroupAt;
    PastEndExact(d, tail, offset, size);
    if offset < |d| {
      GroupBehind(Encode(d), tail);
      FirstOfFetch(tail, 0, size - (|d| - offset));
    } else {
      GroupFrom(Encode(d) + tail, offset / 3);
      FirstOfFetch(FromGroup(Encode(d) + tail, offset / 3), offset % 3, size);
    }
  }

  lemma GroupBehind(front: seq<byte>, tail: seq<byte>)
    ensures GroupAt(front + tail, |front|) == GroupAt(tail, 0)
  {
    hide DecodeGroup;
    if |tail| >= 4 {
      assert (front + tail)[|front|..|front| + 4] == tail[0..4];
    }
  }

  lemma GroupFrom(text: seq<byte>, k: nat)
    ensures GroupAt(text, 4 * k) == GroupAt(FromGroup(text, k), 0)
  {
    hide DecodeGroup;
    if 4 * k + 4 <= |text| {
      SliceOfDrop(text, 4 * k, 0, 4);
    }
  }

  /** Whether a fetch gets a first byte depends on its first group alone. */
  lemma FirstOfFetch(text: seq<byte>, skip: nat, size: int)
    requires size > 0
    ensures |GroupAt(text, 0)| <= skip ==> Fetch(text, skip, size).None?
    ensures |GroupAt(text, 0)| > skip && size == 1 ==> Fetch(text, skip, size).Some?
  {
    hide DecodeGroup;
    if |text| >= 4 {
      assert text[0..4] == text[..4];
    }
  }

  /** Where units follow one another, a read past the end of one goes on into the
      next and does not fail: the bytes of `d` and then of `e`. */
  lemma RunsIntoNextUnit(d: seq<byte>, e: seq<byte>, tail: seq<byte>, offset: nat, n: nat)
    requires offset < |d| && 0 < n <= |e|
    ensures FetchAt(Encode(d) + (Encode(e) + tail), offset, |d| - offset + n) == Some(d[offset..] + e[..n])
  {
    hide DecodeGroup, EncodeGroup, Encode, Fetch, FetchAt;
    PastEndExact(d, Encode(e) + tail, offset, |d| - offset + n);
    StoredSlice(e, tail, 0, n);
    FetchAtStart(Encode(e) + tail, n);
    assert e[0..n] == e[..n];
  }

  lemma FetchAtStart(text: seq<byte>, size: nat)
    ensures FetchAt(text, 0, size) == Fetch(text, 0, size)
  {
    hide Fetch;
    assert text[0..] == text;
  }

  /** The reader over a file that holds `d` in base64 at the start of `text`
      with nothing decodable behind it: the exact answer to every request. */
  lemma FetchAtExact(d: seq<byte>, tail: seq<byte>, offset: nat, size: nat)
    requires forall at: nat :: |Encode(d)| <= at ==> GroupAt(Encode(d) + tail, at) == []
    ensures FetchAt(Encode(d) + tail, offset, size) ==
            if size == 0 then Some([])
            else if offset + size <= |d| then Some(d[offset..offset + size])
            else None
  {
    hide DecodeGroup, EncodeGroup, Encode, DecodeAll;
    if size > 0 {
      if offset + size <= |d| {
        StoredSlice(d, tail, offset, size);
      } else {
        EncodeLength(d);
        assert StopsPast(d, tail, offset);
        PastEndFailsIff(d, tail, offset);
      }
    }
  }

  /** Whatever follows a base64 unit, its own bytes are read back. */
  lemma StoredSlice(d: seq<byte>, tail: seq<byte>, offset: nat, size: nat)
    requires offset + size <= |d|
    ensures d <= DecodeAll(Encode(d) + tail)
    ensures FetchAt(Encode(d) + tail, offset, size) == Some(d[offset..offset + size])
  {
    hide DecodeGroup, EncodeGroup, Encode, DecodeAll;
    DecodeAllOfEncode(d, tail);
    var all := DecodeAll(Encode(d) + tail);
    FetchAtIsSlice(Encode(d) + tail, offset, size);
    assert all[offset..offset + size] == all[..|d|][offset..offset + size];
  }

  /** The state of a read between two groups: `got` is what it has delivered
      and `at` is where its next group lies. */
  ghost predicate Fetching(text: seq<byte>, offset: nat, size: nat, got: seq<byte>, at: nat, skip: nat) {
    |got| <= size &&
    FetchAt(text, offset, size) == Prepend(got, Fetch(TextAt(text, at), skip, size - |got|))
  }

  lemma FetchingStarts(text: seq<byte>, offset: nat, size: nat)
    ensures Fetching(text, offset, size, [], offset / 3 * 4, offset % 3)
  {
    hide Fetch;
    PrependTwice([], [], Fetch(FromGroup(text, offset / 3), offset % 3, size));
  }

  lemma FetchingStep(text: seq<byte>, offset: nat, size: nat, got: seq<byte>, at: nat, skip: nat)
    requires Fetching(text, offset, size, got, at, skip) && |got| < size
    ensures if at + 4 > |text| || |DecodeGroup(text[at..at + 4])| <= skip then FetchAt(text, offset, size).None?
            else
              var g := DecodeGroup(text[at..at + 4]);
              var n := Min(|g| - skip, size - |got|);
              Fetching(text, offset, size, got + g[skip..skip + n], at + 4, 0)
  {
    hide DecodeGroup, FetchAt;
    if at + 4 <= |text| {
      var here, g := TextAt(text, at), DecodeGroup(text[at..at + 4]);
      assert here[..4] == text[at..at + 4] && here[4..] == TextAt(text, at + 4);
      if skip < |g| {
        var n := Min(|g| - skip, size - |got|);
        var rest := Fetch(here[4..], 0, size - |got| - n);
        if size - |got| <= |g| - skip {
          assert g[skip..skip + n] + [] == g[skip..skip + n];
        } else {
          assert g[skip..skip + n] == g[skip..];
        }
        assert Fetch(here, skip, size - |got|) == Prepend(g[skip..skip + n], rest);
        PrependTwice(got, g[skip..skip + n], rest);
      }
    }
  }

  lemma FetchingEnds(text: seq<byte>, offset: nat, size: nat, got: seq<byte>, at: nat, skip: nat)
    requires Fetching(text, offset, size, got, at, skip) && |got| == size
    ensures FetchAt(text, offset, size) == Some(got)
  {
    assert got + [] == got;
  }

  /** The text that a reader starting at `start` sees. */
  function TextAt(bytes: seq<byte>, start: nat): seq<byte> {
    if start <= |bytes| then bytes[start..] else []
  }

  /** A view of base64 text as the bytes it encodes. */
  datatype Base64Reader = Base64Reader(base: OSFile, start: nat) {

    function Text(): seq<byte> {
      TextAt(base.bytes, start)
    }

    /** Reads and decodes one group; -1 if its four characters are not there. */
    method Decode4(c: array<byte>, offset: nat) returns (r: int)
      requires c.Length == 3
      modifies c
      ensures -1 <= r <= 3
      ensures r >= 0 ==> offset + 4 <= |Text()|
      ensures r >= 0 ==> c[..r] == DecodeGroup(Text()[offset..offset + 4])
      ensures base.Steady() && offset + 4 <= |Text()| ==> r >= 0
    {
      var inp := new byte[4];
      var nr := base.Pread(inp, 0, 4, start + offset);
      if nr != 4 {
        return -1;
      }
      assert inp[..][0..4] == inp[..] == Text()[offset..offset + 4];
      var g := DecodeGroup(inp[..]);
      Memcpy(c, 0, g);
      assert c[..][0..|g|] == c[..|g|];
      r := |g|;
    }

    method Pread(buf: array<byte>, at: nat, size: nat, offset: nat) returns (nr: int)
      requires at + size <= buf.Length
      modifies buf
      ensures nr == -1 || nr == size
      ensures nr >= 0 ==> FetchAt(Text(), offset, size).Some? && Holds(buf[..], at, FetchAt(Text(), offset, size).value)
      ensures base.Steady() && FetchAt(Text(), offset, size).Some? ==> nr == size
      ensures Untouched(old(buf[..]), buf[..], at, size)
    {
      nr := PreadTyped(buf, at, size, offset);
    }

    method PreadTyped(buf: array<byte>, at: nat, size: nat, offset: nat) returns (nr: int)
      requires at + size <= buf.Length
      modifies buf
      ensures nr == -1 || nr == size
      ensures nr >= 0 ==> FetchAt(Text(), offset, size).Some? && Holds(buf[..], at, FetchAt(Text(), offset, size).value)
      ensures base.Steady() && FetchAt(Text(), offset, size).Some? ==> nr == size
      ensures Untouched(old(buf[..]), buf[..], at, size)
    {
      hide DecodeGroup, FetchAt, Fetching, TextAt, Holds, Untouched;
      var p: nat := 0;
      var base64Offset: nat := offset / 3 * 4;
      var skip: nat := offset % 3;
      var c := new byte[3];
      ghost var got := [];
      FetchingStarts(Text(), offset, size);
      NothingYet(buf[..], at, size);
      while p != size
        invariant p == |got| <= size && skip < 3 && fresh(c)
        invariant Fetching(Text(), offset, size, got, base64Offset, skip)
        invariant Holds(buf[..], at, got) && Untouched(old(buf[..]), buf[..], at, size)
        decreases size - p
      {
        var r := Decode4(c, base64Offset);
        FetchingStep(Text(), offset, size, got, base64Offset, skip);
        if r == -1 {
          return -1;
        } else if r <= skip {
          return -1;
        }
        var available: nat := r - skip;
        var needed := size - p;
        var n: nat := Min(available, needed);
        assert c[..r][skip..skip + n] == c[skip..skip + n];
        ghost var before := buf[..];
        Memcpy(buf, at + p, c[skip..skip + n]);
        Glue(old(buf[..]), before, buf[..], at, size, got, n, c[skip..skip + n]);
        got := got + c[skip..skip + n];
        p := p + n;
        base64Offset := base64Offset + 4;
        skip := 0;
      }
      FetchingEnds(Text(), offset, size, got, base64Offset, skip);
      nr := p;
    }
  }
}
