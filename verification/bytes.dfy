/** Bytes, machine integers and little-endian numbers.
    The source moves raw memory between buffers and integer variables, so the
    host is taken to be little-endian, as the file format demands. */
module Bytes {

  type byte = x: int | 0 <= x < 256

  datatype Option<+T> = None | Some(value: T)

  const TWO31: int := 0x8000_0000
  const TWO32: int := 0x1_0000_0000
  const TWO63: int := 0x8000_0000_0000_0000
  const TWO64: int := 0x1_0000_0000_0000_0000

  /** Conversion to uint32_t. */
  function ToU32(n: int): nat {
    n % TWO32
  }

  /** Conversion to uint64_t. */
  function ToU64(n: int): nat {
    n % TWO64
  }

  /** Conversion to int32_t (two's complement). */
  function ToI32(n: int): int {
    var u := n % TWO32;
    if u < TWO31 then u else u - TWO32
  }

  /** Division of signed integers, truncating toward zero. */
  function DivTrunc(a: int, b: int): int
    requires b > 0
  {
    if a >= 0 then a / b else -(-a / b)
  }

  /** Conversions keep a number up to multiples of 2^32 or 2^64, in the range of their type. */
  lemma Conversions(n: int)
    ensures ToU32(n) < 0x1_0000_0000 && n == 0x1_0000_0000 * (n / 0x1_0000_0000) + ToU32(n)
    ensures ToU64(n) < 0x1_0000_0000_0000_0000
    ensures n == 0x1_0000_0000_0000_0000 * (n / 0x1_0000_0000_0000_0000) + ToU64(n)
    ensures -0x8000_0000 <= ToI32(n) < 0x8000_0000
    ensures ToI32(n) == ToU32(n) || ToI32(n) == ToU32(n) - 0x1_0000_0000
  {
  }

  /** The quotient times the divisor falls short of the dividend, toward zero, by
      less than the divisor. */
  lemma DivTruncs(a: int, b: int)
    requires b > 0
    ensures a >= 0 ==> b * DivTrunc(a, b) <= a < b * DivTrunc(a, b) + b
    ensures a < 0 ==> b * DivTrunc(a, b) - b < a <= b * DivTrunc(a, b)
  {
    if a >= 0 {
      assert a == b * (a / b) + a % b;
    } else {
      assert -a == b * (-a / b) + -a % b;
    }
  }

  function Min(a: int, b: int): int {
    if a <= b then a else b
  }

  function Max(a: int, b: int): int {
    if a <= b then b else a
  }

  /** The `width` low-order bytes of `n`, least significant first. */
  function LE(n: nat, width: nat): (s: seq<byte>)
    ensures |s| == width
  {
    if width == 0 then [] else [n % 256] + LE(n / 256, width - 1)
  }

  /** The number that a little-endian byte string denotes. */
  function FromLE(s: seq<byte>): nat {
    if s == [] then 0 else s[0] + 256 * FromLE(s[1..])
  }

  function Pow256(width: nat): (p: nat)
    ensures p > 0
  {
    if width == 0 then 1 else 256 * Pow256(width - 1)
  }

  lemma {:induction false} LERoundTrip(n: nat, width: nat)
    requires n < Pow256(width)
    ensures FromLE(LE(n, width)) == n
  {
    if width > 0 {
      LERoundTrip(n / 256, width - 1);
      assert LE(n, width)[1..] == LE(n / 256, width - 1);
    }
  }

  lemma {:induction false} FromLEBound(s: seq<byte>)
    ensures FromLE(s) < Pow256(|s|)
  {
    if s != [] {
      FromLEBound(s[1..]);
    }
  }

  lemma Pow256Values()
    ensures Pow256(4) == TWO32 == 2 * TWO31
    ensures Pow256(8) == TWO64 == 2 * TWO63
  {
    assert Pow256(4) == 256 * 256 * 256 * 256;
    assert Pow256(8) == 256 * 256 * 256 * 256 * Pow256(4);
  }

  // What little-endian means, digit by digit.

  /** Dividing by one digit and then by more. */
  lemma DivideTwice(n: nat, i: nat)
    requires i > 0
    ensures n / Pow256(i) == n / 256 / Pow256(i - 1)
  {
    var p, m := Pow256(i - 1), n / 256;
    var q, r := m / p, m % p;
    assert m == p * q + r && n == 256 * m + n % 256;
    assert n == 256 * p * q + (256 * r + n % 256);
    Quotient(n, 256 * p, q, 256 * r + n % 256);
  }

  /** Byte `i` of the number is its digit with weight 256 to the `i`. */
  ghost predicate IsNumber(n: nat, s: seq<byte>) {
    n < Pow256(|s|) && forall i :: 0 <= i < |s| ==> n / Pow256(i) % 256 == s[i]
  }

  lemma LEIsNumber(n: nat, width: nat)
    requires n < Pow256(width)
    ensures IsNumber(n, LE(n, width))
  {
    hide LE, Pow256;
    forall i | 0 <= i < width ensures n / Pow256(i) % 256 == LE(n, width)[i] {
      DigitOfLE(n, width, i);
    }
  }

  lemma FromLEIsNumber(s: seq<byte>)
    ensures IsNumber(FromLE(s), s)
  {
    hide FromLE, Pow256;
    FromLEBound(s);
    forall i | 0 <= i < |s| ensures FromLE(s) / Pow256(i) % 256 == s[i] {
      DigitOfFromLE(s, i);
    }
  }

  lemma {:induction false} DigitOfLE(n: nat, width: nat, i: nat)
    requires i < width
    ensures LE(n, width)[i] == n / Pow256(i) % 256
  {
    if i > 0 {
      DigitOfLE(n / 256, width - 1, i - 1);
      DivideTwice(n, i);
    }
  }

  lemma {:induction false} DigitOfFromLE(s: seq<byte>, i: nat)
    requires i < |s|
    ensures FromLE(s) / Pow256(i) % 256 == s[i]
  {
    if i > 0 {
      DigitOfFromLE(s[1..], i - 1);
      DivideTwice(FromLE(s), i);
      Quotient(FromLE(s), 256, FromLE(s[1..]), s[0]);
    }
  }

  /** The first byte counts ones, the second 256s. */
  lemma SmallNumbersRead()
    ensures FromLE([3, 0, 0, 0]) == 3 && FromLE([12, 1, 0, 0]) == 268
    ensures LE(3, 4) == [3, 0, 0, 0]
  {
    var a: seq<byte>, b: seq<byte> := [3, 0, 0, 0], [12, 1, 0, 0];
    assert a[1..] == [0, 0, 0] && a[1..][1..] == [0, 0] && a[1..][1..][1..] == [0];
    assert b[1..] == [1, 0, 0] && b[1..][1..] == [0, 0] && b[1..][1..][1..] == [0];
    assert FromLE([0]) == 0 && FromLE([0, 0]) == 0 && FromLE([0, 0, 0]) == 0;
    assert FromLE([1, 0, 0]) == 1;
  }

  lemma DivisionIff(s: nat, v: nat, c: nat, l: int)
    requires v > 0 && s == v * c + l
    ensures c == s / v <==> 0 <= l < v
  {
    var q, r := s / v, s % v;
    assert s == v * q + r && 0 <= r < v;
    Multiples(v, q, c);
  }

  lemma Multiples(v: nat, q: nat, c: nat)
    requires v > 0
    ensures q > c ==> v * q >= v * c + v
    ensures q < c ==> v * q + v <= v * c
  {
    if q > c {
      assert v * q >= v * (c + 1);
    } else if q < c {
      assert v * (q + 1) <= v * c;
    }
  }

  lemma Quotient(s: nat, v: nat, q: nat, r: nat)
    requires r < v && s == v * q + r
    ensures s / v == q && s % v == r
  {
    DivisionIff(s, v, q, r);
    assert s == v * (s / v) + s % v;
  }

  /** The `size` elements at position `at`; nothing if they are not all there. */
  function Slice<T>(s: seq<T>, at: nat, size: nat): seq<T> {
    if at + size <= |s| then s[at..at + size] else []
  }

  /** How many of the `size` bytes at `offset` there are. */
  function Available(s: seq<byte>, size: nat, offset: nat): (n: nat)
    ensures n <= size
  {
    if offset < |s| then Min(size, |s| - offset) else 0
  }

  /** What there is of `size` elements at position `at`. */
  function Part<T>(s: seq<T>, at: nat, size: nat): seq<T> {
    if at < |s| then s[at..Min(at + size, |s|)] else []
  }

  lemma NoPart<T>(s: seq<T>, at: nat, size: nat)
    requires size == 0 || at >= |s|
    ensures Part(s, at, size) == []
  {
  }

  lemma PartSplit<T>(s: seq<T>, at: nat, size: nat, m: nat)
    requires m <= size && at + m <= |s|
    ensures Part(s, at, size) == s[at..at + m] + Part(s, at + m, size - m)
  {
  }

  /** Those elements, if they are all there. */
  function SliceIfThere<T>(s: seq<T>, at: nat, size: nat): (r: Option<seq<T>>)
    ensures r.Some? ==> |r.value| == size
  {
    if size == 0 then Some([]) else if at + size <= |s| then Some(s[at..at + size]) else None
  }

  ghost function Prepend<T>(head: seq<T>, r: Option<seq<T>>): Option<seq<T>> {
    match r
    case None => None
    case Some(rest) => Some(head + rest)
  }

  lemma PrependTwice<T>(a: seq<T>, b: seq<T>, r: Option<seq<T>>)
    ensures Prepend(a, Prepend(b, r)) == Prepend(a + b, r)
    ensures Prepend([], r) == r
  {
    if r.Some? {
      assert a + (b + r.value) == (a + b) + r.value && [] + r.value == r.value;
    }
  }

  lemma SliceIfThereSplit<T>(s: seq<T>, at: nat, size: nat, m: nat)
    requires m <= size && SliceIfThere(s, at, m).Some?
    ensures SliceIfThere(s, at, size) == Prepend(SliceIfThere(s, at, m).value, SliceIfThere(s, at + m, size - m))
  {
    if m == 0 {
      PrependTwice([], [], SliceIfThere(s, at, size));
    } else if at + size <= |s| {
      Adjacent(s, at, at + m, at + size);
      assert s[at..at + m] + [] == s[at..at + m];
    }
  }

  /** The buffer content has `data` at position `at`. */
  ghost predicate Holds(content: seq<byte>, at: nat, data: seq<byte>) {
    at + |data| <= |content| && content[at..at + |data|] == data
  }

  /** Two buffer contents agree outside `size` bytes at `at`. */
  ghost predicate Untouched(before: seq<byte>, after: seq<byte>, at: nat, size: nat) {
    |before| == |after| &&
    forall k :: 0 <= k < |before| && !(at <= k < at + size) ==> after[k] == before[k]
  }

  /** `memcpy` of a byte string to position `at` of a buffer. */
  method Memcpy(buf: array<byte>, at: nat, src: seq<byte>)
    requires at + |src| <= buf.Length
    modifies buf
    ensures Holds(buf[..], at, src)
    ensures Untouched(old(buf[..]), buf[..], at, |src|)
  {
    forall k | 0 <= k < |src| {
      buf[at + k] := src[k];
    }
  }

  lemma NothingYet(start: seq<byte>, at: nat, size: nat)
    requires at <= |start|
    ensures Untouched(start, start, at, size) && Holds(start, at, [])
  {
  }

  /** A second write right behind the first, within the same `size` bytes. */
  lemma Glue(
    start: seq<byte>, before: seq<byte>, after: seq<byte>, at: nat, size: nat, got: seq<byte>, m: nat, more: seq<byte>)
    requires |got| + m <= size && at + size <= |start|
    requires Untouched(start, before, at, size) && Untouched(before, after, at + |got|, m)
    requires Holds(before, at, got)
    ensures Untouched(start, after, at, size)
    ensures Holds(after, at + |got|, more) ==> Holds(after, at, got + more)
  {
    if Holds(after, at + |got|, more) {
      Adjacent(after, at, at + |got|, at + |got| + |more|);
      assert after[at..at + |got|] == before[at..at + |got|];
    }
  }

  // Slices of concatenations.

  lemma DropOfConcat<T>(a: seq<T>, b: seq<T>, k: nat)
    requires k <= |a|
    ensures (a + b)[k..] == a[k..] + b
  {
  }

  lemma DropIntoConcat<T>(a: seq<T>, b: seq<T>, k: nat)
    requires |a| <= k <= |a| + |b|
    ensures (a + b)[k..] == b[k - |a|..]
  {
  }

  lemma DropDrop<T>(s: seq<T>, i: nat, j: nat)
    requires i + j <= |s|
    ensures s[i..][j..] == s[i + j..]
  {
  }

  lemma SliceOfDrop<T>(s: seq<T>, k: nat, i: nat, j: nat)
    requires i <= j && k + j <= |s|
    ensures s[k..][i..j] == s[k + i..k + j]
  {
  }

  lemma HeadAndRest<T>(h: T, a: seq<T>, b: seq<T>, rest: seq<T>)
    ensures ([h] + a + b + rest)[0] == h
    ensures ([h] + a + b + rest)[1..] == a + (b + rest)
  {
  }

  lemma Associative<T>(a: seq<T>, b: seq<T>, c: seq<T>)
    ensures a + b + c == a + (b + c)
  {
  }

  lemma SliceOfSlice<T>(s: seq<T>, lo: nat, hi: nat, i: nat, j: nat)
    requires i <= j <= hi - lo && hi <= |s|
    ensures s[lo..hi][i..j] == s[lo + i..lo + j]
  {
    forall k | 0 <= k < j - i ensures s[lo..hi][i..j][k] == s[lo + i..lo + j][k] {
      assert s[lo..hi][i..j][k] == s[lo..hi][i + k] == s[lo + (i + k)];
    }
  }

  lemma SliceOfConcat<T>(a: seq<T>, b: seq<T>, i: nat, j: nat)
    requires i <= j <= |a|
    ensures (a + b)[i..j] == a[i..j]
    ensures (a + b)[|a|..|a| + |b|] == b
  {
  }

  lemma LastOfSnoc<T>(a: seq<T>, x: T)
    ensures (a + [x])[..|a|] == a && (a + [x])[|a|] == x
  {
  }

  lemma Adjacent<T>(s: seq<T>, i: nat, j: nat, k: nat)
    requires i <= j <= k <= |s|
    ensures s[i..k] == s[i..j] + s[j..k]
  {
  }
}
