/** What an address map stands for: byte strings laid end to end. */
module Regions {
  import opened Bytes

  /** A stretch of a virtual file: bytes held in memory, or a slice of the array data. */
  datatype Region = Direct(bytes: seq<byte>) | Mapped(offset: nat, size: nat)

  function Size(r: Region): nat {
    match r
    case Direct(b) => |b|
    case Mapped(_, size) => size
  }

  /** A region's slice lies inside the array data. */
  predicate InData(r: Region, data: seq<byte>) {
    r.Mapped? ==> r.offset + r.size <= |data|
  }

  ghost predicate Backed(rs: seq<Region>, data: seq<byte>) {
    forall i :: 0 <= i < |rs| ==> InData(rs[i], data)
  }

  /** A region's bytes. Where a slice reaches past the end of the data, zeros
      stand in for what is not there; no read ever delivers those. */
  function RegionBytes(r: Region, data: seq<byte>): (s: seq<byte>)
    ensures |s| == Size(r)
  {
    match r
    case Direct(b) => b
    case Mapped(offset, size) =>
      if offset + size <= |data| then data[offset..offset + size]
      else if offset <= |data| then data[offset..] + Zeros(offset + size - |data|)
      else Zeros(size)
  }

  lemma MappedSlice(offset: nat, size: nat, data: seq<byte>, i: nat, n: nat)
    requires n > 0 && i + n <= size && offset + i + n <= |data|
    ensures RegionBytes(Mapped(offset, size), data)[i..i + n] == data[offset + i..offset + i + n]
  {
    if offset + size <= |data| {
      SliceOfSlice(data, offset, offset + size, i, i + n);
    } else {
      SliceOfConcat(data[offset..], Zeros(offset + size - |data|), i, i + n);
      SliceOfDrop(data, offset, i, i + n);
    }
  }

  function Zeros(n: nat): (s: seq<byte>)
    ensures |s| == n
  {
    seq(n, _ => 0)
  }

  function Total(rs: seq<Region>): nat {
    if rs == [] then 0 else Total(rs[..|rs| - 1]) + Size(rs[|rs| - 1])
  }

  /** The virtual file: every region's bytes in order. */
  function Contents(rs: seq<Region>, data: seq<byte>): (s: seq<byte>)
    ensures |s| == Total(rs)
  {
    if rs == [] then []
    else Contents(rs[..|rs| - 1], data) + RegionBytes(rs[|rs| - 1], data)
  }

  /** The bytes of the direct regions alone, in order. */
  function Directs(rs: seq<Region>): seq<byte> {
    if rs == [] then []
    else
      var r := rs[|rs| - 1];
      Directs(rs[..|rs| - 1]) + if r.Direct? then r.bytes else []
  }

  lemma Snoc(rs: seq<Region>, r: Region)
    ensures (rs + [r])[..|rs|] == rs
    ensures Total(rs + [r]) == Total(rs) + Size(r)
    ensures Directs(rs + [r]) == Directs(rs) + if r.Direct? then r.bytes else []
  {
    assert (rs + [r])[..|rs|] == rs;
  }

  lemma SnocContents(rs: seq<Region>, r: Region, data: seq<byte>)
    ensures Contents(rs + [r], data) == Contents(rs, data) + RegionBytes(r, data)
    ensures Backed(rs, data) && InData(r, data) ==> Backed(rs + [r], data)
  {
    hide RegionBytes, InData;
    assert (rs + [r])[..|rs|] == rs;
  }

  lemma {:induction false} ContentsOfConcat(a: seq<Region>, b: seq<Region>, data: seq<byte>)
    ensures Backed(a, data) && Backed(b, data) ==> Backed(a + b, data)
    ensures Contents(a + b, data) == Contents(a, data) + Contents(b, data)
    ensures Total(a + b) == Total(a) + Total(b)
    decreases |b|
  {
    hide RegionBytes, InData;
    if b == [] {
      assert a + b == a;
    } else {
      var front := b[..|b| - 1];
      ContentsOfConcat(a, front, data);
      assert (a + b)[..|a + b| - 1] == a + front;
      Associative(Contents(a, data), Contents(front, data), RegionBytes(b[|b| - 1], data));
    }
  }

  /** Each region's bytes are found between the totals before and after it. */
  lemma {:induction false} RegionPlace(rs: seq<Region>, data: seq<byte>, i: nat)
    requires i < |rs|
    ensures Total(rs[..i + 1]) == Total(rs[..i]) + Size(rs[i]) <= Total(rs)
    ensures Contents(rs, data)[Total(rs[..i])..Total(rs[..i + 1])] == RegionBytes(rs[i], data)
    decreases |rs|
  {
    hide RegionBytes, InData;
    var front, last := rs[..|rs| - 1], rs[|rs| - 1];
    if i == |rs| - 1 {
      assert rs[..i + 1] == rs && rs[..i] == front;
      SliceOfConcat(Contents(front, data), RegionBytes(last, data), 0, 0);
    } else {
      RegionPlace(front, data, i);
      assert front[..i] == rs[..i] && front[..i + 1] == rs[..i + 1];
      SliceOfConcat(Contents(front, data), RegionBytes(last, data), Total(rs[..i]), Total(rs[..i + 1]));
    }
  }
}
