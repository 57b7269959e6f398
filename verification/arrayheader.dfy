/** Array headers, read through a plain or a decoding view (arr.cc, parser.cc:59-88). */
module ArrayHeaders {
  import opened Bytes
  import opened Storage
  import opened Base64
  import opened Paging

  /** A file from some position on, as it is or decoded from base64. */
  datatype HeaderView = Offsetted(base: OSFile, baseOffset: nat) | Decoding(reader: Base64Reader) {

    function File(): OSFile {
      if Offsetted? then base else reader.base
    }

    /** The bytes at `offset`, if all of them can be had. */
    function Answer(offset: nat, size: nat): (r: Option<seq<byte>>)
      ensures r.Some? ==> |r.value| == size
    {
      if Decoding? then FetchAt(reader.Text(), offset, size)
      else if size == 0 then Some([])
      else
        var text := TextAt(base.bytes, baseOffset);
        if offset + size <= |text| then Some(text[offset..offset + size]) else None
    }

    method Pread(buf: array<byte>, size: nat, offset: nat) returns (nr: int)
      requires size <= buf.Length
      modifies buf
      ensures -1 <= nr <= size
      ensures nr == size ==> Answer(offset, size).Some? && buf[..size] == Answer(offset, size).value
      ensures File().Steady() && Answer(offset, size).Some? ==> nr == size
    {
      hide FetchAt, Untouched;
      if Decoding? {
        nr := reader.Pread(buf, 0, size, offset);
      } else {
        nr := base.Pread(buf, 0, size, baseOffset + offset);
        if nr == size && size > 0 {
          SliceOfDrop(base.bytes, baseOffset, offset, offset + size);
        }
      }
      if nr == size {
        assert buf[..][0..size] == buf[..size];
      }
    }
  }

  /** Little-endian words of `w` bytes. */
  function Word(bytes: seq<byte>, w: nat, i: nat): nat
    requires w * i + w <= |bytes|
  {
    FromLE(bytes[w * i..w * i + w])
  }

  /** What a compressed header says when `got` bytes of its size table are read. */
  ghost predicate CompressedSays(view: HeaderView, offset: nat, w: nat, got: nat, arr: CompressedArray) {
    && view.Answer(offset, w * 3).Some? && view.Answer(offset + w * 3, got).Some?
    && var info, table := view.Answer(offset, w * 3).value, view.Answer(offset + w * 3, got).value;
       && arr.numBlks == Word(info, w, 0) && arr.blkSz == Word(info, w, 1) && arr.lastBlkSz == Word(info, w, 2)
       && |arr.compressedBlkSz| == arr.numBlks
       && (forall i :: 0 <= i < arr.numBlks && w * i + w <= got ==> arr.compressedBlkSz[i] == Word(table, w, i))
       && arr.dataStart == offset + w * 3 + got
  }

  /** Its numbers, by their bytes: three words one after the other, and the words
      of the table. */
  ghost predicate NumbersIn(info: seq<byte>, table: seq<byte>, w: nat, arr: CompressedArray) {
    && IsNumber(arr.numBlks, Slice(info, 0, w))
    && IsNumber(arr.blkSz, Slice(info, w, w))
    && IsNumber(arr.lastBlkSz, Slice(info, w + w, w))
    && |arr.compressedBlkSz| == arr.numBlks
    && forall i: nat :: i < arr.numBlks && w * i + w <= |table| ==>
         IsNumber(arr.compressedBlkSz[i], Slice(table, w * i, w))
  }

  ghost predicate CompressedBytes(view: HeaderView, offset: nat, w: nat, got: nat, arr: CompressedArray) {
    && view.Answer(offset, w * 3).Some? && view.Answer(offset + w * 3, got).Some?
    && NumbersIn(view.Answer(offset, w * 3).value, view.Answer(offset + w * 3, got).value, w, arr)
  }

  lemma WordIsNumber(bytes: seq<byte>, w: nat, i: nat)
    requires w * i + w <= |bytes|
    ensures IsNumber(Word(bytes, w, i), Slice(bytes, w * i, w))
  {
    hide FromLE, IsNumber;
    FromLEIsNumber(bytes[w * i..w * i + w]);
  }

  lemma SaysByBytes(view: HeaderView, offset: nat, w: nat, got: nat, arr: CompressedArray)
    requires CompressedSays(view, offset, w, got, arr)
    ensures CompressedBytes(view, offset, w, got, arr)
  {
    hide HeaderView.Answer, FromLE, IsNumber;
    var info, table := view.Answer(offset, w * 3).value, view.Answer(offset + w * 3, got).value;
    WordIsNumber(info, w, 0);
    WordIsNumber(info, w, 1);
    WordIsNumber(info, w, 2);
    forall i: nat | i < arr.numBlks && w * i + w <= |table|
      ensures IsNumber(arr.compressedBlkSz[i], Slice(table, w * i, w))
    {
      WordIsNumber(table, w, i);
    }
  }

  /** None if the header cannot be read, or its size table cannot be allocated. */
  method ParseCompressed64(view: HeaderView, offset: nat) returns (r: Option<CompressedArray>)
    ensures r.Some? ==> CompressedSays(view, offset, 8, 8 * r.value.numBlks, r.value)
    ensures r.Some? ==> CompressedBytes(view, offset, 8, 8 * r.value.numBlks, r.value)
    ensures view.File().Steady() && view.Answer(offset, 24).Some? ==>
              var n := Word(view.Answer(offset, 24).value, 8, 0);
              8 * n < TWO63 && view.Answer(offset + 24, 8 * n).Some? ==> r.Some?
  {
    hide HeaderView.Answer, FromLE, CompressedBytes;
    var info := new byte[24];
    var nr := view.Pread(info, 24, offset);
    if nr != 24 {
      return None;
    }
    var head := info[..24];
    var numBlks := Word(head, 8, 0);
    if 8 * numBlks >= TWO63 {
      return None;
    }
    var raw := new byte[8 * numBlks];
    nr := view.Pread(raw, 8 * numBlks, offset + 24);
    if nr != 8 * numBlks {
      return None;
    }
    var table := raw[..8 * numBlks];
    var compressedBlkSz := seq(numBlks, i requires 0 <= i < numBlks => Word(table, 8, i));
    r := Some(CompressedArray(numBlks, Word(head, 8, 1), Word(head, 8, 2), compressedBlkSz, offset + 24 + 8 * numBlks));
    SaysByBytes(view, offset, 8, 8 * numBlks, r.value);
  }

  /** The 32-bit form. The size of its table is computed in 32 bits; what is not
      read of the table stays as the allocator left it. */
  method ParseCompressed32(view: HeaderView, offset: nat) returns (r: Option<CompressedArray>)
    ensures r.Some? ==> CompressedSays(view, offset, 4, ToU32(4 * r.value.numBlks), r.value)
    ensures r.Some? ==> CompressedBytes(view, offset, 4, ToU32(4 * r.value.numBlks), r.value)
    ensures view.File().Steady() && view.Answer(offset, 12).Some? ==>
              var n := Word(view.Answer(offset, 12).value, 4, 0);
              view.Answer(offset + 12, ToU32(4 * n)).Some? ==> r.Some?
  {
    hide HeaderView.Answer, FromLE, CompressedBytes;
    var info := new byte[12];
    var nr := view.Pread(info, 12, offset);
    if nr != 12 {
      return None;
    }
    var head := info[..12];
    var numBlks := Word(head, 4, 0);
    var got := ToU32(4 * numBlks);
    var raw := new byte[4 * numBlks];
    nr := view.Pread(raw, got, offset + 12);
    if nr != got {
      return None;
    }
    ghost var table := raw[..got];
    var wide := new nat[numBlks];
    var i: nat := 0;
    while i < numBlks
      invariant i <= numBlks && raw[..got] == table
      invariant forall k :: 0 <= k < i && 4 * k + 4 <= got ==> wide[k] == Word(table, 4, k)
    {
      wide[i] := FromLE(raw[4 * i..4 * i + 4]);
      if 4 * i + 4 <= got {
        assert raw[4 * i..4 * i + 4] == table[4 * i..4 * i + 4];
      }
      i := i + 1;
    }
    r := Some(CompressedArray(numBlks, Word(head, 4, 1), Word(head, 4, 2), wide[..], offset + 12 + got));
    SaysByBytes(view, offset, 4, got, r.value);
  }

  /** What an uncompressed header says. */
  ghost predicate UncompressedSays(view: HeaderView, offset: nat, w: nat, arr: UncompressedArray) {
    view.Answer(offset, w).Some? &&
    arr == UncompressedArray(FromLE(view.Answer(offset, w).value), offset + w)
  }

  method ParseUncompressed64(view: HeaderView, offset: nat) returns (r: Option<UncompressedArray>)
    ensures r.Some? ==> UncompressedSays(view, offset, 8, r.value)
    ensures r.Some? ==> IsNumber(r.value.totalBytes, view.Answer(offset, 8).value)
    ensures view.File().Steady() && view.Answer(offset, 8).Some? ==> r.Some?
  {
    hide HeaderView.Answer, FromLE, IsNumber;
    var bytes := new byte[8];
    var nr := view.Pread(bytes, 8, offset);
    if nr != 8 {
      return None;
    }
    FromLEIsNumber(bytes[..8]);
    r := Some(UncompressedArray(FromLE(bytes[..8]), offset + 8));
  }

  method ParseUncompressed32(view: HeaderView, offset: nat) returns (r: Option<UncompressedArray>)
    ensures r.Some? ==> UncompressedSays(view, offset, 4, r.value)
    ensures r.Some? ==> IsNumber(r.value.totalBytes, view.Answer(offset, 4).value)
    ensures view.File().Steady() && view.Answer(offset, 4).Some? ==> r.Some?
  {
    hide HeaderView.Answer, FromLE, IsNumber;
    var bytes := new byte[4];
    var nr := view.Pread(bytes, 4, offset);
    if nr != 4 {
      return None;
    }
    FromLEIsNumber(bytes[..4]);
    r := Some(UncompressedArray(FromLE(bytes[..4]), offset + 4));
  }

  // The headers that a writer makes.

  /** A table of words. */
  function Words(ns: seq<nat>, w: nat): (s: seq<byte>)
    ensures |s| == w * |ns|
  {
    if ns == [] then []
    else
      var n := |ns| - 1;
      assert w * n + w == w * |ns|;
      Words(ns[..n], w) + LE(ns[n], w)
  }

  function CompressedHeader(w: nat, blkSz: nat, lastBlkSz: nat, sizes: seq<nat>): (s: seq<byte>)
    ensures |s| == w * 3 + w * |sizes|
  {
    Words([|sizes|, blkSz, lastBlkSz], w) + Words(sizes, w)
  }

  lemma {:induction false} WordOfWords(ns: seq<nat>, w: nat, i: nat)
    requires i < |ns| && ns[i] < Pow256(w)
    ensures w * i + w <= |Words(ns, w)|
    ensures Word(Words(ns, w), w, i) == ns[i]
    decreases |ns|
  {
    hide FromLE, LE, Pow256;
    var n := |ns| - 1;
    var front, last := Words(ns[..n], w), LE(ns[n], w);
    assert w * |ns| == w * n + w;
    if i == n {
      LERoundTrip(ns[n], w);
      SliceOfConcat(front, last, 0, 0);
    } else {
      WordOfWords(ns[..n], w, i);
      SliceOfConcat(front, last, w * i, w * i + w);
    }
  }
}
