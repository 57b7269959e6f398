/** What the pieces add up to: an array stored in a VTK file, seen as Parquet. */
module EndToEnd {
  import opened Bytes
  import opened Storage
  import opened Base64
  import opened Regions
  import opened FileMaps
  import opened ParquetTypes
  import opened Layout
  import opened Paging
  import opened BuildMaps
  import opened ArrayHeaders
  import opened ParquetReader
  import opened Parser

  /** The file has the header and, right behind it, the data; in base64 each is
      a unit of its own. */
  ghost predicate HoldsArray(file: OSFile, enc: EncodingType, offset: nat, header: seq<byte>, data: seq<byte>) {
    StartsWith(TextAt(file.bytes, offset), enc, header, data)
  }

  ghost predicate StartsWith(text: seq<byte>, enc: EncodingType, header: seq<byte>, data: seq<byte>) {
    if enc.BASE64? then Encode(header) + Encode(data) <= text else header + data <= text
  }

  /** The header reader delivers the header, in either encoding. */
  lemma HeaderVisible(
    file: OSFile, enc: EncodingType, offset: nat, header: seq<byte>, data: seq<byte>, at: nat, size: nat)
    requires HoldsArray(file, enc, offset, header, data) && at + size <= |header|
    ensures ViewAt(file, enc, offset).Answer(at, size) == Some(header[at..at + size])
  {
    hide Encode, FetchAt;
    var text := TextAt(file.bytes, offset);
    if enc.BASE64? {
      var tail := text[|Encode(header)|..];
      assert text == Encode(header) + tail;
      StoredSlice(header, tail, at, size);
    } else if size > 0 {
      assert text[at..at + size] == header[at..at + size];
    } else {
      assert header[at..at + size] == [];
    }
  }

  /** The rewritten data start is the first byte behind the header: what the map
      reads from there on is the data. */
  lemma DataBehindHeader(file: OSFile, enc: EncodingType, offset: nat, header: seq<byte>, data: seq<byte>)
    requires HoldsArray(file, enc, offset, header, data)
    ensures data <= Payload(enc.BASE64?, file.bytes, DataStart(enc, offset, |header|))
  {
    hide Encode, DecodeAll;
    var text, start := TextAt(file.bytes, offset), DataStart(enc, offset, |header|);
    if enc.BASE64? {
      EncodeLength(header);
      var tail := text[|Encode(header) + Encode(data)|..];
      assert text == Encode(header) + (Encode(data) + tail);
      if text != [] {
        DropDrop(file.bytes, offset, |Encode(header)|);
        DropIntoConcat(Encode(header), Encode(data) + tail, |Encode(header)|);
        assert TextAt(file.bytes, start) == Encode(data) + tail;
        StoredSlice(data, tail, 0, 0);
      } else {
        NothingEncoded(data);
      }
    } else if text != [] {
      DropDrop(file.bytes, offset, |header|);
      var tail := text[|header + data|..];
      assert text == header + (data + tail);
      DropIntoConcat(header, data + tail, |header|);
    }
  }

  lemma NothingEncoded(data: seq<byte>)
    requires Encode(data) == []
    ensures data == []
  {
    EncodeLength(data);
  }

  // Headers.

  lemma HeaderWords(w: Width, blkSz: nat, lastBlkSz: nat, sizes: seq<nat>)
    requires |sizes| < Pow256(w) && blkSz < Pow256(w) && lastBlkSz < Pow256(w)
    ensures var header := CompressedHeader(w, blkSz, lastBlkSz, sizes);
            && w * 3 <= |header|
            && Word(header[..w * 3], w, 0) == |sizes|
            && Word(header[..w * 3], w, 1) == blkSz
            && Word(header[..w * 3], w, 2) == lastBlkSz
            && header[w * 3..] == Words(sizes, w)
  {
    hide Words, FromLE, Pow256;
    var info := Words([|sizes|, blkSz, lastBlkSz], w);
    var header := info + Words(sizes, w);
    assert header[..w * 3] == info && header[w * 3..] == Words(sizes, w);
    WordOfWords([|sizes|, blkSz, lastBlkSz], w, 0);
    WordOfWords([|sizes|, blkSz, lastBlkSz], w, 1);
    WordOfWords([|sizes|, blkSz, lastBlkSz], w, 2);
  }

  /** The numbers fit their words, and the table is short enough to be read whole. */
  ghost predicate Writable(w: Width, blkSz: nat, lastBlkSz: nat, sizes: seq<nat>) {
    && |sizes| < Pow256(w) && blkSz < Pow256(w) && lastBlkSz < Pow256(w)
    && (forall i :: 0 <= i < |sizes| ==> sizes[i] < Pow256(w))
    && |sizes| < if w == 4 then 0x4000_0000 else 0x1000_0000_0000_0000
  }

  /** Either parser, through either view, gets back exactly what the header was
      made of, with the data start right behind it. */
  lemma HeaderReadsBack(
    file: OSFile, enc: EncodingType, offset: nat, w: Width, blkSz: nat, lastBlkSz: nat, sizes: seq<nat>,
    data: seq<byte>, arr: CompressedArray)
    requires Writable(w, blkSz, lastBlkSz, sizes)
    requires HoldsArray(file, enc, offset, CompressedHeader(w, blkSz, lastBlkSz, sizes), data)
    requires Says(ViewAt(file, enc, offset), w, arr)
    ensures arr == CompressedArray(|sizes|, blkSz, lastBlkSz, sizes, |CompressedHeader(w, blkSz, lastBlkSz, sizes)|)
  {
    hide HoldsArray, HeaderView.Answer, Words, FromLE, Pow256;
    var header := CompressedHeader(w, blkSz, lastBlkSz, sizes);
    HeaderWords(w, blkSz, lastBlkSz, sizes);
    HeaderVisible(file, enc, offset, header, data, 0, w * 3);
    assert header[0..w * 3] == header[..w * 3];
    assert TableBytes(w, |sizes|) == w * |sizes|;
    HeaderVisible(file, enc, offset, header, data, w * 3, w * |sizes|);
    assert header[w * 3..w * 3 + w * |sizes|] == header[w * 3..];
    forall i: nat | i < |sizes| ensures arr.compressedBlkSz[i] == sizes[i] {
      WordOfWords(sizes, w, i);
    }
    assert arr.compressedBlkSz == sizes;
  }

  /** The 32-bit parser computes the size of its table in 32 bits; it ends up
      behind the header exactly when there are fewer than 2^30 blocks. */
  lemma Narrow32Iff(view: HeaderView, arr: CompressedArray)
    requires Says(view, 4, arr)
    ensures arr.dataStart == 12 + 4 * arr.numBlks <==> arr.numBlks < 0x4000_0000
  {
    hide HeaderView.Answer, FromLE;
    FromLEBound(view.Answer(0, 12).value[0..4]);
    Pow256Values();
  }

  /** Such a header: one of 12 bytes that says 2^30 blocks. The parser reads no
      table at all and takes the array to start right there. */
  lemma NarrowOverflow(file: OSFile, data: seq<byte>)
    requires HoldsArray(file, RAW, 0, Words([0x4000_0000, 1, 1], 4), data)
    ensures exists arr :: Says(ViewAt(file, RAW, 0), 4, arr) && arr.numBlks == 0x4000_0000 && arr.dataStart == 12
  {
    hide Words, FromLE, HeaderView.Answer, HoldsArray, Pow256;
    Pow256Values();
    var view, header := ViewAt(file, RAW, 0), Words([0x4000_0000, 1, 1], 4);
    HeaderVisible(file, RAW, 0, header, data, 0, 12);
    HeaderVisible(file, RAW, 0, header, data, 12, 0);
    assert header[0..12] == header;
    WordOfWords([0x4000_0000, 1, 1], 4, 0);
    WordOfWords([0x4000_0000, 1, 1], 4, 1);
    WordOfWords([0x4000_0000, 1, 1], 4, 2);
    var arr := CompressedArray(0x4000_0000, 1, 1, seq(0x4000_0000, _ => 0), 12);
    assert Says(view, 4, arr);
  }

  /** A 32-bit and a 64-bit header with the same numbers give the same block
      table, through any pair of views. */
  lemma WidthsAgree(
    file4: OSFile, enc4: EncodingType, offset4: nat, arr4: CompressedArray,
    file8: OSFile, enc8: EncodingType, offset8: nat, arr8: CompressedArray,
    blkSz: nat, lastBlkSz: nat, sizes: seq<nat>, data: seq<byte>)
    requires Writable(4, blkSz, lastBlkSz, sizes) && Writable(8, blkSz, lastBlkSz, sizes)
    requires HoldsArray(file4, enc4, offset4, CompressedHeader(4, blkSz, lastBlkSz, sizes), data)
    requires HoldsArray(file8, enc8, offset8, CompressedHeader(8, blkSz, lastBlkSz, sizes), data)
    requires Says(ViewAt(file4, enc4, offset4), 4, arr4) && Says(ViewAt(file8, enc8, offset8), 8, arr8)
    ensures arr4.(dataStart := arr8.dataStart) == arr8
    ensures data <= Payload(enc4.BASE64?, file4.bytes, DataStart(enc4, offset4, arr4.dataStart))
    ensures data <= Payload(enc8.BASE64?, file8.bytes, DataStart(enc8, offset8, arr8.dataStart))
  {
    hide HoldsArray, Writable, Says, Payload, CompressedHeader;
    HeaderReadsBack(file4, enc4, offset4, 4, blkSz, lastBlkSz, sizes, data, arr4);
    HeaderReadsBack(file8, enc8, offset8, 8, blkSz, lastBlkSz, sizes, data, arr8);
    DataBehindHeader(file4, enc4, offset4, CompressedHeader(4, blkSz, lastBlkSz, sizes), data);
    DataBehindHeader(file8, enc8, offset8, CompressedHeader(8, blkSz, lastBlkSz, sizes), data);
  }

  // The virtual file.

  lemma MapShows(fm: FileMap, f: Format, enc: EncodingType, start: nat, cs: seq<nat>, us: seq<nat>, file: OSFile)
    requires Maps(fm, f, enc, start, cs, us)
    requires Sum(cs) <= |Payload(enc.BASE64?, file.bytes, start)|
    ensures fm.BackedBy(file)
    ensures fm.View(file) == ParquetFile(f, us, Cut(Payload(enc.BASE64?, file.bytes, start), cs))
  {
    hide Payload, FileRegions, FileMap.RegionList, Contents, ParquetFile, Cut, Sum, Backed;
    FileRegionsAreBytes(f, cs, us, Payload(enc.BASE64?, file.bytes, start));
  }

  /** The map of a compressed array is laid out for the numbers in its header. */
  lemma MapOfHeader(
    fm: FileMap, f: Format, file: OSFile, enc: EncodingType, offset: nat, w: Width, blkSz: nat, lastBlkSz: nat,
    sizes: seq<nat>, data: seq<byte>)
    requires f.compression != NONE && IsMapOf(fm, f, file, enc, w, offset)
    requires Writable(w, blkSz, lastBlkSz, sizes)
    requires HoldsArray(file, enc, offset, CompressedHeader(w, blkSz, lastBlkSz, sizes), data)
    ensures Maps(fm, f, enc, DataStart(enc, offset, |CompressedHeader(w, blkSz, lastBlkSz, sizes)|), sizes,
                 BlockSizes(|sizes|, blkSz, lastBlkSz))
  {
    hide HoldsArray, Writable, Says, Maps, CompressedHeader, BlockSizes;
    var arr :| Says(ViewAt(file, enc, offset), w, arr) &&
               Maps(fm, f, enc, DataStart(enc, offset, arr.dataStart), arr.compressedBlkSz,
                    BlockSizes(arr.numBlks, arr.blkSz, arr.lastBlkSz));
    HeaderReadsBack(file, enc, offset, w, blkSz, lastBlkSz, sizes, data, arr);
  }

  /** End to end, compressed: over any file that holds the array, in either
      encoding and with either header width, the map built from it shows exactly
      the Parquet file made of the array's blocks. */
  lemma CompressedEndToEnd(
    fm: FileMap, f: Format, file: OSFile, enc: EncodingType, offset: nat, w: Width, blkSz: nat, lastBlkSz: nat,
    blocks: seq<seq<byte>>)
    requires f.compression != NONE && IsMapOf(fm, f, file, enc, w, offset)
    requires Writable(w, blkSz, lastBlkSz, Sizes(blocks))
    requires HoldsArray(file, enc, offset, CompressedHeader(w, blkSz, lastBlkSz, Sizes(blocks)), Join(blocks))
    ensures Usable(f) && fm.Valid() && fm.BackedBy(file)
    ensures fm.View(file) == ParquetFile(f, BlockSizes(|blocks|, blkSz, lastBlkSz), blocks)
  {
    hide Payload, FileMap.Valid, FileMap.View, FileMap.BackedBy, HoldsArray, Writable, Maps, ParquetFile, Cut, Join,
      Sum, CompressedHeader, BlockSizes, IsMapOf, DataStart;
    var sizes, us := Sizes(blocks), BlockSizes(|blocks|, blkSz, lastBlkSz);
    var header := CompressedHeader(w, blkSz, lastBlkSz, sizes);
    var start := DataStart(enc, offset, |header|);
    MapOfHeader(fm, f, file, enc, offset, w, blkSz, lastBlkSz, sizes, Join(blocks));
    DataBehindHeader(file, enc, offset, header, Join(blocks));
    var data := Payload(enc.BASE64?, file.bytes, start);
    CutOfJoin(blocks, data[|Join(blocks)|..]);
    assert data == Join(blocks) + data[|Join(blocks)|..];
    MapsFacts(fm, f, enc, start, sizes, us);
    MapShows(fm, f, enc, start, sizes, us, file);
  }

  lemma MapsFacts(fm: FileMap, f: Format, enc: EncodingType, start: nat, cs: seq<nat>, us: seq<nat>)
    requires Maps(fm, f, enc, start, cs, us)
    ensures Usable(f) && fm.Valid()
  {
  }

  /** End to end, uncompressed: the blocks are the pages the array is cut into. */
  lemma UncompressedEndToEnd(
    fm: FileMap, f: Format, file: OSFile, enc: EncodingType, offset: nat, w: Width, data: seq<byte>)
    requires f.compression == NONE && IsMapOf(fm, f, file, enc, w, offset)
    requires 1 <= |data| < Pow256(w)
    requires HoldsArray(file, enc, offset, LE(|data|, w), data)
    ensures Usable(f) && fm.Valid() && fm.BackedBy(file)
    ensures fm.View(file) == ParquetFile(f, PageSizes(|data|), Cut(data, PageSizes(|data|)))
  {
    hide Payload, FileMap.Valid, FileMap.View, FileMap.BackedBy, HoldsArray, Maps, ParquetFile, Cut, Sum, PageSizes,
      LE, FromLE, HeaderView.Answer, Pow256;
    var header, us := LE(|data|, w), PageSizes(|data|);
    var start := DataStart(enc, offset, |header|);
    var arr :| UncompressedSays(ViewAt(file, enc, offset), 0, w, arr) && arr.totalBytes >= 1 &&
               Maps(fm, f, enc, DataStart(enc, offset, arr.dataStart), PageSizes(arr.totalBytes),
                    PageSizes(arr.totalBytes));
    HeaderVisible(file, enc, offset, header, data, 0, w);
    assert header[0..w] == header;
    LERoundTrip(|data|, w);
    DataBehindHeader(file, enc, offset, header, data);
    SizesOfPages(|data|);
    var stored := Payload(enc.BASE64?, file.bytes, start);
    CutOfPrefix(data, stored, us);
    MapsFacts(fm, f, enc, start, us, us);
    MapShows(fm, f, enc, start, us, us, file);
  }

  lemma SizesOfPages(totalBytes: nat)
    requires totalBytes >= 1
    ensures Sum(PageSizes(totalBytes)) == totalBytes
  {
    PageGeometry(totalBytes);
    PagesPartition(totalBytes, 0);
  }

  lemma {:induction false} SumMonotonic(cs: seq<nat>, i: nat)
    requires i <= |cs|
    ensures Sum(cs[..i]) <= Sum(cs)
    ensures i < |cs| ==> Sum(cs[..i]) + cs[i] <= Sum(cs)
    decreases |cs|
  {
    hide Sum;
    if cs == [] || i == |cs| {
      assert cs[..i] == cs;
    } else {
      var n := |cs| - 1;
      SumLast(cs);
      if i < n {
        SumMonotonic(cs[..n], i);
        assert cs[..n][..i] == cs[..i];
      }
    }
  }

  lemma CutOfPrefix(data: seq<byte>, stored: seq<byte>, cs: seq<nat>)
    requires data <= stored && Sum(cs) <= |data|
    ensures Cut(stored, cs) == Cut(data, cs)
  {
    hide Sum;
    forall i: nat | i < |cs| ensures Slice(stored, Sum(cs[..i]), cs[i]) == Slice(data, Sum(cs[..i]), cs[i]) {
      SumMonotonic(cs, i);
    }
  }

  type NonEmpty = s: seq<byte> | s != [] witness [0]

  /** An array as a VTK file stores it: as it is, or in compressed blocks that
      stand for `total` bytes. What the header says of the last block, `lastBlkSz`,
      need not be its size. */
  datatype StoredArray =
    | Packed(blkSz: nat, lastBlkSz: nat, total: nat, blocks: seq<seq<byte>>)
    | Plain(data: NonEmpty)

  /** How many bytes each page is declared to stand for. */
  function UnpackedSizes(a: StoredArray): seq<nat> {
    match a
    case Packed(blkSz, lastBlkSz, _, blocks) => BlockSizes(|blocks|, blkSz, lastBlkSz)
    case Plain(data) => PageSizes(|data|)
  }

  /** What each page carries. */
  function PageBlocks(a: StoredArray): (blocks: seq<seq<byte>>)
    ensures |blocks| == |UnpackedSizes(a)|
  {
    match a
    case Packed(_, _, _, blocks) => blocks
    case Plain(data) => Cut(data, PageSizes(|data|))
  }

  /** The Parquet file that an array stands for. */
  function Image(f: Format, a: StoredArray): seq<byte>
    requires Usable(f)
  {
    ParquetFile(f, UnpackedSizes(a), PageBlocks(a))
  }

  /** The VTK file has the array at `offset`, under a header of its kind. */
  ghost predicate IsStored(a: StoredArray, f: Format, file: OSFile, enc: EncodingType, w: Width, offset: nat) {
    BeginsArray(TextAt(file.bytes, offset), a, f.compression, enc, w)
  }

  /** A stretch of file that begins with an array: in blocks, three words (how many
      blocks, their size, the last one's), the stored size of each, and the blocks;
      as it is, a word for its length, and its bytes. */
  ghost predicate BeginsArray(
    text: seq<byte>, a: StoredArray, compression: CompressionType, enc: EncodingType, w: Width)
  {
    match a
    case Packed(blkSz, lastBlkSz, _, blocks) =>
      && compression != NONE
      && Writable(w, blkSz, lastBlkSz, Sizes(blocks))
      && StartsWith(text, enc, CompressedHeader(w, blkSz, lastBlkSz, Sizes(blocks)), Join(blocks))
    case Plain(data) =>
      compression == NONE && |data| < Pow256(w) && StartsWith(text, enc, LE(|data|, w), data)
  }

  /** What the builder relies on, for the pages of this array. */
  ghost predicate FitsArray(f: Format, a: StoredArray) {
    Fits(f, Sizes(PageBlocks(a)), UnpackedSizes(a))
  }

  /** End to end: over any file that holds an array, in either encoding, with
      either header width, compressed or not, the map built from it shows
      exactly the Parquet file that the array stands for. */
  lemma ArrayEndToEnd(
    fm: FileMap, f: Format, file: OSFile, enc: EncodingType, w: Width, offset: nat, a: StoredArray)
    requires IsMapOf(fm, f, file, enc, w, offset) && IsStored(a, f, file, enc, w, offset)
    ensures Usable(f) && fm.Valid() && fm.BackedBy(file)
    ensures fm.View(file) == Image(f, a) && fm.FileSize() == |Image(f, a)|
  {
    hide IsMapOf, StartsWith, Writable, FileMap.Valid, FileMap.View, FileMap.BackedBy, FileMap.FileSize,
      ParquetFile, Cut, Join, PageSizes, LE, CompressedHeader, BlockSizes, Sizes, Pow256;
    match a
    case Packed(blkSz, lastBlkSz, _, blocks) =>
      CompressedEndToEnd(fm, f, file, enc, offset, w, blkSz, lastBlkSz, blocks);
      fm.ViewLength(file);
    case Plain(data) =>
      UncompressedEndToEnd(fm, f, file, enc, offset, w, data);
      fm.ViewLength(file);
  }

  /** The same array, stored raw in one file and in base64 in another, with
      whatever header widths: the two virtual files are the same bytes. */
  lemma EncodingIndependence(
    f: Format, a: StoredArray,
    raw: FileMap, rawFile: OSFile, rawW: Width, rawOffset: nat,
    b64: FileMap, b64File: OSFile, b64W: Width, b64Offset: nat)
    requires IsMapOf(raw, f, rawFile, RAW, rawW, rawOffset) && IsStored(a, f, rawFile, RAW, rawW, rawOffset)
    requires IsMapOf(b64, f, b64File, BASE64, b64W, b64Offset) && IsStored(a, f, b64File, BASE64, b64W, b64Offset)
    ensures raw.Valid() && b64.Valid() && raw.BackedBy(rawFile) && b64.BackedBy(b64File)
    ensures raw.FileSize() == b64.FileSize() && raw.View(rawFile) == b64.View(b64File)
  {
    hide IsMapOf, IsStored, FileMap.Valid, FileMap.View, FileMap.BackedBy, FileMap.FileSize, Image;
    ArrayEndToEnd(raw, f, rawFile, RAW, rawW, rawOffset, a);
    ArrayEndToEnd(b64, f, b64File, BASE64, b64W, b64Offset, a);
  }

  /** A stored array within bounds meets what the parser asks for, and its whole
      header can be read: so over a file that reads steadily, parsing succeeds. */
  lemma StoredArrayLoads(f: Format, file: OSFile, enc: EncodingType, w: Width, offset: nat, a: StoredArray)
    requires IsStored(a, f, file, enc, w, offset) && FitsArray(f, a)
    ensures HeaderFits(f, ViewAt(file, enc, offset), w) && Readable(f, ViewAt(file, enc, offset), w)
  {
    hide Says, UncompressedSays, Fits, Writable, StartsWith, HeaderView.Answer, Cut, Sum, PageSizes, LE, FromLE,
      CompressedHeader, BlockSizes, Join, Pow256, Usable;
    var view := ViewAt(file, enc, offset);
    match a
    case Packed(blkSz, lastBlkSz, _, blocks) =>
      CompressedHeaderReadable(f, file, enc, w, offset, blkSz, lastBlkSz, Sizes(blocks), Join(blocks));
      forall arr | Says(view, w, arr)
        ensures Usable(f) ==> Fits(f, arr.compressedBlkSz, BlockSizes(arr.numBlks, arr.blkSz, arr.lastBlkSz))
      {
        HeaderReadsBack(file, enc, offset, w, blkSz, lastBlkSz, Sizes(blocks), Join(blocks), arr);
      }
    case Plain(data) =>
      UncompressedHeaderReadable(file, enc, w, offset, data);
      SizesOfPages(|data|);
      CutSizes(data, PageSizes(|data|));
      forall arr | UncompressedSays(view, 0, w, arr)
        ensures arr.totalBytes >= 1 && (Usable(f) ==> Fits(f, PageSizes(arr.totalBytes), PageSizes(arr.totalBytes)))
      {
        TotalSaid(view, w, arr);
      }
  }

  lemma CompressedHeaderReadable(
    f: Format, file: OSFile, enc: EncodingType, w: Width, offset: nat, blkSz: nat, lastBlkSz: nat, sizes: seq<nat>,
    data: seq<byte>)
    requires f.compression != NONE && Writable(w, blkSz, lastBlkSz, sizes)
    requires HoldsArray(file, enc, offset, CompressedHeader(w, blkSz, lastBlkSz, sizes), data)
    ensures Readable(f, ViewAt(file, enc, offset), w)
  {
    hide HoldsArray, HeaderView.Answer, Words, FromLE, Pow256;
    var header := CompressedHeader(w, blkSz, lastBlkSz, sizes);
    HeaderWords(w, blkSz, lastBlkSz, sizes);
    HeaderVisible(file, enc, offset, header, data, 0, w * 3);
    assert header[0..w * 3] == header[..w * 3];
    HeaderVisible(file, enc, offset, header, data, w * 3, w * |sizes|);
  }

  lemma UncompressedHeaderReadable(file: OSFile, enc: EncodingType, w: Width, offset: nat, data: seq<byte>)
    requires |data| < Pow256(w) && HoldsArray(file, enc, offset, LE(|data|, w), data)
    ensures var said := ViewAt(file, enc, offset).Answer(0, w);
            said.Some? && FromLE(said.value) == |data|
  {
    hide HoldsArray, HeaderView.Answer, FromLE, LE, Pow256, ViewAt;
    var header := LE(|data|, w);
    HeaderVisible(file, enc, offset, header, data, 0, w);
    assert header[0..w] == header;
    LERoundTrip(|data|, w);
  }

  lemma TotalSaid(view: HeaderView, w: Width, arr: UncompressedArray)
    requires UncompressedSays(view, 0, w, arr)
    ensures view.Answer(0, w).Some? && arr.totalBytes == FromLE(view.Answer(0, w).value)
  {
  }

  // Files that end too early.

  lemma {:induction false} PageRegionAt(f: Format, cs: seq<nat>, us: seq<nat>, i: nat)
    requires Usable(f) && i < |cs| == |us|
    ensures |PageRegions(f, cs, us)| == 2 * |cs|
    ensures PageRegions(f, cs, us)[2 * i + 1] == Mapped(Sum(cs[..i]), cs[i])
    decreases |cs|
  {
    hide Header, Sum;
    var n := |cs| - 1;
    if n > 0 {
      PageRegionAt(f, cs[..n], us[..n], if i < n then i else 0);
    }
    if i < n {
      assert cs[..n][..i] == cs[..i];
    }
  }

  /** The last block that is not empty reaches to the end of the array data. */
  lemma {:induction false} LastNonEmpty(cs: seq<nat>) returns (i: nat)
    requires Sum(cs) > 0
    ensures i < |cs| && cs[i] > 0 && Sum(cs[..i]) + cs[i] == Sum(cs)
    decreases |cs|
  {
    hide Sum;
    if cs == [] {
      SumOfNone();
    }
    var n := |cs| - 1;
    SumLast(cs);
    if cs[n] > 0 {
      i := n;
    } else {
      i := LastNonEmpty(cs[..n]);
      assert cs[..n][..i] == cs[..i];
    }
  }

  lemma BlockMissing(
    fm: FileMap, f: Format, enc: EncodingType, start: nat, cs: seq<nat>, us: seq<nat>, file: OSFile, i: nat)
    requires Maps(fm, f, enc, start, cs, us) && i < |cs| && cs[i] > 0
    requires Sum(cs[..i]) + cs[i] > |Payload(enc.BASE64?, file.bytes, start)|
    ensures !fm.Present(file, 0, fm.FileSize())
  {
    hide Payload, Sum, FileRegions, FileMap.RegionList, FileMap.Valid;
    FileRegionAt(f, cs, us, i);
    MissingRegion(fm, file, 2 * i + 2, Sum(cs[..i]), cs[i]);
  }

  lemma FileRegionAt(f: Format, cs: seq<nat>, us: seq<nat>, i: nat)
    requires Usable(f) && i < |cs| == |us|
    ensures 2 * i + 2 < |FileRegions(f, cs, us)|
    ensures FileRegions(f, cs, us)[2 * i + 2] == Mapped(Sum(cs[..i]), cs[i])
  {
    hide PageRegions, Sum, Trailer;
    PageRegionAt(f, cs, us, i);
  }

  lemma MissingRegion(fm: FileMap, file: OSFile, k: nat, offset: nat, size: nat)
    requires fm.Valid() && k < fm.N() && fm.RegionList()[k] == Mapped(offset, size)
    requires size > 0 && offset + size > |fm.Data(file)|
    ensures !fm.Present(file, 0, fm.FileSize())
  {
    hide FileMap.Data;
    assert fm.RegionAt(k) == Mapped(offset, size);
    fm.Sorted(k + 1, fm.N());
    assert !fm.PresentIn(file, k, 0, fm.FileSize());
  }

  /** The whole virtual file is there if and only if all the blocks are. */
  lemma WholeFilePresentIff(
    fm: FileMap, f: Format, enc: EncodingType, start: nat, cs: seq<nat>, us: seq<nat>, file: OSFile)
    requires Maps(fm, f, enc, start, cs, us)
    ensures fm.Valid()
    ensures fm.Present(file, 0, fm.FileSize()) <==> Sum(cs) <= |Payload(enc.BASE64?, file.bytes, start)|
  {
    hide Payload, Sum, FileMap.Present, FileMap.BackedBy, FileMap.FileSize, FileMap.View, FileMap.Valid,
      ParquetFile, Cut;
    MapsFacts(fm, f, enc, start, cs, us);
    if Sum(cs) <= |Payload(enc.BASE64?, file.bytes, start)| {
      MapShows(fm, f, enc, start, cs, us, file);
      fm.EverythingPresent(file, 0, fm.FileSize());
    } else {
      var i := LastNonEmpty(cs);
      BlockMissing(fm, f, enc, start, cs, us, file, i);
    }
  }

  /** Reading the whole virtual file of an array, over a file that reads without
      disturbance, ends if and only if the VTK file has all the blocks its header
      promises. In base64 it always ends, and where the text at most breaks off
      it has an answer exactly then. */
  lemma TruncatedArray(fm: FileMap, f: Format, enc: EncodingType, start: nat, cs: seq<nat>, us: seq<nat>, file: OSFile)
    requires Maps(fm, f, enc, start, cs, us)
    ensures fm.Valid()
    ensures var complete, size := Sum(cs) <= |Payload(enc.BASE64?, file.bytes, start)|, fm.FileSize();
            && (enc.RAW? ==> (fm.Ends(file, Progress(fm.RegionOf(0), 0, size)) <==> complete))
            && (enc.RAW? || Unbroken(TextAt(file.bytes, start)) ==> (fm.Answer(file, 0, size).Some? <==> complete))
  {
    hide Payload, Sum, FileMap.Present, FileMap.BackedBy, FileMap.FileSize, FileMap.Valid, FileMap.Ends,
      FileMap.Answer, FileMap.RegionOf, FileMap.RegionList, FileRegions, Unbroken, TextAt;
    WholeFilePresentIff(fm, f, enc, start, cs, us, file);
    if enc.RAW? {
      fm.EndsIffPresent(file, 0, fm.FileSize());
    }
    if enc.RAW? || Unbroken(TextAt(file.bytes, start)) {
      fm.AnswerIffPresent(file, 0, fm.FileSize());
    }
  }

  /** Such a file: its header promises blocks of some sizes, and all it has behind
      the header is `data`. The header parses, and the read of the whole virtual
      file ends if and only if `data` is long enough. */
  lemma TruncatedFile(
    fm: FileMap, f: Format, file: OSFile, offset: nat, w: Width, blkSz: nat, lastBlkSz: nat, sizes: seq<nat>,
    data: seq<byte>)
    requires f.compression != NONE && IsMapOf(fm, f, file, RAW, w, offset)
    requires Writable(w, blkSz, lastBlkSz, sizes)
    requires TextAt(file.bytes, offset) == CompressedHeader(w, blkSz, lastBlkSz, sizes) + data
    ensures fm.Valid()
    ensures fm.Ends(file, Progress(fm.RegionOf(0), 0, fm.FileSize())) <==> Sum(sizes) <= |data|
  {
    hide FileMap.FileSize, FileMap.Valid, FileMap.Ends, FileMap.RegionOf, FileMap.Answer, Sum, IsMapOf, Writable,
      Maps, BlockSizes, CompressedHeader;
    var header := CompressedHeader(w, blkSz, lastBlkSz, sizes);
    MapOfHeader(fm, f, file, RAW, offset, w, blkSz, lastBlkSz, sizes, data);
    TruncatedArray(fm, f, RAW, offset + |header|, sizes, BlockSizes(|sizes|, blkSz, lastBlkSz), file);
    assert |header| > 0;
    DropDrop(file.bytes, offset, |header|);
    DropIntoConcat(header, data, |header|);
  }

  // What a reader makes of it.

  function Blocks(pages: seq<PageRead>): seq<seq<byte>> {
    seq(|pages|, i requires 0 <= i < |pages| => pages[i].block)
  }

  lemma BlocksOfPages(f: Format, us: seq<nat>, blocks: seq<seq<byte>>)
    requires Usable(f) && |us| == |blocks|
    ensures Blocks(PagesOf(f, us, blocks)) == blocks
  {
    hide ValueSize;
  }

  /** A table whose footer says no more and no less than its pages hold. */
  predicate Honest(table: Table) {
    && table.numRows == table.column.numValues == RowsOn(table.pages)
    && table.column.totalCompressed == StoredOn(table.pages)
    && table.column.totalUncompressed == UnpackedOn(table.pages)
    && table.column.nullCount == Some(0)
  }

  /** A table that is to be read as the array it stands for: its name, its type of
      values, and how to unpack its pages. */
  predicate Describes(table: Table, f: Format) {
    table.column.name == f.name && table.column.t == f.t && table.column.compression == f.compression
  }

  /** The pages of a table are declared as long as the blocks of the array are. */
  predicate TrueSizes(table: Table, blkSz: nat, total: nat)
    requires blkSz >= 1 && total >= 1
  {
    forall i :: 0 <= i < |table.pages| ==>
      table.pages[i].uncompressedSize == if i < |table.pages| - 1 then blkSz else TrueLast(blkSz, total)
  }

  /** What a table says of an array in blocks: all its values are counted, if and
      only if what the declared sizes leave over and leave out is less than one;
      for blocks of whole values, if and only if as many are declared of the
      last block as it has; and every page is declared in its true size, if and
      only if the last block is. */
  ghost predicate CountsBlocks(table: Table, t: DataType, us: seq<nat>, blkSz: nat, lastBlkSz: nat, total: nat)
    requires t != UNKNOWN
  {
    var v := ValueSize(t);
    && (table.numRows == total / v <==> 0 <= Remainders(v, us) + (total - Sum(us)) < v)
    && (IsCut(|us|, blkSz, total) ==>
          && (blkSz % v == 0 ==> (table.numRows == total / v <==> lastBlkSz / v == TrueLast(blkSz, total) / v))
          && (TrueSizes(table, blkSz, total) <==> lastBlkSz == TrueLast(blkSz, total)))
  }

  lemma BlocksCounted(
    f: Format, blkSz: nat, lastBlkSz: nat, total: nat, blocks: seq<seq<byte>>, table: Table)
    requires Usable(f) && blocks != []
    requires var us := BlockSizes(|blocks|, blkSz, lastBlkSz);
             table.pages == PagesOf(f, us, blocks) && table.numRows == Count(f, us)
    ensures CountsBlocks(table, f.t, BlockSizes(|blocks|, blkSz, lastBlkSz), blkSz, lastBlkSz, total)
  {
    hide ValueSize, Sum, Header, Count, Remainders, TrueLast;
    var n, us := |blocks|, BlockSizes(|blocks|, blkSz, lastBlkSz);
    CountIffLeftover(f, us, total);
    if IsCut(n, blkSz, total) {
      if blkSz % ValueSize(f.t) == 0 {
        RowsIffLastBlock(f, n, blkSz, lastBlkSz, total);
      }
      assert table.pages[n - 1].uncompressedSize == lastBlkSz;
    }
  }

  /** A Parquet reader over the virtual file finds the array: its blocks in
      order on as many pages, ending where the footer begins, under a footer that
      agrees with the pages. An array stored as it is is counted right to the
      last value, one in blocks under the conditions of `CountsBlocks`; and pages
      are as long as the values they promise, plainly encoded, if and only if
      they are declared to hold whole values of more than a byte. */
  lemma ReaderFindsArray(fm: FileMap, f: Format, file: OSFile, enc: EncodingType, w: Width, offset: nat, a: StoredArray)
    requires IsMapOf(fm, f, file, enc, w, offset) && IsStored(a, f, file, enc, w, offset)
    requires SelfDelimiting(f.codec) && FitsArray(f, a)
    ensures fm.Valid() && fm.BackedBy(file)
    ensures var table := ReadTable(f.codec, fm.View(file));
            && table.Some? && table.value.version == 2 && table.value.root == "vtkfile"
            && Describes(table.value, f) && Honest(table.value)
            && Blocks(table.value.pages) == PageBlocks(a)
            && table.value.pagesEnd == table.value.footerStart
            && (PlainSized(table.value) <==> WholeValues(f.t, UnpackedSizes(a)))
            && (a.Plain? ==>
                  && table.value.numRows == |a.data| / ValueSize(f.t)
                  && (PlainSized(table.value) <==> f.t != INT8 && f.t != UINT8 && |a.data| % ValueSize(f.t) == 0))
            && (a.Packed? ==> CountsBlocks(table.value, f.t, UnpackedSizes(a), a.blkSz, a.lastBlkSz, a.total))
  {
    hide IsMapOf, IsStored, FileMap.Valid, FileMap.View, FileMap.BackedBy, FileMap.FileSize, ParquetFile, ReadTable,
      PageBytes, RowsOn, StoredOn, UnpackedOn, SelfDelimiting, PageSizes, BlockSizes, Cut, Sizes, PagesOf, Blocks,
      Count, Sum, ToParquetType, ValueSize, Header, Footer, PlainSized, WholeValues, CountsBlocks;
    var us, blocks := UnpackedSizes(a), PageBlocks(a);
    ArrayEndToEnd(fm, f, file, enc, w, offset, a);
    TableReadsBack(f, us, blocks);
    PagesAddUp(f, us, blocks);
    BlocksOfPages(f, us, blocks);
    PlainPagesIff(f, us, blocks, ReadTable(f.codec, fm.View(file)).value);
    match a
    case Packed(blkSz, lastBlkSz, total, _) =>
      BlocksCounted(f, blkSz, lastBlkSz, total, blocks, ReadTable(f.codec, fm.View(file)).value);
    case Plain(data) =>
      PageCount(f, |data|);
      WholePagesIff(f.t, |data|);
  }

  /** Headers that give the size of the last partial block, and zero if there is
      none: a reader counts all values if and only if there is one. */
  lemma ReaderCountsPartial(
    fm: FileMap, f: Format, file: OSFile, enc: EncodingType, w: Width, offset: nat, a: StoredArray)
    requires IsMapOf(fm, f, file, enc, w, offset) && IsStored(a, f, file, enc, w, offset)
    requires SelfDelimiting(f.codec) && FitsArray(f, a)
    requires a.Packed? && IsCut(|a.blocks|, a.blkSz, a.total) && a.lastBlkSz == a.total % a.blkSz
    requires Usable(f) && a.blkSz % ValueSize(f.t) == 0
    ensures fm.Valid()
    ensures var table := ReadTable(f.codec, fm.View(file));
            table.Some? && (table.value.numRows == a.total / ValueSize(f.t) <==> a.total % a.blkSz != 0)
  {
    hide IsMapOf, IsStored, FileMap.Valid, FileMap.View, FileMap.BackedBy, ReadTable, SelfDelimiting, FitsArray,
      ValueSize, Count, Sum, Remainders, TrueSizes, PlainSized, WholeValues, Honest, Blocks;
    ReaderFindsArray(fm, f, file, enc, w, offset, a);
    RowsIffPartial(f, |a.blocks|, a.blkSz, a.total);
    RowsIffLastBlock(f, |a.blocks|, a.blkSz, a.lastBlkSz, a.total);
  }

  /** For one, two blocks of eight bytes under a header that says zero for the
      last: a reader finds both, but is promised two of the four values and an
      empty second page. */
  lemma FullBlockLost(
    fm: FileMap, f: Format, file: OSFile, enc: EncodingType, w: Width, offset: nat, blocks: seq<seq<byte>>)
    requires |blocks| == 2 && Usable(f) && ValueSize(f.t) == 4
    requires IsMapOf(fm, f, file, enc, w, offset) && IsStored(Packed(8, 0, 16, blocks), f, file, enc, w, offset)
    requires SelfDelimiting(f.codec) && FitsArray(f, Packed(8, 0, 16, blocks))
    ensures fm.Valid()
    ensures var table := ReadTable(f.codec, fm.View(file));
            table.Some? && table.value.numRows == 2 && |table.value.pages| == 2 &&
            table.value.pages[1].uncompressedSize == 0 && Blocks(table.value.pages) == blocks
  {
    hide IsMapOf, IsStored, FileMap.Valid, FileMap.View, FileMap.BackedBy, ReadTable, SelfDelimiting, ValueSize,
      Count, Sum, Header, RowsOn, StoredOn, UnpackedOn, Blocks, ParquetFile, PageBytes, ToParquetType, Fits;
    var us := BlockSizes(2, 8, 0);
    ArrayEndToEnd(fm, f, file, enc, w, offset, Packed(8, 0, 16, blocks));
    TableReadsBack(f, us, blocks);
    PagesAddUp(f, us, blocks);
    FullLastBlock(f);
    BlocksOfPages(f, us, blocks);
  }

  /** The pages of an array stored as it is join to the array. */
  lemma PlainPagesJoin(data: NonEmpty)
    ensures Join(PageBlocks(Plain(data))) == data
  {
    hide Cut, Join, Sum, PageSizes;
    SizesOfPages(|data|);
    CutSizes(data, PageSizes(|data|));
    assert data[..|data|] == data;
  }
}
