/** From a stored array to its virtual Parquet file (parser.cc:81-129). */
module Parser {
  import opened Bytes
  import opened Storage
  import opened Base64
  import opened FileMaps
  import opened ParquetTypes
  import opened Layout
  import opened Paging
  import opened BuildMaps
  import opened ArrayHeaders

  datatype EncodingType = RAW | BASE64

  function NewArrayHeaderReader(base: OSFile, offset: nat, isBase64: bool): HeaderView {
    if isBase64 then Decoding(Base64Reader(base, offset)) else Offsetted(base, offset)
  }

  function ViewAt(file: OSFile, enc: EncodingType, offset: nat): HeaderView {
    NewArrayHeaderReader(file, offset, enc.BASE64?)
  }

  /** Where the data starts behind a header of `len` bytes: a base64 header is
      padded as a unit of its own. */
  function DataStart(enc: EncodingType, offset: nat, len: nat): nat {
    if enc.BASE64? then offset + 4 * ((len + 2) / 3) else offset + len
  }

  /** Header words are 4 or 8 bytes wide. */
  type Width = w: nat | w == 4 || w == 8 witness 4

  /** How many bytes the parser reads of a table of `n` words. */
  function TableBytes(w: Width, n: nat): nat {
    if w == 4 then ToU32(4 * n) else 8 * n
  }

  ghost predicate Says(view: HeaderView, w: Width, arr: CompressedArray) {
    CompressedSays(view, 0, w, TableBytes(w, arr.numBlks), arr)
  }

  /** Whatever the header says, it is within the bounds the builder relies on. */
  ghost predicate HeaderFits(f: Format, view: HeaderView, w: Width) {
    if f.compression == NONE then
      forall arr :: UncompressedSays(view, 0, w, arr) ==>
        arr.totalBytes >= 1 && (Usable(f) ==> Fits(f, PageSizes(arr.totalBytes), PageSizes(arr.totalBytes)))
    else
      forall arr :: Says(view, w, arr) ==>
        (Usable(f) ==> Fits(f, arr.compressedBlkSz, BlockSizes(arr.numBlks, arr.blkSz, arr.lastBlkSz)))
  }

  /** `fm` lays out the file for an array of the given pages and data position. */
  ghost predicate Maps(fm: FileMap, f: Format, enc: EncodingType, dataStart: nat, cs: seq<nat>, us: seq<nat>) {
    && Usable(f) && |cs| == |us| && fm.Valid()
    && fm.base64 == enc.BASE64? && fm.dataStart == dataStart
    && fm.RegionList() == FileRegions(f, cs, us)
  }

  /** `fm` is the map of the array whose header is at `offset`. */
  ghost predicate IsMapOf(fm: FileMap, f: Format, file: OSFile, enc: EncodingType, w: Width, offset: nat) {
    var view := ViewAt(file, enc, offset);
    if f.compression == NONE then
      exists arr :: UncompressedSays(view, 0, w, arr) && arr.totalBytes >= 1 &&
        Maps(fm, f, enc, DataStart(enc, offset, arr.dataStart), PageSizes(arr.totalBytes), PageSizes(arr.totalBytes))
    else
      exists arr :: Says(view, w, arr) &&
        Maps(fm, f, enc, DataStart(enc, offset, arr.dataStart), arr.compressedBlkSz,
             BlockSizes(arr.numBlks, arr.blkSz, arr.lastBlkSz))
  }

  lemma MapIsValid(fm: FileMap, f: Format, file: OSFile, enc: EncodingType, w: Width, offset: nat)
    requires IsMapOf(fm, f, file, enc, w, offset)
    ensures fm.Valid()
  {
  }

  /** The whole header can be read. */
  ghost predicate Readable(f: Format, view: HeaderView, w: Width) {
    if f.compression == NONE then view.Answer(0, w).Some?
    else
      view.Answer(0, w * 3).Some? &&
      var n := Word(view.Answer(0, w * 3).value, w, 0);
      8 * n < TWO63 && view.Answer(w * 3, TableBytes(w, n)).Some?
  }

  /** None stands for the exceptions: an unreadable header, an unknown type or codec. */
  method ParseAppendedArray(f: Format, file: OSFile, enc: EncodingType, w: Width, offset: nat)
    returns (r: Option<FileMap>)
    requires HeaderFits(f, ViewAt(file, enc, offset), w)
    ensures r.Some? ==> IsMapOf(r.value, f, file, enc, w, offset)
    ensures file.Steady() && Usable(f) && Readable(f, ViewAt(file, enc, offset), w) ==> r.Some?
  {
    hide CompressedSays, UncompressedSays, Fits, FileRegions, FileMap.Valid, FileMap.RegionList, Readable,
      HeaderView.Answer, FromLE;
    if Readable(f, ViewAt(file, enc, offset), w) {
      WhenReadable(f, ViewAt(file, enc, offset), w);
    }
    var isBase64 := enc.BASE64?;
    var view := NewArrayHeaderReader(file, offset, isBase64);
    if f.compression == NONE {
      var parsed;
      if w == 4 {
        parsed := ParseUncompressed32(view, 0);
      } else {
        parsed := ParseUncompressed64(view, 0);
      }
      if parsed == None {
        return None;
      }
      var arr := parsed.value;
      if isBase64 {
        arr := arr.(dataStart := offset + 4 * ((arr.dataStart + 2) / 3));
      } else {
        arr := arr.(dataStart := offset + arr.dataStart);
      }
      assert UncompressedSays(view, 0, w, parsed.value);
      r := BuildMapUncompressed(f, isBase64, arr);
    } else {
      var parsed;
      if w == 4 {
        parsed := ParseCompressed32(view, 0);
      } else {
        parsed := ParseCompressed64(view, 0);
      }
      if parsed == None {
        return None;
      }
      var arr := parsed.value;
      SizeTableComplete(view, w, arr);
      if isBase64 {
        arr := arr.(dataStart := offset + 4 * ((arr.dataStart + 2) / 3));
      } else {
        arr := arr.(dataStart := offset + arr.dataStart);
      }
      assert Says(view, w, parsed.value);
      r := BuildMapCompressed(f, isBase64, arr);
    }
  }

  /** What a readable header means for the parser of its width. */
  lemma WhenReadable(f: Format, view: HeaderView, w: Width)
    requires Readable(f, view, w)
    ensures f.compression == NONE ==> view.Answer(0, w).Some?
    ensures f.compression != NONE ==> view.Answer(0, 3 * w).Some?
    ensures f.compression != NONE && w == 4 ==> view.Answer(12, ToU32(4 * Word(view.Answer(0, 12).value, 4, 0))).Some?
    ensures f.compression != NONE && w == 8 ==>
              var n := Word(view.Answer(0, 24).value, 8, 0);
              8 * n < TWO63 && view.Answer(24, 8 * n).Some?
  {
    hide HeaderView.Answer, FromLE;
  }

  lemma SizeTableComplete(view: HeaderView, w: Width, arr: CompressedArray)
    requires Says(view, w, arr)
    ensures |arr.compressedBlkSz| == arr.numBlks
  {
  }
}
