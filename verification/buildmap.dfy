/** Building the map of an array (fmap.cc:164-195, 261-416). */
module BuildMaps {
  import opened Bytes
  import opened Regions
  import opened FileMaps
  import opened Thrift
  import opened Protocols
  import opened ParquetTypes
  import opened Layout
  import opened Paging

  /** Bounds under which nothing wraps: sizes and serialized structs below 2 GiB,
      and no more pages than an `int` can count. */
  ghost predicate Fits(f: Format, cs: seq<nat>, us: seq<nat>) {
    && Usable(f) && IsText(f.name)
    && 1 <= |cs| == |us| <= TWO31
    && (forall i :: 0 <= i < |cs| ==> cs[i] < TWO31 && us[i] < TWO31 && |Header(f, cs[i], us[i])| < TWO31)
    && |Footer(f, cs, us)| < TWO31
  }

  lemma NoPages(f: Format)
    requires Usable(f)
    ensures Sum([]) == 0 && Count(f, []) == 0 && Headers(f, [], []) == 0 && PageRegions(f, [], []) == []
  {
  }

  lemma {:induction false} Bounds(f: Format, cs: seq<nat>, us: seq<nat>, i: nat)
    requires Fits(f, cs, us) && i <= |cs|
    ensures Headers(f, cs[..i], us[..i]) <= i * (TWO31 - 1)
    ensures Sum(cs[..i]) <= i * (TWO31 - 1) && Sum(us[..i]) <= i * (TWO31 - 1) && Count(f, us[..i]) <= i * (TWO31 - 1)
  {
    hide Header, Footer, Headers, Sum, Count;
    if i == 0 {
      NoPages(f);
    } else {
      Bounds(f, cs, us, i - 1);
      NextPage(f, cs, us, i - 1);
    }
  }

  /** Serialization of one struct into a fresh buffer (thrift_serializer.h). */
  method SerializeToBuffer(codec: Codec, fields: Fields, m: map<int, Value>) returns (buf: seq<byte>)
    ensures buf == codec.encode(WriteFields(fields, m, 1))
  {
    var protocol := new Protocol([]);
    WriteStruct(fields, m, protocol);
    assert [] + WriteFields(fields, m, 1) == WriteFields(fields, m, 1);
    buf := codec.encode(protocol.tokens);
  }

  /** The page header that AppendPage fills in, field by field. */
  method MakePageHeader(valueSize: nat, compressedSize: nat, uncompressedSize: nat, isCompressed: bool)
    returns (pageHeader: map<int, Value>)
    requires compressedSize < TWO31 && uncompressedSize < TWO31 && valueSize > 0
    ensures pageHeader == PageHeaderOf(compressedSize, uncompressedSize, uncompressedSize / valueSize)
  {
    hide DataPageHeaderV2Fields, PageHeaderFields, DataPageHeaderV2Of, PageHeaderOf, Fresh;
    var numValues := DivTrunc(ToI32(uncompressedSize), valueSize);
    var v2 := Fresh(DataPageHeaderV2Fields());
    v2 := v2[1 := N32(numValues)][2 := N32(0)][3 := N32(numValues)][4 := N32(0)][5 := N32(0)][6 := N32(0)];
    if isCompressed {
      v2 := v2[7 := Leaf(Bool(true))];
    }
    SameDataPageHeader(numValues, v2);
    pageHeader := Fresh(PageHeaderFields());
    pageHeader := pageHeader[1 := N32(3)][2 := N32(ToI32(uncompressedSize))][3 := N32(ToI32(compressedSize))];
    pageHeader := pageHeader[8 := Struct(v2)];
    SamePageHeader(compressedSize, uncompressedSize, numValues, pageHeader);
  }

  method AppendPage(
    f: Format, builder: MapBuilder, valueSize: nat, offset: nat, compressedSize: nat, uncompressedSize: nat,
    isCompressed: bool)
    returns (len: nat)
    requires Usable(f) && valueSize == ValueSize(f.t)
    requires compressedSize < TWO31 && uncompressedSize < TWO31 && offset < TWO63 - 1
    requires builder.Valid()
    requires builder.bytesWritten + |Header(f, compressedSize, uncompressedSize)| + compressedSize < TWO64
    modifies builder
    ensures builder.Valid()
    ensures len == |Header(f, compressedSize, uncompressedSize)|
    ensures builder.bytesWritten == old(builder.bytesWritten) + len + compressedSize
    ensures builder.Regions() ==
            old(builder.Regions())
            + [Direct(Header(f, compressedSize, uncompressedSize)), Mapped(offset, compressedSize)]
  {
    hide Fits, MapBuilder.Valid, MapBuilder.Regions, PageHeaderOf;
    var pageHeader := MakePageHeader(valueSize, compressedSize, uncompressedSize, isCompressed);
    var buf := SerializeToBuffer(f.codec, PageHeaderFields(), pageHeader);
    builder.AddDirect(buf);
    builder.AddMappedRegion(offset, compressedSize);
    len := |buf|;
    ghost var before := old(builder.Regions());
    assert before + [Direct(buf)] + [Mapped(offset, compressedSize)]
        == before + [Direct(buf), Mapped(offset, compressedSize)];
  }

  /** Setting the flag or leaving it makes no difference: a new header has it set. */
  lemma SameDataPageHeader(n: int, v2: map<int, Value>)
    requires var plain := Fresh(DataPageHeaderV2Fields())
                         [1 := N32(n)][2 := N32(0)][3 := N32(n)][4 := N32(0)][5 := N32(0)][6 := N32(0)];
             v2 == plain || v2 == plain[7 := Leaf(Bool(true))]
    ensures v2 == DataPageHeaderV2Of(n)
  {
    hide StatisticsFields, N32;
    assert v2 == DataPageHeaderV2Of(n);
  }

  lemma SamePageHeader(c: int, u: int, n: int, header: map<int, Value>)
    requires header == Fresh(PageHeaderFields())
                       [1 := N32(3)][2 := N32(u)][3 := N32(c)][8 := Struct(DataPageHeaderV2Of(n))]
    ensures header == PageHeaderOf(c, u, n)
  {
    hide DataPageHeaderV2Fields, DataPageHeaderV2Of, N32;
    assert header == PageHeaderOf(c, u, n);
  }

  // The footer's objects, filled in field by field as AppendFooter does.

  method MakeSchema(c: Column) returns (group: map<int, Value>, ele: map<int, Value>)
    requires Supported(c)
    ensures group == GroupElement() && ele == ColumnElement(c)
  {
    hide N32;
    group := Fresh(SchemaElementFields())[4 := Leaf(Str(VTKFILE))][3 := N32(0)][5 := N32(1)];
    ele := Fresh(SchemaElementFields())[4 := Leaf(Str(c.name))][3 := N32(0)][1 := N32(ToParquetType(c.t))];
    var conv := ToParquetConvertedType(c.t);
    if conv.Some? {
      ele := ele[6 := N32(conv.value)];
    }
    assert group == GroupElement();
    assert ele == ColumnElement(c);
  }

  method MakeColumnMetaData(c: Column) returns (metaData: map<int, Value>)
    requires Supported(c)
    ensures metaData == ColumnMetaDataOf(c)
  {
    hide N32, N64;
    var stats := Fresh(StatisticsFields())[3 := N64(0)];
    assert stats == map[3 := N64(0)];
    metaData := Fresh(ColumnMetaDataFields());
    metaData := metaData[1 := N32(ToParquetType(c.t))][2 := Items([N32(0)])][3 := Items([Leaf(Str(c.name))])];
    metaData := metaData[4 := N32(ToParquetCodec(c.compression))][5 := N64(c.count)];
    metaData := metaData[6 := N64(c.totalUncompressed)][7 := N64(c.totalCompressed)][9 := N64(4)][12 := Struct(stats)];
    SameColumnMetaData(c, metaData);
  }

  lemma SameColumnMetaData(c: Column, m: map<int, Value>)
    requires Supported(c)
    requires m == Fresh(ColumnMetaDataFields())
                  [1 := N32(ToParquetType(c.t))][2 := Items([N32(0)])][3 := Items([Leaf(Str(c.name))])]
                  [4 := N32(ToParquetCodec(c.compression))][5 := N64(c.count)]
                  [6 := N64(c.totalUncompressed)][7 := N64(c.totalCompressed)][9 := N64(4)]
                  [12 := Struct(map[3 := N64(0)])]
    ensures m == ColumnMetaDataOf(c)
  {
    hide N32, N64, StatisticsFields;
    assert m == ColumnMetaDataOf(c);
  }

  method MakeRowGroup(c: Column) returns (rowGroup: map<int, Value>)
    requires Supported(c)
    ensures rowGroup == RowGroupOf(c)
  {
    hide N64, ColumnMetaDataFields, ColumnMetaDataOf;
    var metaData := MakeColumnMetaData(c);
    var column := Fresh(ColumnChunkFields())[2 := N64(0)][3 := Struct(metaData)];
    assert column == ColumnChunkOf(c);
    rowGroup := Fresh(RowGroupFields())[1 := Items([Struct(column)])];
    rowGroup := rowGroup[3 := N64(c.count)][2 := N64(c.totalUncompressed)][5 := N64(4)][6 := N64(c.totalCompressed)];
    assert rowGroup == RowGroupOf(c);
  }

  method MakeFileMetaData(c: Column) returns (fileMetaData: map<int, Value>)
    requires Supported(c)
    ensures fileMetaData == FileMetaDataOf(c)
  {
    hide N32, N64, SchemaElementFields, RowGroupFields, RowGroupOf, GroupElement, ColumnElement;
    var group, ele := MakeSchema(c);
    var rowGroup := MakeRowGroup(c);
    fileMetaData := Fresh(FileMetaDataFields())[1 := N32(2)][2 := Items([Struct(group), Struct(ele)])];
    fileMetaData := fileMetaData[3 := N64(c.count)][4 := Items([Struct(rowGroup)])];
    assert fileMetaData == FileMetaDataOf(c);
  }

  method AppendFooter(codec: Codec, builder: MapBuilder, c: Column) returns (len: nat)
    requires Supported(c) && builder.Valid()
    requires builder.bytesWritten + |codec.encode(WriteFields(FileMetaDataFields(), FileMetaDataOf(c), 1))| < TWO64
    modifies builder
    ensures builder.Valid()
    ensures var footer := codec.encode(WriteFields(FileMetaDataFields(), FileMetaDataOf(c), 1));
            && len == |footer|
            && builder.bytesWritten == old(builder.bytesWritten) + len
            && builder.Regions() == old(builder.Regions()) + [Direct(footer)]
  {
    hide FileMetaDataOf, FileMetaDataFields, MapBuilder.Valid, MapBuilder.Regions;
    var fileMetaData := MakeFileMetaData(c);
    var buf := SerializeToBuffer(codec, FileMetaDataFields(), fileMetaData);
    builder.AddDirect(buf);
    len := |buf|;
  }

  /** Everything after the pages: footer, its length, the closing mark. */
  method AppendTrailer(f: Format, builder: MapBuilder, ghost cs: seq<nat>, ghost us: seq<nat>, c: Column)
    returns (fm: FileMap)
    requires Fits(f, cs, us) && c == FooterColumn(f, cs, us)
    requires builder.Valid() && builder.bytesWritten == 4 + Headers(f, cs, us) + Sum(cs)
    requires builder.Regions() == [Direct(PAR1)] + PageRegions(f, cs, us)
    modifies builder
    ensures fm.Valid() && fm.RegionList() == FileRegions(f, cs, us)
    ensures fm.base64 == builder.base64 && fm.dataStart == builder.dataStart
  {
    hide MapBuilder.Valid, MapBuilder.Regions, PageRegions, FileMetaDataOf, FileMetaDataFields, FileMap.Valid,
      FileMap.RegionList, Headers, Sum, FileRegions, Fits, LE;
    TrailerFits(f, cs, us);
    var footSize := AppendFooter(f.codec, builder, c);
    builder.AddDirect(LE(ToU32(footSize), 4));
    builder.AddDirect(PAR1);
    fm := builder.Finish();
  }

  lemma TrailerFits(f: Format, cs: seq<nat>, us: seq<nat>)
    requires Fits(f, cs, us)
    ensures Supported(FooterColumn(f, cs, us)) && ToU32(|Footer(f, cs, us)|) == |Footer(f, cs, us)|
    ensures 4 + Headers(f, cs, us) + Sum(cs) + |Footer(f, cs, us)| + 8 < TWO64
    ensures var front, footer := [Direct(PAR1)] + PageRegions(f, cs, us), Footer(f, cs, us);
            front + [Direct(footer)] + [Direct(LE(|footer|, 4))] + [Direct(PAR1)] == FileRegions(f, cs, us)
  {
    hide PageRegions, Footer, Header, Headers, Sum, Count, LE;
    Bounds(f, cs, us, |cs|);
    assert cs[..|cs|] == cs && us[..|us|] == us;
    var front, footer := [Direct(PAR1)] + PageRegions(f, cs, us), Footer(f, cs, us);
    assert front + [Direct(footer)] + [Direct(LE(|footer|, 4))] + [Direct(PAR1)]
        == front + [Direct(footer), Direct(LE(|footer|, 4)), Direct(PAR1)];
  }

  /** The running totals of a build. */
  datatype Totals = Totals(compressed: int, uncompressed: int, count: int)

  /** The first `i` pages are in the builder and in the totals. */
  ghost predicate PagesDone(
    f: Format, cs: seq<nat>, us: seq<nat>, i: nat, regions: seq<Region>, written: nat, t: Totals)
    requires Usable(f) && i <= |cs| == |us|
  {
    && regions == [Direct(PAR1)] + PageRegions(f, cs[..i], us[..i])
    && written == 4 + t.compressed
    && t.compressed == Headers(f, cs[..i], us[..i]) + Sum(cs[..i])
    && t.uncompressed == Headers(f, cs[..i], us[..i]) + Sum(us[..i])
    && t.count == Count(f, us[..i])
  }

  lemma NoPagesDone(f: Format, cs: seq<nat>, us: seq<nat>)
    requires Usable(f) && |cs| == |us|
    ensures PagesDone(f, cs, us, 0, [Direct(PAR1)], 4, Totals(0, 0, 0)) && Sum(cs[..0]) == 0
  {
    NoPages(f);
    assert cs[..0] == [] && us[..0] == [];
  }

  /** Adding page `i` stays within bounds, and then one page more is done. */
  lemma PageAdded(f: Format, cs: seq<nat>, us: seq<nat>, i: nat, regions: seq<Region>, written: nat, t: Totals)
    requires Fits(f, cs, us) && i < |cs| && PagesDone(f, cs, us, i, regions, written, t)
    ensures ToU32(cs[i]) == cs[i] < TWO31 && ToU32(us[i]) == us[i] < TWO31
    ensures Sum(cs[..i + 1]) == Sum(cs[..i]) + cs[i] < TWO63 - 1
    ensures var c, u, h := cs[i], us[i], |Header(f, cs[i], us[i])|;
            && ToU32(h + c) == h + c && ToU32(h + u) == h + u && written + h + c < TWO64
            && PagesDone(f, cs, us, i + 1, regions + [Direct(Header(f, c, u)), Mapped(Sum(cs[..i]), c)],
                         written + h + c,
                         Totals(t.compressed + (h + c), t.uncompressed + (h + u), t.count + u / ValueSize(f.t)))
  {
    hide Header, Headers, Footer, PageRegions, Sum, Count, ValueSize;
    NextPage(f, cs, us, i);
    Bounds(f, cs, us, i + 1);
    var page := [Direct(Header(f, cs[i], us[i])), Mapped(Sum(cs[..i]), cs[i])];
    Associative([Direct(PAR1)], PageRegions(f, cs[..i], us[..i]), page);
  }

  lemma AllPagesDone(f: Format, cs: seq<nat>, us: seq<nat>, regions: seq<Region>, written: nat, t: Totals)
    requires Usable(f) && |cs| == |us| && PagesDone(f, cs, us, |cs|, regions, written, t)
    ensures regions == [Direct(PAR1)] + PageRegions(f, cs, us)
    ensures written == 4 + Headers(f, cs, us) + Sum(cs)
    ensures Column(f.name, f.t, f.compression, t.compressed, t.uncompressed, t.count) == FooterColumn(f, cs, us)
  {
    hide Header, Headers, Footer, PageRegions, Sum, Count;
    assert cs[..|cs|] == cs && us[..|us|] == us;
  }

  lemma SomePages(f: Format, cs: seq<nat>, us: seq<nat>)
    requires Fits(f, cs, us)
    ensures 1 <= |cs| == |us|
  {
  }

  lemma BlocksAlike(numBlks: nat, blkSz: nat, lastBlkSz: nat)
    ensures var us := BlockSizes(numBlks, blkSz, lastBlkSz);
            && (forall i :: 0 <= i < numBlks - 1 ==> us[i] == blkSz)
            && (numBlks > 0 ==> us[numBlks - 1] == lastBlkSz)
  {
  }

  /** The map of a compressed array; none if its type or codec is unknown. */
  method BuildMapCompressed(f: Format, base64: bool, arr: CompressedArray) returns (r: Option<FileMap>)
    requires |arr.compressedBlkSz| == arr.numBlks
    requires Usable(f) ==> Fits(f, arr.compressedBlkSz, BlockSizes(arr.numBlks, arr.blkSz, arr.lastBlkSz))
    ensures r.Some? <==> Usable(f)
    ensures r.Some? ==>
              && r.value.Valid() && r.value.base64 == base64 && r.value.dataStart == arr.dataStart
              && r.value.RegionList() ==
                 FileRegions(f, arr.compressedBlkSz, BlockSizes(arr.numBlks, arr.blkSz, arr.lastBlkSz))
  {
    hide MapBuilder.Valid, MapBuilder.Regions, PagesDone, Headers, Sum, Header, Footer, FileRegions, FileMap.Valid,
      FileMap.RegionList, GetValueSize, BlockSizes, FooterColumn, ToU32, Fits;
    if GetValueSize(f.t) == None || f.compression == UNKNOWN_COMPRESSION {
      return None;
    }
    var valueSize := GetValueSize(f.t).value;
    ghost var cs, us := arr.compressedBlkSz, BlockSizes(arr.numBlks, arr.blkSz, arr.lastBlkSz);
    SomePages(f, cs, us);
    BlocksAlike(arr.numBlks, arr.blkSz, arr.lastBlkSz);
    var builder := new MapBuilder(base64, arr.dataStart);
    builder.AddDirect(PAR1);
    var t, offset: nat, i: nat := Totals(0, 0, 0), 0, 0;
    NoPagesDone(f, cs, us);
    assert [] + [Direct(PAR1)] == [Direct(PAR1)];
    while i < arr.numBlks - 1
      invariant i <= arr.numBlks - 1 && fresh(builder) && builder.Valid()
      invariant builder.base64 == base64 && builder.dataStart == arr.dataStart
      invariant PagesDone(f, cs, us, i, builder.Regions(), builder.bytesWritten, t) && offset == Sum(cs[..i])
    {
      PageAdded(f, cs, us, i, builder.Regions(), builder.bytesWritten, t);
      var compressedSize, uncompressedSize := ToU32(arr.compressedBlkSz[i]), ToU32(arr.blkSz);
      var headerSize := AppendPage(f, builder, valueSize, offset, compressedSize, uncompressedSize, true);
      offset := offset + compressedSize;
      t := Totals(
        t.compressed + ToU32(headerSize + compressedSize),
        t.uncompressed + ToU32(headerSize + uncompressedSize),
        t.count + uncompressedSize / valueSize);
      i := i + 1;
    }
    PageAdded(f, cs, us, i, builder.Regions(), builder.bytesWritten, t);
    var compressedSize, uncompressedSize := ToU32(arr.compressedBlkSz[arr.numBlks - 1]), ToU32(arr.lastBlkSz);
    var headerSize := AppendPage(f, builder, valueSize, offset, compressedSize, uncompressedSize, true);
    t := Totals(
      t.compressed + ToU32(headerSize + compressedSize),
      t.uncompressed + ToU32(headerSize + uncompressedSize),
      t.count + uncompressedSize / valueSize);
    AllPagesDone(f, cs, us, builder.Regions(), builder.bytesWritten, t);
    var column := Column(f.name, f.t, f.compression, t.compressed, t.uncompressed, t.count);
    var fm := AppendTrailer(f, builder, cs, us, column);
    r := Some(fm);
  }

  /** The map of an uncompressed array, which is cut into pages here. */
  method BuildMapUncompressed(f: Format, base64: bool, arr: UncompressedArray) returns (r: Option<FileMap>)
    requires f.compression == NONE && arr.totalBytes >= 1
    requires Usable(f) ==> Fits(f, PageSizes(arr.totalBytes), PageSizes(arr.totalBytes))
    ensures r.Some? <==> Usable(f)
    ensures r.Some? ==>
              && r.value.Valid() && r.value.base64 == base64 && r.value.dataStart == arr.dataStart
              && r.value.RegionList() == FileRegions(f, PageSizes(arr.totalBytes), PageSizes(arr.totalBytes))
  {
    hide MapBuilder.Valid, MapBuilder.Regions, PagesDone, Headers, Sum, Header, Footer, FileRegions, FileMap.Valid,
      FileMap.RegionList, GetValueSize, BlockSizes, FooterColumn, ToU32, Fits;
    if GetValueSize(f.t) == None {
      return None;
    }
    var valueSize := GetValueSize(f.t).value;
    ghost var us := PageSizes(arr.totalBytes);
    PageGeometry(arr.totalBytes);
    BlocksAlike((arr.totalBytes + PAGE - 1) / PAGE, PAGE, (arr.totalBytes - 1) % PAGE + 1);
    var builder := new MapBuilder(base64, arr.dataStart);
    builder.AddDirect(PAR1);
    var t, offset: nat, i: nat := Totals(0, 0, 0), 0, 0;
    var blkSz := PAGE;
    var numBlks := (arr.totalBytes + blkSz - 1) / blkSz;
    var lastBlkSz := (arr.totalBytes - 1) % 32768 + 1;
    NoPagesDone(f, us, us);
    assert [] + [Direct(PAR1)] == [Direct(PAR1)];
    while i < numBlks - 1
      invariant i <= numBlks - 1 && fresh(builder) && builder.Valid()
      invariant builder.base64 == base64 && builder.dataStart == arr.dataStart
      invariant PagesDone(f, us, us, i, builder.Regions(), builder.bytesWritten, t) && offset == Sum(us[..i])
    {
      PageAdded(f, us, us, i, builder.Regions(), builder.bytesWritten, t);
      var headerSize := AppendPage(f, builder, valueSize, offset, ToU32(blkSz), ToU32(blkSz), false);
      offset := offset + blkSz;
      t := Totals(
        t.compressed + (headerSize + blkSz),
        t.uncompressed + (headerSize + blkSz),
        t.count + blkSz / valueSize);
      i := i + 1;
    }
    PageAdded(f, us, us, i, builder.Regions(), builder.bytesWritten, t);
    var headerSize := AppendPage(f, builder, valueSize, offset, ToU32(lastBlkSz), ToU32(lastBlkSz), false);
    t := Totals(
      t.compressed + (headerSize + lastBlkSz),
      t.uncompressed + (headerSize + lastBlkSz),
      t.count + lastBlkSz / valueSize);
    AllPagesDone(f, us, us, builder.Regions(), builder.bytesWritten, t);
    var column := Column(f.name, f.t, f.compression, t.compressed, t.uncompressed, t.count);
    var fm := AppendTrailer(f, builder, us, us, column);
    r := Some(fm);
  }
}
