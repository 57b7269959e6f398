/** A Parquet reader, after the "File Format" section of the Apache Parquet
    format specification, and what it finds in the virtual file. */
module ParquetReader {
  import opened Bytes
  import opened Thrift
  import opened WireTrees
  import opened RoundTrip
  import opened ParquetTypes
  import opened Layout
  import opened Paging
  import opened BuildMaps

  function IntAt(m: map<int, Value>, id: int): Option<int> {
    if id in m && m[id].Leaf? && (m[id].v.I32? || m[id].v.I64?) then Some(m[id].v.i) else None
  }

  function StructAt(m: map<int, Value>, id: int): Option<map<int, Value>> {
    if id in m && m[id].Struct? then Some(m[id].m) else None
  }

  /** The one struct of a list of structs. */
  function OnlyAt(m: map<int, Value>, id: int): Option<map<int, Value>> {
    if id in m && m[id].Items? && |m[id].elems| == 1 && m[id].elems[0].Struct? then Some(m[id].elems[0].m) else None
  }

  function StringAt(m: map<int, Value>, id: int): Option<string> {
    if id in m && m[id].Leaf? && m[id].v.Str? then Some(m[id].v.s) else None
  }

  function FlagAt(m: map<int, Value>, id: int): Option<bool> {
    if id in m && m[id].Leaf? && m[id].v.Bool? then Some(m[id].v.b) else None
  }

  /** Decodes and reads the struct at the front of `bytes`: its value and its length. */
  function ReadStruct(codec: Codec, fields: Fields, bytes: seq<byte>): Option<(map<int, Value>, nat)> {
    match codec.decode(bytes)
    case None => None
    case Some((ts, len)) =>
      match ReadValue(TStruct(fields), None, ts)
      case Ok(Struct(m), rest) => if rest == [] && len <= |bytes| then Some((m, len)) else None
      case _ => None
  }

  // The numbers of the format that matter here.

  const MAGIC: seq<byte> := [0x50, 0x41, 0x52, 0x31]  // "PAR1"
  const DATA_PAGE_V2 := 3
  const PLAIN := 0
  const REQUIRED := 0

  // Pages.

  /** What a page header says: sizes, values, and whether the page is packed. */
  datatype PageFacts = PageFacts(compressedSize: int, uncompressedSize: int, numValues: int, packed: bool)

  /** Of a version 2 data page of plain values without nulls or levels; a page
      that does not say so counts as packed. */
  function ReadPageHeader(header: map<int, Value>): Option<PageFacts> {
    var c, u, v2 := IntAt(header, 3), IntAt(header, 2), StructAt(header, 8);
    if IntAt(header, 1) != Some(DATA_PAGE_V2) || c == None || u == None || v2 == None || c.value < 0 then None
    else
      var n := IntAt(v2.value, 1);
      if n == None || IntAt(v2.value, 2) != Some(0) || IntAt(v2.value, 3) != n || IntAt(v2.value, 4) != Some(PLAIN) ||
         IntAt(v2.value, 5) != Some(0) || IntAt(v2.value, 6) != Some(0)
      then None
      else Some(PageFacts(c.value, u.value, n.value, FlagAt(v2.value, 7) != Some(false)))
  }

  datatype PageRead = PageRead(headerSize: nat, block: seq<byte>, uncompressedSize: int, numValues: int, packed: bool)

  /** The pages in the first `left` bytes of `rest`: after each header skip as
      many bytes as it says its page has. */
  function ReadPages(codec: Codec, rest: seq<byte>, left: nat): Option<seq<PageRead>>
    decreases left
  {
    if left == 0 then Some([])
    else
      match ReadStruct(codec, PageHeaderFields(), rest)
      case None => None
      case Some((header, len)) =>
        match ReadPageHeader(header)
        case None => None
        case Some(facts) =>
          var step := len + facts.compressedSize;
          if facts.compressedSize < 0 || step == 0 || step > left || step > |rest| then None
          else
            match ReadPages(codec, rest[step..], left - step)
            case None => None
            case Some(pages) =>
              Some([PageRead(len, rest[len..step], facts.uncompressedSize, facts.numValues, facts.packed)] + pages)
  }

  // The schema.

  /** A schema is a tree, listed depth first: a group says how many of the
      following trees are its children, a leaf has a physical type. */
  datatype Schema =
    | SchemaGroup(name: string, children: seq<Schema>)
    | SchemaLeaf(name: string, physicalType: int, converted: Option<int>)

  /** The tree at the front of a list, if everything in it is required. */
  function ReadSchema(elems: seq<Value>): (r: Option<(Schema, seq<Value>)>)
    ensures r.Some? ==> |r.value.1| < |elems|
    decreases |elems|, 0
  {
    if elems == [] || !elems[0].Struct? then None
    else
      var m := elems[0].m;
      var name, physicalType, children := StringAt(m, 4), IntAt(m, 1), IntAt(m, 5);
      if name == None || IntAt(m, 3) != Some(REQUIRED) then None
      else if children == None then
        if physicalType == None then None
        else Some((SchemaLeaf(name.value, physicalType.value, IntAt(m, 6)), elems[1..]))
      else if physicalType != None || children.value < 0 then None
      else
        match ReadChildren(children.value, elems[1..])
        case None => None
        case Some((nodes, rest)) => Some((SchemaGroup(name.value, nodes), rest))
  }

  function ReadChildren(count: nat, elems: seq<Value>): (r: Option<(seq<Schema>, seq<Value>)>)
    ensures r.Some? ==> |r.value.1| <= |elems|
    decreases |elems|, 1
  {
    if count == 0 then Some(([], elems))
    else
      match ReadSchema(elems)
      case None => None
      case Some((node, rest)) =>
        match ReadChildren(count - 1, rest)
        case None => None
        case Some((nodes, more)) => Some(([node] + nodes, more))
  }

  /** The whole list is one tree. */
  function SchemaAt(m: map<int, Value>, id: int): Option<Schema> {
    if id !in m || !m[id].Items? then None
    else
      match ReadSchema(m[id].elems)
      case None => None
      case Some((tree, rest)) => if rest == [] then Some(tree) else None
  }

  /** What kind of values a leaf has: physical type, and how to take it. */
  function TypeRead(physicalType: int, converted: Option<int>): DataType {
    match (physicalType, converted)
    case (1, Some(15)) => INT8
    case (1, Some(11)) => UINT8
    case (1, Some(17)) => INT32
    case (1, Some(13)) => UINT32
    case (2, Some(18)) => INT64
    case (2, Some(14)) => UINT64
    case (4, None) => FLOAT32
    case (5, None) => FLOAT64
    case _ => UNKNOWN
  }

  function CompressionRead(codec: int): CompressionType {
    match codec
    case 0 => NONE
    case 2 => ZLIB  // GZIP, whose readers take zlib streams, too
    case 7 => LZ4   // LZ4_RAW
    case _ => UNKNOWN_COMPRESSION
  }

  // The footer.

  /** What the footer says of the one column: its name, how its values are to be
      taken and its pages unpacked, how many values and nulls it has, and its
      total sizes. */
  datatype ColumnRead = ColumnRead(
    name: string, physicalType: int, t: DataType, compression: CompressionType,
    numValues: int, nullCount: Option<int>, totalCompressed: int, totalUncompressed: int)

  /** What a reader gets out of a file: its pages, the column under the root of
      the schema, the rows the footer promises, and where the pages end and the
      footer begins. */
  datatype Table = Table(
    version: int, root: string, pages: seq<PageRead>, column: ColumnRead, numRows: int, pagesEnd: int, footerStart: int)

  /** Footer length and mark come last, the footer before them; the footer says
      where the pages start and how many bytes they take. */
  function ReadTable(codec: Codec, file: seq<byte>): Option<Table> {
    var n := |file|;
    if n < 12 || file[..4] != MAGIC || file[n - 4..] != MAGIC then None
    else
      var footerSize := FromLE(file[n - 8..n - 4]);
      if footerSize > n - 12 then None
      else
        var footerStart := n - 8 - footerSize;
        match ReadStruct(codec, FileMetaDataFields(), file[footerStart..n - 8])
        case None => None
        case Some((meta, len)) => if len != footerSize then None else ReadPagesOf(codec, file, meta, footerStart)
  }

  /** The column chunk: plain values under the path of the leaf. */
  function ReadChunk(name: string, physicalType: int, converted: Option<int>, c: map<int, Value>)
    : Option<(ColumnRead, int)>
  {
    var codec, numValues := IntAt(c, 4), IntAt(c, 5);
    var uncompressed, compressed, start := IntAt(c, 6), IntAt(c, 7), IntAt(c, 9);
    if codec == None || numValues == None || uncompressed == None || compressed == None || start == None then None
    else if IntAt(c, 1) != Some(physicalType) then None
    else if 2 !in c || c[2] != Items([N32(PLAIN)]) || 3 !in c || c[3] != Items([Leaf(Str(name))]) then None
    else
      var nullCount := if StructAt(c, 12) == None then None else IntAt(StructAt(c, 12).value, 3);
      var column := ColumnRead(name, physicalType, TypeRead(physicalType, converted), CompressionRead(codec.value),
                               numValues.value, nullCount, compressed.value, uncompressed.value);
      Some((column, start.value))
  }

  predicate OneColumn(schema: Schema) {
    schema.SchemaGroup? && |schema.children| == 1 && schema.children[0].SchemaLeaf?
  }

  /** The one column under the root of the schema, in the one row group, which has
      to agree with it about sizes, count and place. */
  function ReadColumn(meta: map<int, Value>): Option<(string, ColumnRead, int)> {
    var schema, group := SchemaAt(meta, 2), OnlyAt(meta, 4);
    if schema == None || group == None || !OneColumn(schema.value) then None
    else
      var root, leaf, chunk := schema.value.name, schema.value.children[0], OnlyAt(group.value, 1);
      if chunk == None || IntAt(chunk.value, 2) != Some(0) || StructAt(chunk.value, 3) == None then None
      else
        match ReadChunk(leaf.name, leaf.physicalType, leaf.converted, StructAt(chunk.value, 3).value)
        case None => None
        case Some((column, start)) =>
          if IntAt(group.value, 2) != Some(column.totalUncompressed) ||
             IntAt(group.value, 3) != Some(column.numValues) || IntAt(group.value, 5) != Some(start) ||
             IntAt(group.value, 6) != Some(column.totalCompressed)
          then None
          else Some((root, column, start))
  }

  function ReadPagesOf(codec: Codec, file: seq<byte>, meta: map<int, Value>, footerStart: nat): Option<Table> {
    match ReadColumn(meta)
    case None => None
    case Some((root, column, start)) =>
      var version, rows := IntAt(meta, 1), IntAt(meta, 3);
      if version == None || rows == None || start < 0 || start > |file| || column.totalCompressed < 0 then None
      else
        match ReadPages(codec, file[start..], column.totalCompressed)
        case None => None
        case Some(pages) =>
          Some(Table(version.value, root, pages, column, rows.value, start + column.totalCompressed, footerStart))
  }

  /** The pages that were put in. */
  function PagesOf(f: Format, us: seq<nat>, blocks: seq<seq<byte>>): (pages: seq<PageRead>)
    requires Usable(f) && |us| == |blocks|
    ensures |pages| == |blocks|
  {
    seq(|blocks|, i requires 0 <= i < |blocks| =>
      PageRead(|Header(f, |blocks[i]|, us[i])|, blocks[i], us[i], us[i] / ValueSize(f.t), true))
  }

  // What the pages add up to.

  function RowsOn(pages: seq<PageRead>): int {
    if pages == [] then 0 else RowsOn(pages[..|pages| - 1]) + pages[|pages| - 1].numValues
  }

  /** Bytes that the pages take in the file. */
  function StoredOn(pages: seq<PageRead>): int {
    if pages == [] then 0
    else
      var last := pages[|pages| - 1];
      StoredOn(pages[..|pages| - 1]) + (last.headerSize + |last.block|)
  }

  /** Bytes that the pages would take without compression. */
  function UnpackedOn(pages: seq<PageRead>): int {
    if pages == [] then 0
    else
      var last := pages[|pages| - 1];
      UnpackedOn(pages[..|pages| - 1]) + (last.headerSize + last.uncompressedSize)
  }

  /** A struct that comes back exactly is read back from its bytes. */
  lemma ReadStructBack(codec: Codec, fields: Fields, m: map<int, Value>, more: seq<byte>)
    requires SelfDelimiting(codec) && TyOk(TStruct(fields)) && Exact(TStruct(fields), Struct(m))
    ensures var bytes := codec.encode(WriteFields(fields, m, 1));
            ReadStruct(codec, fields, bytes + more) == Some((m, |bytes|))
  {
    hide TyOk, HasType, Covers, ReadValue, WriteFields, ToItems, FlattenItems, WellFormed;
    var ty, v, ts := TStruct(fields), Struct(m), WriteFields(fields, m, 1);
    RoundTripExact(ty, v, []);
    WriteIsFlatten(ty, v);
    StructTokens(fields, m);
    assert ts + [] == ts;
    assert codec.decode(codec.encode(FlattenItems(ToItems(fields, m, 1))) + more) == Some((ts, |codec.encode(ts)|));
  }

  lemma StructTokens(fields: Fields, m: map<int, Value>)
    requires HasType(TStruct(fields), Struct(m))
    ensures Write(TStruct(fields), Struct(m)) == WriteFields(fields, m, 1) == FlattenItems(ToItems(fields, m, 1))
    ensures ToWire(TStruct(fields), Struct(m)) == Group(ToItems(fields, m, 1))
  {
    WriteIsFlatten(TStruct(fields), Struct(m));
  }

  /** A self-delimiting codec spends at least one byte on a struct with fields,
      or it could not tell it from a struct without any. */
  lemma NotEmpty(codec: Codec, items: seq<Item>)
    requires SelfDelimiting(codec) && items != [] && WellFormed(Group(items))
    ensures codec.encode(FlattenItems(items)) != []
  {
    var ts, none := FlattenItems(items), FlattenItems([]);
    var other := codec.encode(none);
    assert WellFormed(Group([]));
    assert codec.decode(codec.encode(none) + []) == Some((none, |other|));
    assert codec.decode(codec.encode(ts) + other) == Some((ts, |codec.encode(ts)|));
    assert ts[0] == FieldBegin(TypeOf(items[0].w), items[0].id) && none[0] == FieldStop;
    assert codec.encode(ts) == [] ==> codec.encode(ts) + other == other + [];
  }

  lemma HeaderReadsBack(f: Format, c: nat, u: nat, more: seq<byte>)
    requires SelfDelimiting(f.codec) && Usable(f) && c < TWO31 && u < TWO31
    ensures Header(f, c, u) != []
    ensures ReadStruct(f.codec, PageHeaderFields(), Header(f, c, u) + more)
            == Some((PageHeaderOf(c, u, u / ValueSize(f.t)), |Header(f, c, u)|))
  {
    hide PageHeaderOf, ReadStruct, FlattenItems, TyOk, Exact, WriteFields;
    var m := PageHeaderOf(c, u, u / ValueSize(f.t));
    PageHeaderOk();
    PageHeaderExact(c, u, u / ValueSize(f.t));
    ReadStructBack(f.codec, PageHeaderFields(), m, more);
    HeaderHasFields(f, c, u);
    NotEmpty(f.codec, ToItems(PageHeaderFields(), m, 1));
  }

  lemma HeaderHasFields(f: Format, c: nat, u: nat)
    requires Usable(f) && c < TWO31 && u < TWO31
    ensures var m, fields := PageHeaderOf(c, u, u / ValueSize(f.t)), PageHeaderFields();
            && ToItems(fields, m, 1) != [] && WellFormed(Group(ToItems(fields, m, 1)))
            && WriteFields(fields, m, 1) == FlattenItems(ToItems(fields, m, 1))
  {
    hide WriteFields, FlattenItems, WellFormed, HasType, DataPageHeaderV2Fields, DataPageHeaderV2Of;
    var m, fields := PageHeaderOf(c, u, u / ValueSize(f.t)), PageHeaderFields();
    PageHeaderExact(c, u, u / ValueSize(f.t));
    StructTokens(fields, m);
    WriteIsFlatten(TStruct(fields), Struct(m));
    assert 1 in fields && 1 in m;
  }

  // Pages front to back.

  lemma {:induction false} FirstPage(f: Format, us: seq<nat>, blocks: seq<seq<byte>>)
    requires Usable(f) && |us| == |blocks| > 0
    ensures PageBytes(f, us, blocks)
            == Header(f, |blocks[0]|, us[0]) + (blocks[0] + PageBytes(f, us[1..], blocks[1..]))
    decreases |blocks|
  {
    hide Header;
    var n := |blocks| - 1;
    var head, page := Header(f, |blocks[0]|, us[0]), Header(f, |blocks[n]|, us[n]) + blocks[n];
    if n == 0 {
      assert us[1..] == [] && blocks[1..] == [] && us[..n] == [] && blocks[..n] == [];
      assert [] + page == page && blocks[0] + [] == blocks[0];
    } else {
      FirstPage(f, us[..n], blocks[..n]);
      assert us[..n][1..] == us[1..][..n - 1] && blocks[..n][1..] == blocks[1..][..n - 1];
      var middle := PageBytes(f, us[1..][..n - 1], blocks[1..][..n - 1]);
      Associative(head, blocks[0] + middle, page);
      Associative(blocks[0], middle, page);
    }
  }

  lemma {:induction false} PagesReadBack(f: Format, us: seq<nat>, blocks: seq<seq<byte>>, more: seq<byte>)
    requires SelfDelimiting(f.codec) && Usable(f) && |us| == |blocks|
    requires forall i :: 0 <= i < |blocks| ==> |blocks[i]| < TWO31 && us[i] < TWO31
    ensures ReadPages(f.codec, PageBytes(f, us, blocks) + more, |PageBytes(f, us, blocks)|)
            == Some(PagesOf(f, us, blocks))
    decreases |blocks|
  {
    hide Header, ReadStruct, PageBytes, ReadPages, PagesOf, ValueSize, PageHeaderOf;
    if blocks == [] {
      NoPageBytes(f, us, blocks);
      NoPagesRead(f, more);
    } else {
      var c, u := |blocks[0]|, us[0];
      var head, tail := Header(f, c, u), PageBytes(f, us[1..], blocks[1..]);
      FirstPage(f, us, blocks);
      HeaderReadsBack(f, c, u, blocks[0] + tail + more);
      var bytes := PageBytes(f, us, blocks) + more;
      Associative(head, blocks[0] + tail, more);
      OnePageRead(f, bytes, |head| + c + |tail|, c, u, blocks[0], tail + more);
      PagesReadBack(f, us[1..], blocks[1..], more);
      FirstOfPages(f, us, blocks);
    }
  }

  lemma NoPagesRead(f: Format, more: seq<byte>)
    requires Usable(f)
    ensures ReadPages(f.codec, [] + more, 0) == Some(PagesOf(f, [], []))
  {
  }

  lemma FirstOfPages(f: Format, us: seq<nat>, blocks: seq<seq<byte>>)
    requires Usable(f) && |us| == |blocks| > 0
    ensures PagesOf(f, us, blocks) ==
            [PageRead(|Header(f, |blocks[0]|, us[0])|, blocks[0], us[0], us[0] / ValueSize(f.t), true)]
            + PagesOf(f, us[1..], blocks[1..])
  {
    hide ValueSize, Header;
  }

  lemma NoPageBytes(f: Format, us: seq<nat>, blocks: seq<seq<byte>>)
    requires Usable(f) && us == [] && blocks == []
    ensures PageBytes(f, us, blocks) == []
  {
  }

  lemma OnePageRead(f: Format, bytes: seq<byte>, left: nat, c: nat, u: nat, block: seq<byte>, more: seq<byte>)
    requires Usable(f) && c == |block| && Header(f, c, u) != [] && |Header(f, c, u)| + c <= left
    requires bytes == Header(f, c, u) + (block + more)
    requires ReadStruct(f.codec, PageHeaderFields(), bytes)
             == Some((PageHeaderOf(c, u, u / ValueSize(f.t)), |Header(f, c, u)|))
    ensures ReadPages(f.codec, bytes, left) ==
            match ReadPages(f.codec, more, left - |Header(f, c, u)| - c)
            case None => None
            case Some(pages) => Some([PageRead(|Header(f, c, u)|, block, u, u / ValueSize(f.t), true)] + pages)
  {
    hide Header, ReadStruct, PageHeaderFields, ValueSize, ReadPageHeader, PageHeaderOf;
    PageHeaderSays(c, u, u / ValueSize(f.t));
    var len := |Header(f, c, u)|;
    assert bytes[len..len + c] == block && bytes[len + c..] == more;
  }

  lemma PageHeaderSays(c: nat, u: nat, n: int)
    ensures ReadPageHeader(PageHeaderOf(c, u, n)) == Some(PageFacts(c, u, n, true))
  {
    var m, v2 := PageHeaderOf(c, u, n), DataPageHeaderV2Of(n);
    assert StructAt(m, 8) == Some(v2);
    assert IntAt(v2, 1) == IntAt(v2, 3) == Some(n);
  }

  // The whole file.

  /** Where things are in the file. */
  lemma Anatomy(f: Format, us: seq<nat>, blocks: seq<seq<byte>>)
    requires Usable(f) && |us| == |blocks|
    ensures var footer, pages := Footer(f, Sizes(blocks), us), PageBytes(f, us, blocks);
            var file := ParquetFile(f, us, blocks);
            var n, at := |file|, 4 + |pages|;
            && n == at + |footer| + 8
            && file[..4] == PAR1 && file[n - 4..] == PAR1
            && file[n - 8..n - 4] == LE(|footer|, 4)
            && file[at..n - 8] == footer
            && file[4..] == pages + (footer + LE(|footer|, 4) + PAR1)
  {
    hide PageBytes, Footer, LE;
    var footer, pages := Footer(f, Sizes(blocks), us), PageBytes(f, us, blocks);
    Layers(PAR1, pages, footer, LE(|footer|, 4), PAR1);
  }

  lemma Layers(a: seq<byte>, b: seq<byte>, c: seq<byte>, d: seq<byte>, e: seq<byte>)
    ensures var s := a + b + (c + d + e);
            var n, at := |s|, |a| + |b|;
            && s[..|a|] == a && s[|a|..] == b + (c + d + e)
            && s[at..at + |c|] == c && s[at + |c|..n - |e|] == d && s[n - |e|..] == e
  {
    var s, at := a + b + (c + d + e), |a| + |b|;
    assert s[..|a|] == a && s[|a|..] == b + (c + d + e);
    assert s[at..] == c + d + e;
    assert s[at..at + |c|] == c;
    assert s[at + |c|..|s| - |e|] == d;
    assert s[|s| - |e|..] == e;
  }

  lemma FooterReadsBack(f: Format, cs: seq<nat>, us: seq<nat>)
    requires SelfDelimiting(f.codec) && Fits(f, cs, us)
    ensures ReadStruct(f.codec, FileMetaDataFields(), Footer(f, cs, us))
            == Some((FileMetaDataOf(FooterColumn(f, cs, us)), |Footer(f, cs, us)|))
  {
    hide TyOk, Exact, FileMetaDataFields, FileMetaDataOf, WriteFields, Header, Headers, Sum, Count, ReadStruct;
    var c := FooterColumn(f, cs, us);
    Bounds(f, cs, us, |cs|);
    assert cs[..|cs|] == cs && us[..|us|] == us;
    FileMetaDataOk();
    FileMetaDataExact(c);
    ReadStructBack(f.codec, FileMetaDataFields(), FileMetaDataOf(c), []);
    assert Footer(f, cs, us) + [] == Footer(f, cs, us);
  }

  /** What the reader takes from the footer's objects: one required column of
      plain values under the root, of the array's own type and codec. */
  lemma FooterSays(c: Column)
    requires Supported(c)
    ensures IntAt(FileMetaDataOf(c), 1) == Some(2) && IntAt(FileMetaDataOf(c), 3) == Some(c.count)
    ensures ReadColumn(FileMetaDataOf(c)) ==
            Some(("vtkfile",
                  ColumnRead(c.name, ToParquetType(c.t), c.t, c.compression, c.count, Some(0), c.totalCompressed,
                             c.totalUncompressed),
                  4))
  {
    hide FileMetaDataOf, RowGroupOf, ColumnChunkOf, ColumnMetaDataOf, OnlyAt, StructAt, IntAt, ToParquetType, SchemaAt,
      ReadChunk;
    OuterStructs(c);
    SchemaSays(c);
    RowGroupNumbers(c);
    ChunkSays(c);
  }

  lemma OuterStructs(c: Column)
    requires Supported(c)
    ensures IntAt(FileMetaDataOf(c), 1) == Some(2) && IntAt(FileMetaDataOf(c), 3) == Some(c.count)
    ensures OnlyAt(FileMetaDataOf(c), 4) == Some(RowGroupOf(c))
    ensures OnlyAt(RowGroupOf(c), 1) == Some(ColumnChunkOf(c))
    ensures IntAt(ColumnChunkOf(c), 2) == Some(0) && StructAt(ColumnChunkOf(c), 3) == Some(ColumnMetaDataOf(c))
  {
    hide ColumnElement, ColumnMetaDataOf, GroupElement;
  }

  lemma SchemaSays(c: Column)
    requires Supported(c)
    ensures SchemaAt(FileMetaDataOf(c), 2) ==
            Some(SchemaGroup("vtkfile", [SchemaLeaf(c.name, ToParquetType(c.t), ToParquetConvertedType(c.t))]))
  {
    hide RowGroupOf, ToParquetType, ToParquetConvertedType, GroupElement, ColumnElement, ReadSchema, ReadChildren;
    var root, leaf := Struct(GroupElement()), Struct(ColumnElement(c));
    assert FileMetaDataOf(c)[2] == Items([root, leaf]) && [root, leaf] == [root] + [leaf];
    LeafSays(c);
    OneChild([leaf], []);
    RootSays([leaf], []);
  }

  lemma LeafSays(c: Column)
    requires Supported(c)
    ensures ReadSchema([Struct(ColumnElement(c))])
            == Some((SchemaLeaf(c.name, ToParquetType(c.t), ToParquetConvertedType(c.t)), []))
  {
    hide ToParquetType;
    var m := ColumnElement(c);
    assert StringAt(m, 4) == Some(c.name) && IntAt(m, 1) == Some(ToParquetType(c.t)) && IntAt(m, 3) == Some(0);
    assert IntAt(m, 5) == None && IntAt(m, 6) == ToParquetConvertedType(c.t);
    assert [Struct(m)][1..] == [];
  }

  lemma OneChild(elems: seq<Value>, rest: seq<Value>)
    requires ReadSchema(elems).Some? && ReadSchema(elems).value.1 == rest
    ensures ReadChildren(1, elems) == Some(([ReadSchema(elems).value.0], rest))
  {
    hide ReadSchema;
    var node := ReadSchema(elems).value.0;
    assert ReadChildren(0, rest) == Some(([], rest));
    assert [node] + [] == [node];
  }

  lemma RootSays(below: seq<Value>, rest: seq<Value>)
    requires ReadChildren(1, below).Some? && ReadChildren(1, below).value.1 == rest
    ensures ReadSchema([Struct(GroupElement())] + below)
            == Some((SchemaGroup("vtkfile", ReadChildren(1, below).value.0), rest))
  {
    hide ReadChildren;
    var m := GroupElement();
    assert StringAt(m, 4) == Some("vtkfile") && IntAt(m, 1) == None && IntAt(m, 3) == Some(0) && IntAt(m, 5) == Some(1);
    assert ([Struct(m)] + below)[1..] == below;
  }

  lemma RowGroupNumbers(c: Column)
    requires Supported(c)
    ensures var group := RowGroupOf(c);
            && IntAt(group, 2) == Some(c.totalUncompressed) && IntAt(group, 3) == Some(c.count)
            && IntAt(group, 5) == Some(4) && IntAt(group, 6) == Some(c.totalCompressed)
  {
    hide ColumnChunkOf;
  }

  lemma ChunkSays(c: Column)
    requires Supported(c)
    ensures ReadChunk(c.name, ToParquetType(c.t), ToParquetConvertedType(c.t), ColumnMetaDataOf(c)) ==
            Some((ColumnRead(c.name, ToParquetType(c.t), c.t, c.compression, c.count, Some(0), c.totalCompressed,
                             c.totalUncompressed), 4))
  {
    hide ToParquetType, ToParquetConvertedType, ToParquetCodec, TypeRead, CompressionRead, IntAt, StructAt,
      ColumnMetaDataOf;
    ColumnNumbers(c);
    TypeReadsBack(c.t);
    CompressionReadsBack(c.compression);
  }

  lemma ColumnNumbers(c: Column)
    requires Supported(c)
    ensures var m := ColumnMetaDataOf(c);
            && IntAt(m, 1) == Some(ToParquetType(c.t)) && IntAt(m, 4) == Some(ToParquetCodec(c.compression))
            && 2 in m && m[2] == Items([N32(0)]) && 3 in m && m[3] == Items([Leaf(Str(c.name))])
            && IntAt(m, 5) == Some(c.count) && IntAt(m, 6) == Some(c.totalUncompressed)
            && IntAt(m, 7) == Some(c.totalCompressed) && IntAt(m, 9) == Some(4)
            && StructAt(m, 12).Some? && IntAt(StructAt(m, 12).value, 3) == Some(0)
  {
    hide ToParquetType, ToParquetCodec;
  }

  /** A reader takes the values for what they are in the VTK file. */
  lemma TypeReadsBack(t: DataType)
    requires t != UNKNOWN
    ensures TypeRead(ToParquetType(t), ToParquetConvertedType(t)) == t
  {
  }

  lemma CompressionReadsBack(c: CompressionType)
    requires c != UNKNOWN_COMPRESSION
    ensures CompressionRead(ToParquetCodec(c)) == c
  {
  }

  /** The footer's totals are those of the pages. */
  lemma {:induction false} PagesAddUp(f: Format, us: seq<nat>, blocks: seq<seq<byte>>)
    requires Usable(f) && |us| == |blocks|
    ensures var pages, c := PagesOf(f, us, blocks), FooterColumn(f, Sizes(blocks), us);
            RowsOn(pages) == c.count && StoredOn(pages) == c.totalCompressed && UnpackedOn(pages) == c.totalUncompressed
    decreases |us|
  {
    hide ValueSize, Header;
    if us != [] {
      var n := |us| - 1;
      PagesAddUp(f, us[..n], blocks[..n]);
      assert PagesOf(f, us, blocks)[..n] == PagesOf(f, us[..n], blocks[..n]);
      assert Sizes(blocks)[..n] == Sizes(blocks[..n]);
    }
  }

  /** Reading the virtual file gives back exactly the blocks it was made of, one
      page each, and ends the pages right where the footer begins. The schema is
      one column under a root, with the name, type and codec of the array, and
      every total in the footer is what the pages add up to. */
  lemma TableReadsBack(f: Format, us: seq<nat>, blocks: seq<seq<byte>>)
    requires SelfDelimiting(f.codec) && Fits(f, Sizes(blocks), us)
    ensures var end, pages := 4 + |PageBytes(f, us, blocks)|, PagesOf(f, us, blocks);
            var column := ColumnRead(f.name, ToParquetType(f.t), f.t, f.compression, RowsOn(pages), Some(0),
                                     StoredOn(pages), UnpackedOn(pages));
            ReadTable(f.codec, ParquetFile(f, us, blocks))
            == Some(Table(2, "vtkfile", pages, column, RowsOn(pages), end, end))
  {
    hide PageBytes, Footer, LE, FromLE, ReadStruct, ReadPages, ReadColumn, Header, ParquetFile, FileMetaDataOf,
      FileMetaDataFields, PagesOf, RowsOn, StoredOn, UnpackedOn, Headers, Sum, Count, ToParquetType;
    var cs := Sizes(blocks);
    var c, footer, pages := FooterColumn(f, cs, us), Footer(f, cs, us), PageBytes(f, us, blocks);
    Anatomy(f, us, blocks);
    Pow256Values();
    LERoundTrip(|footer|, 4);
    FooterReadsBack(f, cs, us);
    FooterSays(c);
    PageBytesLength(f, us, blocks);
    BlocksFit(f, us, blocks);
    PagesReadBack(f, us, blocks, footer + LE(|footer|, 4) + PAR1);
    PagesAddUp(f, us, blocks);
  }

  lemma BlocksFit(f: Format, us: seq<nat>, blocks: seq<seq<byte>>)
    requires Fits(f, Sizes(blocks), us)
    ensures forall i :: 0 <= i < |blocks| ==> |blocks[i]| < TWO31 && us[i] < TWO31
  {
    forall i | 0 <= i < |blocks| ensures |blocks[i]| < TWO31 && us[i] < TWO31 {
      assert Sizes(blocks)[i] == |blocks[i]|;
    }
  }

  /** Bytes of one plainly encoded value of a physical type. */
  function PlainWidth(physicalType: int): Option<nat> {
    match physicalType
    case 1 | 4 => Some(4)
    case 2 | 5 => Some(8)
    case _ => None
  }

  /** Every page is as long as its values, plainly encoded, are. */
  predicate PlainSized(table: Table) {
    var width := PlainWidth(table.column.physicalType);
    && width.Some?
    && forall i :: 0 <= i < |table.pages| ==>
         table.pages[i].numValues * width.value == table.pages[i].uncompressedSize
  }

  /** Pages of whole values that are not single bytes; an empty page is one of any type. */
  predicate WholeValues(t: DataType, us: seq<nat>)
    requires t != UNKNOWN
  {
    forall i :: 0 <= i < |us| ==> us[i] == 0 || (t != INT8 && t != UINT8 && us[i] % ValueSize(t) == 0)
  }

  /** Arrays of single bytes are declared as 32-bit integers, which take four bytes each. */
  lemma PlainPageIff(t: DataType, u: nat)
    requires t != UNKNOWN
    ensures PlainWidth(ToParquetType(t)).Some?
    ensures u / ValueSize(t) * PlainWidth(ToParquetType(t)).value == u
            <==> u == 0 || (t != INT8 && t != UINT8 && u % ValueSize(t) == 0)
  {
    var v := ValueSize(t);
    assert u == v * (u / v) + u % v;
  }

  /** The pages of a table that was read back are as long as the values they
      promise if and only if they hold whole values of more than a byte. */
  lemma PlainPagesIff(f: Format, us: seq<nat>, blocks: seq<seq<byte>>, table: Table)
    requires Usable(f) && |us| == |blocks|
    requires table.pages == PagesOf(f, us, blocks) && table.column.physicalType == ToParquetType(f.t)
    ensures PlainSized(table) <==> WholeValues(f.t, us)
  {
    hide ToParquetType, ValueSize, PlainWidth, Header;
    PlainPageIff(f.t, 0);
    forall i | 0 <= i < |us|
      ensures table.pages[i].numValues * PlainWidth(table.column.physicalType).value == table.pages[i].uncompressedSize
              <==> us[i] == 0 || (f.t != INT8 && f.t != UINT8 && us[i] % ValueSize(f.t) == 0)
    {
      PlainPageIff(f.t, us[i]);
    }
  }

  /** For an uncompressed array that is: whole values of more than a byte. */
  lemma WholePagesIff(t: DataType, totalBytes: nat)
    requires t != UNKNOWN && totalBytes >= 1
    ensures WholeValues(t, PageSizes(totalBytes)) <==> t != INT8 && t != UINT8 && totalBytes % ValueSize(t) == 0
  {
    hide ValueSize;
    var n, last := (totalBytes + PAGE - 1) / PAGE, (totalBytes - 1) % PAGE + 1;
    PageGeometry(totalBytes);
    WholePages(t, n - 1, last);
    var us := PageSizes(totalBytes);
    assert us[n - 1] == last;
    assert forall i :: 0 <= i < n - 1 ==> us[i] == PAGE;
  }

  lemma WholePages(t: DataType, n: nat, last: nat)
    requires t != UNKNOWN
    ensures PAGE % ValueSize(t) == 0 && (n * PAGE + last) % ValueSize(t) == last % ValueSize(t)
  {
    hide GetValueSize;
    var v, k := ValueSize(t), n * 4096;
    var m := if v == 1 then 8 else if v == 4 then 2 else 1;
    assert n * PAGE == 8 * k && v * m == 8;
    Residue(v, m, k, last);
  }

  lemma Residue(v: nat, m: nat, k: nat, last: nat)
    requires v > 0 && v * m == 8
    ensures (8 * k + last) % v == last % v
  {
    var q, r := last / v, last % v;
    assert last == v * q + r;
    assert 8 * k == v * (m * k);
    assert v * (m * k + q) == v * (m * k) + v * q;
    Quotient(8 * k + last, v, m * k + q, r);
  }
}
