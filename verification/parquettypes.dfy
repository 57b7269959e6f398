/** The Parquet structs that the virtual file carries: their field tables
    (gen-cpp/parquet_types.cpp) and the objects that fmap.cc fills in. */
module ParquetTypes {
  import opened Bytes
  import opened Thrift
  import opened RoundTrip

  const BOOL := Prim(T_BOOL)
  const SHORT := Prim(T_I16)
  const INT := Prim(T_I32)
  const LONG := Prim(T_I64)
  const STRING := Prim(T_STRING)

  /** A required field; the constructor gives it a default. */
  function Req(ty: Ty, default: Value): Field {
    Field(ty, true, Some(default))
  }

  function Opt(ty: Ty): Field {
    Field(ty, false, None)
  }

  const ZERO32 := Leaf(I32(0))
  const ZERO64 := Leaf(I64(0))
  const NO_STRING := Leaf(Str(""))
  const NO_ITEMS := Items([])

  function StatisticsFields(): Fields {
    map[
      1 := Opt(STRING),  // max
      2 := Opt(STRING),  // min
      3 := Opt(LONG),    // null_count
      4 := Opt(LONG),    // distinct_count
      5 := Opt(STRING),  // max_value
      6 := Opt(STRING),  // min_value
      7 := Opt(BOOL),    // is_max_value_exact
      8 := Opt(BOOL)     // is_min_value_exact
    ]
  }

  function SchemaElementFields(): Fields {
    map[
      1 := Opt(INT),                // type
      2 := Opt(INT),                // type_length
      3 := Opt(INT),                // repetition_type
      4 := Req(STRING, NO_STRING),  // name
      5 := Opt(INT),                // num_children
      6 := Opt(INT),                // converted_type
      7 := Opt(INT),                // scale
      8 := Opt(INT),                // precision
      9 := Opt(INT)                 // field_id
    ]
  }

  function DataPageHeaderV2Fields(): Fields {
    map[
      1 := Req(INT, ZERO32),                            // num_values
      2 := Req(INT, ZERO32),                            // num_nulls
      3 := Req(INT, ZERO32),                            // num_rows
      4 := Req(INT, ZERO32),                            // encoding
      5 := Req(INT, ZERO32),                            // definition_levels_byte_length
      6 := Req(INT, ZERO32),                            // repetition_levels_byte_length
      7 := Field(BOOL, false, Some(Leaf(Bool(true)))),  // is_compressed, set in a new object
      8 := Opt(TStruct(StatisticsFields()))             // statistics
    ]
  }

  function PageHeaderFields(): Fields {
    map[
      1 := Req(INT, ZERO32),                        // type
      2 := Req(INT, ZERO32),                        // uncompressed_page_size
      3 := Req(INT, ZERO32),                        // compressed_page_size
      4 := Opt(INT),                                // crc
      8 := Opt(TStruct(DataPageHeaderV2Fields()))   // data_page_header_v2
    ]
  }

  function ColumnMetaDataFields(): Fields {
    map[
      1 := Req(INT, ZERO32),                   // type
      2 := Req(TList(INT), NO_ITEMS),          // encodings
      3 := Req(TList(STRING), NO_ITEMS),       // path_in_schema
      4 := Req(INT, ZERO32),                   // codec
      5 := Req(LONG, ZERO64),                  // num_values
      6 := Req(LONG, ZERO64),                  // total_uncompressed_size
      7 := Req(LONG, ZERO64),                  // total_compressed_size
      9 := Req(LONG, ZERO64),                  // data_page_offset
      10 := Opt(LONG),                         // index_page_offset
      11 := Opt(LONG),                         // dictionary_page_offset
      12 := Opt(TStruct(StatisticsFields())),  // statistics
      14 := Opt(LONG),                         // bloom_filter_offset
      15 := Opt(INT)                           // bloom_filter_length
    ]
  }

  function ColumnChunkFields(): Fields {
    map[
      1 := Opt(STRING),                           // file_path
      2 := Req(LONG, ZERO64),                     // file_offset
      3 := Opt(TStruct(ColumnMetaDataFields())),  // meta_data
      4 := Opt(LONG),                             // offset_index_offset
      5 := Opt(INT),                              // offset_index_length
      6 := Opt(LONG),                             // column_index_offset
      7 := Opt(INT),                              // column_index_length
      9 := Opt(STRING)                            // encrypted_column_metadata
    ]
  }

  function RowGroupFields(): Fields {
    map[
      1 := Req(TList(TStruct(ColumnChunkFields())), NO_ITEMS),  // columns
      2 := Req(LONG, ZERO64),                                   // total_byte_size
      3 := Req(LONG, ZERO64),                                   // num_rows
      5 := Opt(LONG),                                           // file_offset
      6 := Opt(LONG),                                           // total_compressed_size
      7 := Opt(SHORT)                                           // ordinal
    ]
  }

  function FileMetaDataFields(): Fields {
    map[
      1 := Req(INT, ZERO32),                                      // version
      2 := Req(TList(TStruct(SchemaElementFields())), NO_ITEMS),  // schema
      3 := Req(LONG, ZERO64),                                     // num_rows
      4 := Req(TList(TStruct(RowGroupFields())), NO_ITEMS),       // row_groups
      6 := Opt(STRING),                                           // created_by
      9 := Opt(STRING)                                            // footer_signing_key_metadata
    ]
  }

  // The tables in short.

  /** A field of a wire type that must come, that may come, or that may and
      counts as set if it does not. */
  datatype Entry = Must(t: TType) | May(t: TType) | Preset(t: TType)

  function EntryOf(f: Field): Entry {
    var t := WireType(f.ty);
    if f.required then Must(t) else if f.preset.Some? then Preset(t) else May(t)
  }

  function Shape(fields: Fields): map<int, Entry> {
    map id | id in fields :: EntryOf(fields[id])
  }

  lemma StatisticsShape()
    ensures Shape(StatisticsFields()) ==
            map[1 := May(T_STRING), 2 := May(T_STRING), 3 := May(T_I64), 4 := May(T_I64), 5 := May(T_STRING),
                6 := May(T_STRING), 7 := May(T_BOOL), 8 := May(T_BOOL)]
  {
  }

  lemma SchemaElementShape()
    ensures Shape(SchemaElementFields()) ==
            map[1 := May(T_I32), 2 := May(T_I32), 3 := May(T_I32), 4 := Must(T_STRING), 5 := May(T_I32),
                6 := May(T_I32), 7 := May(T_I32), 8 := May(T_I32), 9 := May(T_I32)]
  {
  }

  lemma DataPageHeaderV2Shape()
    ensures Shape(DataPageHeaderV2Fields()) ==
            map[1 := Must(T_I32), 2 := Must(T_I32), 3 := Must(T_I32), 4 := Must(T_I32), 5 := Must(T_I32),
                6 := Must(T_I32), 7 := Preset(T_BOOL), 8 := May(T_STRUCT)]
  {
    hide StatisticsFields;
  }

  lemma PageHeaderShape()
    ensures Shape(PageHeaderFields()) ==
            map[1 := Must(T_I32), 2 := Must(T_I32), 3 := Must(T_I32), 4 := May(T_I32), 8 := May(T_STRUCT)]
  {
    hide DataPageHeaderV2Fields;
  }

  lemma ColumnMetaDataShape()
    ensures Shape(ColumnMetaDataFields()) ==
            map[1 := Must(T_I32), 2 := Must(T_LIST), 3 := Must(T_LIST), 4 := Must(T_I32), 5 := Must(T_I64),
                6 := Must(T_I64), 7 := Must(T_I64), 9 := Must(T_I64), 10 := May(T_I64), 11 := May(T_I64),
                12 := May(T_STRUCT), 14 := May(T_I64), 15 := May(T_I32)]
  {
    hide StatisticsFields;
  }

  lemma ColumnChunkShape()
    ensures Shape(ColumnChunkFields()) ==
            map[1 := May(T_STRING), 2 := Must(T_I64), 3 := May(T_STRUCT), 4 := May(T_I64), 5 := May(T_I32),
                6 := May(T_I64), 7 := May(T_I32), 9 := May(T_STRING)]
  {
    hide ColumnMetaDataFields;
  }

  lemma RowGroupShape()
    ensures Shape(RowGroupFields()) ==
            map[1 := Must(T_LIST), 2 := Must(T_I64), 3 := Must(T_I64), 5 := May(T_I64), 6 := May(T_I64),
                7 := May(T_I16)]
  {
    hide ColumnChunkFields;
  }

  lemma FileMetaDataShape()
    ensures Shape(FileMetaDataFields()) ==
            map[1 := Must(T_I32), 2 := Must(T_LIST), 3 := Must(T_I64), 4 := Must(T_LIST), 6 := May(T_STRING),
                9 := May(T_STRING)]
  {
    hide SchemaElementFields, RowGroupFields;
  }

  lemma StatisticsOk()
    ensures TyOk(TStruct(StatisticsFields()))
  {
  }

  lemma SchemaElementOk()
    ensures TyOk(TStruct(SchemaElementFields()))
  {
  }

  lemma DataPageHeaderV2Ok()
    ensures TyOk(TStruct(DataPageHeaderV2Fields()))
  {
    hide StatisticsFields;
    StatisticsOk();
  }

  lemma PageHeaderOk()
    ensures TyOk(TStruct(PageHeaderFields()))
  {
    hide DataPageHeaderV2Fields;
    DataPageHeaderV2Ok();
  }

  lemma ColumnMetaDataOk()
    ensures TyOk(TStruct(ColumnMetaDataFields()))
  {
    hide StatisticsFields, TyOk;
    StatisticsOk();
    PlainOk();
    TableOk(ColumnMetaDataFields());
  }

  lemma PlainOk()
    ensures TyOk(INT) && TyOk(LONG) && TyOk(STRING) && TyOk(TList(INT)) && TyOk(TList(STRING))
  {
  }

  lemma TableOk(fields: Fields)
    requires forall id :: id in fields ==>
               && 1 <= id <= LAST_ID && TyOk(fields[id].ty)
               && (fields[id].preset.Some? ==> !fields[id].preset.value.Struct?)
    ensures TyOk(TStruct(fields))
  {
  }

  lemma ColumnChunkOk()
    ensures TyOk(TStruct(ColumnChunkFields()))
  {
    hide ColumnMetaDataFields;
    ColumnMetaDataOk();
  }

  lemma RowGroupOk()
    ensures TyOk(TStruct(RowGroupFields()))
  {
    hide ColumnChunkFields;
    ColumnChunkOk();
  }

  lemma FileMetaDataOk()
    ensures TyOk(TStruct(FileMetaDataFields()))
  {
    hide SchemaElementFields, RowGroupFields;
    SchemaElementOk();
    RowGroupOk();
  }

  // Array element types and codecs (arr.h:43-57) in Parquet's terms (fmap.cc:197-259).

  datatype DataType = INT8 | UINT8 | INT32 | UINT32 | INT64 | UINT64 | FLOAT32 | FLOAT64 | UNKNOWN

  datatype CompressionType = NONE | ZLIB | LZ4 | UNKNOWN_COMPRESSION

  /** Bytes per value; none for an unknown type. */
  function GetValueSize(t: DataType): (size: Option<nat>)
    ensures size.Some? <==> t != UNKNOWN
    ensures size.Some? ==> size.value == 1 || size.value == 4 || size.value == 8
    ensures size == Some(1) <==> t == INT8 || t == UINT8
    ensures size == Some(8) <==> t == INT64 || t == UINT64 || t == FLOAT64
  {
    match t
    case INT8 | UINT8 => Some(1)
    case INT32 | UINT32 | FLOAT32 => Some(4)
    case INT64 | UINT64 | FLOAT64 => Some(8)
    case UNKNOWN => None
  }

  function ToParquetType(t: DataType): int
    requires t != UNKNOWN
  {
    match t
    case INT8 | UINT8 | INT32 | UINT32 => 1
    case INT64 | UINT64 => 2
    case FLOAT32 => 4
    case FLOAT64 => 5
  }

  function ToParquetConvertedType(t: DataType): Option<int> {
    match t
    case UINT8 => Some(11)
    case UINT32 => Some(13)
    case UINT64 => Some(14)
    case INT8 => Some(15)
    case INT32 => Some(17)
    case INT64 => Some(18)
    case _ => None
  }

  function ToParquetCodec(c: CompressionType): int
    requires c != UNKNOWN_COMPRESSION
  {
    match c
    case NONE => 0
    case ZLIB => 2
    case LZ4 => 7
  }

  // The objects in the file.

  function N32(n: int): Value {
    Leaf(I32(n))
  }

  function N64(n: int): Value {
    Leaf(I64(n))
  }

  /** A version 2 data page of plain values: nothing is null, and the compression
      flag is always set (fmap.cc:175-186). */
  function DataPageHeaderV2Of(numValues: int): map<int, Value> {
    map[1 := N32(numValues), 2 := N32(0), 3 := N32(numValues), 4 := N32(0), 5 := N32(0), 6 := N32(0),
        7 := Leaf(Bool(true))]
  }

  function PageHeaderOf(compressedSize: int, uncompressedSize: int, numValues: int): map<int, Value> {
    map[1 := N32(3), 2 := N32(uncompressedSize), 3 := N32(compressedSize), 8 := Struct(DataPageHeaderV2Of(numValues))]
  }

  /** What the footer says about the one column of the file. */
  datatype Column = Column(
    name: string, t: DataType, compression: CompressionType,
    totalCompressed: int, totalUncompressed: int, count: int)

  predicate Supported(c: Column) {
    c.t != UNKNOWN && c.compression != UNKNOWN_COMPRESSION
  }

  const VTKFILE := "vtkfile"

  function GroupElement(): map<int, Value> {
    map[3 := N32(0), 4 := Leaf(Str(VTKFILE)), 5 := N32(1)]
  }

  function ColumnElement(c: Column): map<int, Value>
    requires Supported(c)
  {
    var plain := map[1 := N32(ToParquetType(c.t)), 3 := N32(0), 4 := Leaf(Str(c.name))];
    var conv := ToParquetConvertedType(c.t);
    if conv.Some? then plain[6 := N32(conv.value)] else plain
  }

  function ColumnMetaDataOf(c: Column): map<int, Value>
    requires Supported(c)
  {
    map[1 := N32(ToParquetType(c.t)), 2 := Items([N32(0)]), 3 := Items([Leaf(Str(c.name))]),
        4 := N32(ToParquetCodec(c.compression)), 5 := N64(c.count), 6 := N64(c.totalUncompressed),
        7 := N64(c.totalCompressed), 9 := N64(4), 12 := Struct(map[3 := N64(0)])]
  }

  function ColumnChunkOf(c: Column): map<int, Value>
    requires Supported(c)
  {
    map[2 := N64(0), 3 := Struct(ColumnMetaDataOf(c))]
  }

  function RowGroupOf(c: Column): map<int, Value>
    requires Supported(c)
  {
    map[1 := Items([Struct(ColumnChunkOf(c))]), 2 := N64(c.totalUncompressed), 3 := N64(c.count), 5 := N64(4),
        6 := N64(c.totalCompressed)]
  }

  function FileMetaDataOf(c: Column): map<int, Value>
    requires Supported(c)
  {
    map[1 := N32(2), 2 := Items([Struct(GroupElement()), Struct(ColumnElement(c))]), 3 := N64(c.count),
        4 := Items([Struct(RowGroupOf(c))])]
  }

  // These objects are well typed and leave no preset open, so they come back equal.

  lemma SmallNumbers()
    ensures forall n :: In32(n) ==> Exact(INT, N32(n))
    ensures forall n :: In64(n) ==> Exact(LONG, N64(n))
    ensures Exact(BOOL, Leaf(Bool(true)))
  {
  }

  lemma DataPageHeaderV2Exact(numValues: int)
    requires In32(numValues)
    ensures Exact(TStruct(DataPageHeaderV2Fields()), Struct(DataPageHeaderV2Of(numValues)))
  {
    hide StatisticsFields, Exact, N32;
    SmallNumbers();
    StructExact(DataPageHeaderV2Fields(), DataPageHeaderV2Of(numValues));
  }

  lemma PageHeaderExact(compressedSize: int, uncompressedSize: int, numValues: int)
    requires In32(compressedSize) && In32(uncompressedSize) && In32(numValues)
    ensures Exact(TStruct(PageHeaderFields()), Struct(PageHeaderOf(compressedSize, uncompressedSize, numValues)))
  {
    hide DataPageHeaderV2Fields, DataPageHeaderV2Of, Exact, N32;
    SmallNumbers();
    DataPageHeaderV2Exact(numValues);
    StructExact(PageHeaderFields(), PageHeaderOf(compressedSize, uncompressedSize, numValues));
  }

  lemma GroupElementExact()
    ensures Exact(TStruct(SchemaElementFields()), Struct(GroupElement()))
  {
    hide Exact, N32;
    SmallNumbers();
    ScalarExact(Str(VTKFILE));
    StructExact(SchemaElementFields(), GroupElement());
  }

  lemma ColumnElementExact(c: Column)
    requires Supported(c) && InBounds(c)
    ensures Exact(TStruct(SchemaElementFields()), Struct(ColumnElement(c)))
  {
    hide Exact, N32;
    SmallNumbers();
    ScalarExact(Str(c.name));
    StructExact(SchemaElementFields(), ColumnElement(c));
  }

  ghost predicate InBounds(c: Column) {
    IsText(c.name) && In64(c.totalCompressed) && In64(c.totalUncompressed) && In64(c.count)
  }

  lemma ColumnMetaDataExact(c: Column)
    requires Supported(c) && InBounds(c)
    ensures Exact(TStruct(ColumnMetaDataFields()), Struct(ColumnMetaDataOf(c)))
  {
    hide Exact, N32, N64, StatisticsFields;
    SmallNumbers();
    ScalarExact(Str(c.name));
    ListExact(INT, [N32(0)]);
    ListExact(STRING, [Leaf(Str(c.name))]);
    NullCountExact();
    StructExact(ColumnMetaDataFields(), ColumnMetaDataOf(c));
  }

  lemma NullCountExact()
    ensures Exact(TStruct(StatisticsFields()), Struct(map[3 := N64(0)]))
  {
    hide Exact, N64;
    SmallNumbers();
    StructExact(StatisticsFields(), map[3 := N64(0)]);
  }

  lemma ColumnChunkExact(c: Column)
    requires Supported(c) && InBounds(c)
    ensures Exact(TStruct(ColumnChunkFields()), Struct(ColumnChunkOf(c)))
  {
    hide ColumnMetaDataFields, ColumnMetaDataOf, Exact, N64;
    SmallNumbers();
    ColumnMetaDataExact(c);
    StructExact(ColumnChunkFields(), ColumnChunkOf(c));
  }

  lemma RowGroupExact(c: Column)
    requires Supported(c) && InBounds(c)
    ensures Exact(TStruct(RowGroupFields()), Struct(RowGroupOf(c)))
  {
    hide ColumnChunkFields, ColumnChunkOf, Exact, N64;
    SmallNumbers();
    ColumnChunkExact(c);
    ListExact(TStruct(ColumnChunkFields()), [Struct(ColumnChunkOf(c))]);
    StructExact(RowGroupFields(), RowGroupOf(c));
  }

  lemma FileMetaDataExact(c: Column)
    requires Supported(c) && InBounds(c)
    ensures Exact(TStruct(FileMetaDataFields()), Struct(FileMetaDataOf(c)))
  {
    hide RowGroupFields, RowGroupOf, SchemaElementFields, GroupElement, ColumnElement, Exact, N32, N64;
    SmallNumbers();
    RowGroupExact(c);
    ListExact(TStruct(RowGroupFields()), [Struct(RowGroupOf(c))]);
    GroupElementExact();
    ColumnElementExact(c);
    ListExact(TStruct(SchemaElementFields()), [Struct(GroupElement()), Struct(ColumnElement(c))]);
    StructExact(FileMetaDataFields(), FileMetaDataOf(c));
  }

  /** Small objects, token by token: a list says its element type and its length,
      a struct has a field mark with type and id before each value, and a stop mark. */
  lemma SmallTokens(n: int)
    ensures Write(LONG, N64(n)) == [Val(I64(n))]
    ensures Write(TList(INT), Items([N32(n)])) == [ListBegin(T_I32, 1), Val(I32(n))]
    ensures Write(TStruct(StatisticsFields()), Struct(map[3 := N64(n)]))
            == [FieldBegin(T_I64, 3), Val(I64(n)), FieldStop]
  {
    hide StatisticsFields, WriteFields;
    assert [N32(n)][1..] == [];
    NullCountField();
    OneFieldTokens(StatisticsFields(), 3, N64(n), 1);
    assert Write(LONG, N64(n)) == [Val(I64(n))];
  }

  lemma NullCountField()
    ensures 3 in StatisticsFields() && StatisticsFields()[3].ty == LONG
  {
  }

  lemma {:induction false} OneFieldTokens(fields: Fields, id: nat, v: Value, from: nat)
    requires id in fields && 1 <= id <= LAST_ID
    ensures WriteFields(fields, map[id := v], from) ==
            (if from <= id then [FieldBegin(WireType(fields[id].ty), id)] + Write(fields[id].ty, v) else [])
            + [FieldStop]
    decreases LAST_ID + 1 - from
  {
    hide Write;
    if from <= LAST_ID {
      OneFieldTokens(fields, id, v, from + 1);
    }
  }

  /** A page header read back from what was written is the same header, with
      nothing consumed beyond it. */
  lemma PageHeaderRoundTrip(compressedSize: int, uncompressedSize: int, numValues: int, rest: seq<Token>)
    requires In32(compressedSize) && In32(uncompressedSize) && In32(numValues)
    ensures var v := Struct(PageHeaderOf(compressedSize, uncompressedSize, numValues));
            ReadValue(TStruct(PageHeaderFields()), None, WriteFields(PageHeaderFields(), v.m, 1) + rest) == Ok(v, rest)
  {
    hide PageHeaderFields, PageHeaderOf, ReadValue, WriteFields;
    PageHeaderOk();
    PageHeaderExact(compressedSize, uncompressedSize, numValues);
    var v := Struct(PageHeaderOf(compressedSize, uncompressedSize, numValues));
    RoundTripExact(TStruct(PageHeaderFields()), v, rest);
  }

  /** The same for a whole footer: schema, row group, column chunk and all. */
  lemma FileMetaDataRoundTrip(c: Column, rest: seq<Token>)
    requires Supported(c) && InBounds(c)
    ensures ReadValue(TStruct(FileMetaDataFields()), None,
                      WriteFields(FileMetaDataFields(), FileMetaDataOf(c), 1) + rest)
            == Ok(Struct(FileMetaDataOf(c)), rest)
  {
    hide FileMetaDataFields, FileMetaDataOf, ReadValue, WriteFields;
    FileMetaDataOk();
    FileMetaDataExact(c);
    RoundTripExact(TStruct(FileMetaDataFields()), Struct(FileMetaDataOf(c)), rest);
  }

  /** The preset flag is why: a header whose `is_compressed` had been unset
      would come back with it set. */
  lemma UnsetFlagComesBackSet(numValues: int)
    requires In32(numValues)
    ensures var ty, unset := TStruct(DataPageHeaderV2Fields()), Struct(DataPageHeaderV2Of(numValues) - {7});
            && HasType(ty, unset)
            && var back := ReadValue(ty, None, Write(ty, unset));
               back.Ok? && back.rest == [] && back.value.Struct? && back.value != unset &&
               7 in back.value.m && back.value.m[7] == Leaf(Bool(true))
  {
    hide ReadValue, Write, TyOk, DataPageHeaderV2Of, StatisticsFields, Covers, HasType;
    DataPageHeaderV2Ok();
    DataPageHeaderV2Exact(numValues);
    var fields, unset := DataPageHeaderV2Fields(), Struct(DataPageHeaderV2Of(numValues) - {7});
    WithoutPreset(fields, DataPageHeaderV2Of(numValues), 7);
    WriteThenRead(TStruct(fields), unset, []);
    assert Write(TStruct(fields), unset) + [] == Write(TStruct(fields), unset);
    assert Fresh(fields)[7] == Leaf(Bool(true)) && 7 !in MergedFields(fields, unset.m);
  }
}
