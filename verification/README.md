# Virtual Parquet: the address map, proved

Virtual Parquet shows the arrays of a VTK file as Parquet files without copying
them. A virtual file is an *address map*: some of its regions are bytes held in
memory (page headers, the footer), the others are slices of the array data in
the VTK file, raw or in base64. This project models that map from the bytes of
the VTK file to the path a user opens, and proves that what is read through it
is the Parquet file that the array stands for.

How the files build on each other:

- `bytes`, `storage`, `base64`: bytes and machine integers; the underlying file,
  whose reads may be short or fail; random access into base64 text against
  decoding all of it (section 4 of RFC 4648).
- `regions`, `filemap`: what an address map stands for, `MapBuilder`, and
  `FileMap::Pread` against slicing the whole.
- `thrift`, `wiretree`, `roundtrip`, `protocol`: the generated `read` and `write`
  as token streams. The generated code repeats the same two loops for every
  struct; here they are given once, over a table of fields, and `parquettypes`
  holds one table for each struct that the program writes. Streams with unknown
  or reordered fields are trees.
- `layout`, `paging`, `buildmap`: the Parquet file as plain bytes and as regions,
  how arrays fall into pages, and both `BuildMap` overloads; `codec` is a codec
  that meets what is assumed of the library.
- `reader`: a Parquet reader, after the "File Format" section of the Apache
  Parquet format specification, and what it finds.
- `arrayheader`, `parser`, `endtoend`: array headers through either view,
  `ParseAppendedArray`, and the end-to-end theorems.
- `vfs`, `paths`, `vtkfiles`: directories, path resolution and listing, and the
  tree made of a whole VTK file.

What changes in place in the original is a class here (`MapBuilder`, `Protocol`,
`KeyIter`) or a method with loops over a caller's buffer. `FileMap`,
`Base64Reader`, the files and the directories have only constant fields in the
original and are datatypes, with their reading loops as methods. A thrown
exception is `None`.

One thing is assumed of the library under the tokens (`Layout.SelfDelimiting`):
the bytes of a struct whose numbers fit their types tell where they end and can
be decoded again. `Codecs.UnaryIsSelfDelimiting` shows that a codec can do so.

Where the code and the documentation part ways, the model follows the code: the
repository's README lists `pointdata/prs`, the code names that file
`pointdata/prs.parquet` (parser.cc:179).

What the code relies on without checking it is stated as a precondition:

- `BuildMaps.Fits`: at least one block, sizes of pages and of serialized structs
  below 2^31, no more pages than an `int` can count, a column name of one-byte
  characters; `arr.totalBytes >= 1` for an uncompressed array.
- `MapBuilder`: virtual files below 2^64 bytes, mapped offsets below 2^63 - 1.
- `FileMap.Present`, for a raw file: the bytes that a request wants are in the
  file, whatever else of the map is. Base64 needs no such thing.
  `VFile.Serves` is the same for files of both kinds.
- In base64 the header is a padded unit of its own (`EndToEnd.HoldsArray`).

Properties that hold only under a condition come with the exact condition:

- Reading a raw file through the map ends exactly when what the request wants is
  in the file (`FileMaps.FileMap.EndsIffPresent`), so reading the whole virtual
  file of an array ends exactly when the VTK file has all the blocks its header
  promises (`EndToEnd.TruncatedArray`, `EndToEnd.TruncatedFile`).
- Base64 that breaks off is answered exactly as far as it goes
  (`FileMaps.FileMap.AnswerIffPresent`). Where more base64 follows a unit, a read
  past its end may go on into what follows; `Base64.PastEndFailsIff` says when
  it fails.
- A struct survives writing and reading exactly when every field that is preset
  in a new object is set (`RoundTrip.RoundTripExact`). `is_compressed` is such a
  field, which is why the uncompressed layout, too, says `true`.
- The code takes `last_blk_sz` for the size of the last block, which is between 1
  and `blk_sz`; nothing in the map fails if it is not, but what it declares does.
  The row count is the array's number of whole values exactly when what the
  declared pages leave over and leave out makes less than one value
  (`Paging.CountIffLeftover`); for blocks of whole values, exactly when as many
  are declared of the last block as it has (`Paging.RowsIffLastBlock`). A header
  that gives the size of the last partial block, and zero if there is none, is
  counted right exactly when there is one (`Paging.RowsIffPartial`,
  `EndToEnd.ReaderCountsPartial`); `EndToEnd.FullBlockLost` is an array of four
  values with a row count of two.
- The pages that a reader gets are as long as the values they promise, plainly
  encoded, exactly when they are declared to hold whole values of more than a
  byte: single bytes are declared as 32-bit integers
  (`ParquetReader.PlainPagesIff`).
- The 32-bit header parser ends up behind the header exactly below 2^30 blocks
  (`EndToEnd.Narrow32Iff`).
- A byte count survives the `int` it is returned through exactly below 2^31
  (`Vfs.ReportedIffSmall`).
- A directory lists no name twice exactly when no two keys look alike to a C
  caller (`Vfs.ListingDistinctIff`).
- A listed key can be named by a path exactly when it is not empty and has neither
  a slash nor a NUL (`Paths.NameableIff`); the file of an array called `a/b` is
  listed and out of reach (`Paths.SlashedKeyUnreachable`).

## Model

| member | source | states |
|---|---|---|
| Storage.OSFile.Pread | fmap.h:43-47 | A read may fail, fall short or reach the end; what it delivers is what the file has there, and nothing else in the buffer changes |
| Bytes.FromLEIsNumber | arr.cc:43-116 | A number read from memory has its bytes for digits, the first with weight 1, the next 256 |
| Bytes.LEIsNumber | fmap.cc:374 | So has a number written to memory |
| Bytes.SmallNumbersRead | arr.cc:67-80 | `03 00 00 00` is 3 |
| Bytes.Conversions | fmap.cc:172-177 | Conversions to 32 and 64 bits keep a number up to multiples of 2^32 and 2^64, in the range of their type |
| Bytes.DivTruncs | fmap.cc:177 | Signed division rounds toward zero |
| Base64.SymbolIsPrinted | base64.cc:44-54 | The alphabet is that of Table 1 of RFC 4648 |
| Base64.GroupIsNumber | base64.cc:44-54 | The four symbols of a group and its three bytes are one number, in digits of 64 and of 256 |
| Base64.TestVectors | base64.cc:44-54 | Single groups of section 10 of RFC 4648, and one with the last two symbols |
| Base64.GroupRoundTrip | base64.cc:44-54 | A group of four characters decodes to the one, two or three bytes it encodes |
| Base64.DecodeAllOfEncode | base64.cc:60-90 | Decoding a unit gives its data; a padded unit hides what follows, an unpadded one is continued by it |
| Base64.FetchAtIsSlice | base64.cc:65-66 | Jumping to `offset / 3 * 4` and skipping `offset % 3` bytes finds the same bytes as decoding everything and slicing |
| Base64.StoredSlice | base64.cc:60-90 | Every request inside stored data is answered with the bytes of that data, whatever text follows it and whatever the padding |
| Base64.PastEndExact | base64.cc:65-87 | What every request past the end of a unit is answered with: the rest of the data and then the text behind it, failure, or the group that lies there |
| Base64.PastEndFailsIff | base64.cc:71-77 | All requests past the end at an offset fail iff the reader has to stop there: behind the data in its last group, or at a next group without a byte for it |
| Base64.RunsIntoNextUnit | base64.cc:79-87 | Where a unit follows, a read past the end succeeds with its first bytes |
| Base64.FetchAtIffInside | base64.cc:60-90 | In text that at most breaks off, a request is met iff it lies inside what the text decodes to |
| Base64.TruncationIsUnbroken | base64.cc:60-90 | Encoded data cut off anywhere is such text |
| Base64.FetchAtExact | base64.cc:60-90 | With nothing decodable behind the data: the slice if the request lies inside, failure if not |
| Base64.Base64Reader.Decode4 | base64.cc:44-54 | Delivers the bytes of one group, or -1 when its four characters cannot be read |
| Base64.Base64Reader.PreadTyped | base64.cc:60-90 | All of the request or -1: the buffer gets what `FetchAt` finds, nothing around it is touched, and over a steady file it fails only if the text has no answer |
| Base64.Base64Reader.Pread | base64.cc:56-58 | The same through the untyped entry |
| Regions.RegionPlace | fmap.cc:111-130 | Each region's bytes lie in the virtual file between the totals before and after it |
| Regions.ContentsOfConcat | fmap.cc:143-162 | Regions laid end to end are their contents laid end to end |
| FileMaps.UpperBound | fmap.cc:88-90 | The first position whose element exceeds the offset, with everything before it at most the offset |
| FileMaps.FileMap.FindRegion | fmap.cc:88-93 | The region that a read starts in contains the offset and exists whenever the offset is inside the file |
| FileMaps.FileMap.Pread | fmap.cc:86-109 | Unless -1, exactly `min(size, file size - offset)` bytes (0 at or past the end), under short reads and empty regions: what the regions answer, and so that slice of the whole virtual file when what is wanted is there; -1 cannot come when the file delivers and there is an answer; the loop ends |
| FileMaps.FileMap.Read | fmap.cc:111-130 | A read inside one region delivers what that region answers, or in a raw region a prefix, empty only if the request is or the file lacks the bytes |
| FileMaps.FileMap.ReadEncoded | fmap.cc:116-119 | In base64 the request is met whole, as text alone decides, or fails |
| FileMaps.FileMap.ReadRaw | fmap.cc:120-124 | A raw region reads the file at its own position plus the data start, short or with 0 at its end |
| FileMaps.FileMap.PieceIsSlice | fmap.cc:113-128 | What a region answers, where its bytes are there, is its own slice of the data or of the direct buffer |
| FileMaps.FileMap.AnswerWhenPresent | fmap.cc:86-109 | A request for what is there is answered with that slice of the virtual file |
| FileMaps.FileMap.AnswerIffPresent | fmap.cc:86-109 | In a raw file, or base64 that at most breaks off, there is an answer iff what is wanted is there |
| FileMaps.FileMap.PieceOfView | fmap.cc:94-106 | A piece of a region is the slice of the virtual file at the region's start plus the piece's offset |
| FileMaps.FileMap.OffsetsAreTotals | fmap.cc:143-162 | The stored start of each region is the total size of the regions before it |
| FileMaps.FileMap.ViewLength | fmap.cc:132 | The file size is the length of what can be read |
| FileMaps.FileMap.Sorted | fmap.cc:88-90 | Region starts never decrease, as the binary search needs |
| FileMaps.FileMap.EndsIffPresent | fmap.cc:86-109 | Over a raw file that reads without disturbance, the loop of a call ends iff what the call wants is in the file |
| FileMaps.FileMap.OneByteShort | fmap.cc:86-109 | With one of two promised bytes in the file, reading the first ends and reading both never does |
| FileMaps.MapBuilder.constructor | fmap.cc:136-139 | A new builder has no regions |
| FileMaps.MapBuilder.AddDirect | fmap.cc:143-149 | Appends one region of bytes in memory; direct regions go on tiling the direct buffer |
| FileMaps.MapBuilder.AddMappedRegion | fmap.cc:151-156 | Appends one slice of the array data, encoded as a positive offset |
| FileMaps.MapBuilder.Finish | fmap.cc:158-162 | The finished map has the regions added, in order |
| FileMaps.Extended | fmap.cc:143-156 | One region more leaves the earlier regions and their place in the direct buffer as they were |
| WireTrees.SkipFlatten | gen-cpp/parquet_types.cpp:6053-6059 | Skipping passes over exactly one value, however deep |
| WireTrees.ReadFlatten | gen-cpp/parquet_types.cpp:5967-6073 | Reading a token stream computes the meaning of its tree and stops right behind it |
| RoundTrip.WriteIsFlatten | gen-cpp/parquet_types.cpp:6075-6117 | `write` emits the tokens of a well-formed tree |
| RoundTrip.WrittenInOrder | gen-cpp/parquet_types.cpp:6075-6117 | Fields go out in the order of their ids |
| ParquetTypes.SmallTokens | gen-cpp/parquet_types.cpp:7003-7012 | A list gives element type and length before its elements, a struct type and id before each value and a stop mark at its end |
| RoundTrip.WriteThenRead | gen-cpp/parquet_types.cpp:9628-9874 | Reading what was written, with anything behind it, takes exactly those tokens, misses no required field, and gives the object with the presets of a new one filled in |
| RoundTrip.RoundTripExact | gen-cpp/parquet_types.h:1919-1923 | The object comes back equal if and only if all preset fields were set, at every depth |
| RoundTrip.OnlyTakenMatter | gen-cpp/parquet_types.cpp:5967-6073 | Unknown fields, and known ids under a foreign type, change nothing |
| RoundTrip.OrderDoesNotMatter | gen-cpp/parquet_types.cpp:5967-6073 | Known fields may come in any order |
| RoundTrip.InterpCarried | gen-cpp/parquet_types.cpp:5967-6073 | Every tree that has a value's set fields once each, at every depth in any order and among any unknown fields, means that value |
| RoundTrip.WriteCarries | gen-cpp/parquet_types.cpp:6075-6117 | What `write` emits is such a tree |
| RoundTrip.ReaderTolerates | gen-cpp/parquet_types.cpp:4960-5075 | Every such stream, nested structs included, reads as what was written, stopping right behind it |
| RoundTrip.MissingIff | gen-cpp/parquet_types.cpp:6066-6071 | Of a stream whose known fields are good and come once each, reading fails for a missing required field iff one is not among them |
| RoundTrip.LastScalarWins | gen-cpp/parquet_types.cpp:5991-5999 | A scalar field that comes again replaces the one before |
| RoundTrip.StructsMerge | gen-cpp/parquet_types.cpp:6049-6056 | A struct field that comes again is read into the member that is there: together they are as one with the fields of both |
| Protocols.ReadStruct | gen-cpp/parquet_types.cpp:5967-6073 | The field loop returns the specified object, or failure, and leaves exactly the specified tokens |
| Protocols.ReadMember | gen-cpp/parquet_types.cpp:6777-6836 | The same for scalars, lists element by element, and nested structs |
| Protocols.SkipValue | gen-cpp/parquet_types.cpp:6053-6059 | Passes over one value of any announced type as specified |
| Protocols.WriteStruct | gen-cpp/parquet_types.cpp:6994-7111 | Appends the specified tokens to the protocol: set fields by id, then stop |
| Protocols.WriteMember | gen-cpp/parquet_types.cpp:7003-7029 | Appends the tokens of one member |
| ParquetTypes.GetValueSize | arr.cc:118-134 | None exactly for an unknown type; 1 exactly for bytes, 8 exactly for the 64-bit types, else 4 |
| VtkFiles.NameTellsSize | parser.cc:135-155 | A value takes as many bits as the number in the name of its VTK type |
| VtkFiles.NameTellsKind | parser.cc:135-155 | The first letter of the name of a VTK type says whether it is unsigned, signed or floating |
| ParquetTypes.StatisticsShape | gen-cpp/parquet_types.cpp:1359-1504 | Which fields may come, and of which types on the wire |
| ParquetTypes.SchemaElementShape | gen-cpp/parquet_types.cpp:4174-4353 | Which fields must and may come, and of which types on the wire |
| ParquetTypes.DataPageHeaderV2Shape | gen-cpp/parquet_types.cpp:4960-5132 | The same, with the flag that counts as set |
| ParquetTypes.PageHeaderShape | gen-cpp/parquet_types.cpp:5967-6117 | Which fields must and may come, and of which types on the wire |
| ParquetTypes.ColumnMetaDataShape | gen-cpp/parquet_types.cpp:6747-7111 | The same for a column's metadata |
| ParquetTypes.ColumnChunkShape | gen-cpp/parquet_types.cpp:7677-7837 | The same for a column chunk |
| ParquetTypes.RowGroupShape | gen-cpp/parquet_types.cpp:7982-8160 | The same for a row group |
| ParquetTypes.FileMetaDataShape | gen-cpp/parquet_types.cpp:9628-9874 | The same for the footer |
| ParquetTypes.PageHeaderRoundTrip | gen-cpp/parquet_types.cpp:5967-6117 | The page header written is the page header read |
| ParquetTypes.FileMetaDataRoundTrip | gen-cpp/parquet_types.cpp:9628-9874 | The whole nested footer written is the footer read |
| ParquetTypes.FileMetaDataExact | fmap.cc:261-329 | The footer's objects are well typed at every level and leave no preset open |
| ParquetTypes.PageHeaderExact | fmap.cc:166-186 | So is the page header |
| ParquetTypes.UnsetFlagComesBackSet | gen-cpp/parquet_types.h:1919-1923 | A header whose `is_compressed` had been unset would be read back with it set |
| Layout.CutSizes | fmap.cc:351-370 | Cutting the data at the running offsets gives blocks of the stated sizes that join to the data again |
| Layout.CutOfJoin | fmap.cc:351-370 | Blocks laid end to end are cut apart again |
| Layout.FileRegionsAreBytes | fmap.cc:341-378 | The regions that are laid out, filled from the array data, are `PAR1`, header and block for each page, footer, its length and `PAR1` |
| Layout.FooterConservation | fmap.cc:358-377 | The footer starts 4 bytes plus the compressed total into the file, the file is that total plus the footer plus 12, and the totals differ by what unpacking adds |
| Paging.PageGeometry | fmap.cc:391-393 | Page count and last page size add up to the array without wrapping |
| Paging.PagesPartition | fmap.cc:390-408 | Pages split the array in order, all 32768 bytes but the last with 1 to 32768, each on a value boundary |
| Paging.CountIffLeftover | fmap.cc:360-369 | The count summed by page equals the array's bytes over value size iff what the declared pages leave over and leave out makes less than one value |
| Paging.ShortCount | fmap.cc:360 | Two blocks of 6 bytes of 4-byte values: two rows counted, three values there |
| Paging.BlockCount | fmap.cc:352-370 | With blocks of whole values the count is that of the declared sizes |
| Paging.BlockGeometry | fmap.cc:352-370 | An array in blocks is full blocks and a last one of 1 to `blk_sz` bytes |
| Paging.RowsIffLastBlock | fmap.cc:363-369 | With blocks of whole values the count is the array's iff as many values are declared of the last block as it has |
| Paging.RowsIffPartial | fmap.cc:363-369 | A header that says zero for a full last block is counted right iff the last block is not full |
| Paging.FullLastBlock | fmap.cc:363-369 | Two blocks of 8 bytes of 4-byte values, zero declared of the last: two rows counted, four values there |
| Paging.PageCount | fmap.cc:394-408 | An uncompressed array has `total_bytes / value_size` rows |
| Paging.PageCountIffSmall | fmap.cc:177-180 | The signed 32-bit count of a page and the unsigned one agree iff the page is below 2^31 bytes |
| BuildMaps.SerializeToBuffer | thrift_serializer.h:56-59 | A buffer holds the encoding of the one struct |
| BuildMaps.MakePageHeader | fmap.cc:169-186 | Filling a new header field by field gives the header specified, whether or not the flag is set by hand |
| BuildMaps.MakeFileMetaData | fmap.cc:265-329 | The same for the footer |
| BuildMaps.AppendPage | fmap.cc:166-195 | Adds a header region and a mapped region, and returns the header's length |
| BuildMaps.AppendFooter | fmap.cc:261-337 | Adds the footer region and returns its length |
| BuildMaps.AppendTrailer | fmap.cc:371-377 | Footer, footer length and mark close the file |
| BuildMaps.PageAdded | fmap.cc:352-361 | Adding a page wraps nowhere and keeps the totals equal to what was written |
| BuildMaps.BuildMapCompressed | fmap.cc:341-378 | Fails exactly for an unknown type or codec; otherwise a valid map with exactly the regions of the file, its totals included |
| BuildMaps.BuildMapUncompressed | fmap.cc:380-416 | The same for the pages that an uncompressed array is cut into |
| ParquetReader.HeaderReadsBack | fmap.cc:188-194 | A header with anything behind it decodes to the values put in and its own length, which is not zero |
| ParquetReader.PagesReadBack | fmap.cc:352-370 | Stepping by header length plus compressed size visits every page once and ends exactly at the end |
| ParquetReader.FooterReadsBack | fmap.cc:331-336 | The footer bytes decode to the footer |
| ParquetReader.PageHeaderSays | fmap.cc:169-186 | A reader takes the header for a version 2 data page of plain values, without nulls or levels |
| ParquetReader.SchemaSays | fmap.cc:272-283 | Walking the schema gives a root with one required leaf below it, and nothing left over |
| ParquetReader.TypeReadsBack | fmap.cc:197-244 | Physical and converted type say what the values are in the VTK file |
| ParquetReader.CompressionReadsBack | fmap.cc:246-259 | The codec says how the array is compressed |
| ParquetReader.FooterSays | fmap.cc:268-329 | Schema, row group and column chunk agree, and carry name, type, codec, encoding, counts, totals and place in the right fields |
| ParquetReader.PagesAddUp | fmap.cc:358-369 | Row count and both totals of the footer are the sums over the pages as read |
| ParquetReader.TableReadsBack | fmap.cc:341-416 | A reader that starts from the last 8 bytes and walks the schema finds exactly the blocks put in, under the array's name, type and codec, stops where the footer begins, and every number in the footer is what the pages add up to |
| ParquetReader.PlainPagesIff | fmap.cc:227-243 | The pages a reader gets have the plain length of their values in the declared type iff they hold whole values of more than a byte |
| ParquetReader.WholePagesIff | fmap.cc:391-407 | The pages of an uncompressed array do iff the array does |
| Codecs.UnaryIsSelfDelimiting | thrift_serializer.h:52-59 | There is a codec that keeps the promise assumed of the library |
| ArrayHeaders.HeaderView.Pread | parser.cc:74-77 | Through either view a full answer is the bytes of the header, and over a steady file it comes whenever there is one |
| ArrayHeaders.ParseCompressed64 | arr.cc:43-63 | The three counts and every block size, each the number whose digits are its bytes in the header, and the position behind the table; fails only if the header cannot be read or its table not allocated |
| ArrayHeaders.ParseCompressed32 | arr.cc:65-90 | The same with 32-bit words widened one by one, and with the table size computed in 32 bits |
| ArrayHeaders.ParseUncompressed64 | arr.cc:94-104 | The byte count, the number whose digits are the bytes of the header, and the position behind it |
| ArrayHeaders.ParseUncompressed32 | arr.cc:106-116 | The same for a 32-bit word |
| ArrayHeaders.WordOfWords | arr.cc:58-61 | A word of a written table is the number that was put there |
| Parser.ParseAppendedArray | parser.cc:90-129 | The result is the map of the array whose header is at the offset, its data start rewritten to the file; over a steady file it succeeds whenever header, type and codec are good |
| EndToEnd.HeaderVisible | parser.cc:81-88 | Either view delivers every part of a stored header |
| EndToEnd.DataBehindHeader | parser.cc:103-109 | The rewritten data start is the first byte behind the header, padded or not: the array data starts there |
| EndToEnd.HeaderReadsBack | parser.cc:112-124 | Either parser through either view gets back all the numbers that a compressed header was made of |
| EndToEnd.WidthsAgree | arr.cc:43-90 | 32-bit and 64-bit headers with the same numbers give the same block table |
| EndToEnd.Narrow32Iff | arr.cc:74-89 | The 32-bit parser ends up behind its table iff there are fewer than 2^30 blocks |
| EndToEnd.NarrowOverflow | arr.cc:74-89 | A 12-byte header that says 2^30 blocks parses with the data start right behind those 12 bytes |
| EndToEnd.CompressedEndToEnd | parser.cc:112-128 | Over any file that holds a compressed array, the map shows the Parquet file of its blocks |
| EndToEnd.UncompressedEndToEnd | parser.cc:96-111 | Over any file that holds an uncompressed array, the map shows the Parquet file of its pages |
| EndToEnd.ArrayEndToEnd | parser.cc:90-129 | Both in one: any encoding, header width and compression, and the file size is the length of that file |
| EndToEnd.EncodingIndependence | fmap.cc:111-125 | The same array stored raw and in base64 gives files of equal size and equal bytes |
| EndToEnd.StoredArrayLoads | parser.cc:90-129 | A stored array within bounds meets the parser's precondition, and its header can be read |
| EndToEnd.TruncatedArray | fmap.cc:94-106 | Reading the whole virtual file over a raw VTK file ends iff all the blocks are there; it has an answer in raw or cut-off base64 iff they are |
| EndToEnd.TruncatedFile | parser.cc:112-128 | A raw VTK file cut off behind its array header parses, and the read of the whole virtual file ends iff enough data is left |
| EndToEnd.ReaderFindsArray | fmap.cc:341-416 | A Parquet reader over the virtual file finds the array's blocks under its name, type and codec and a footer that agrees with them; it counts the array's values right if it is uncompressed, and if compressed iff the last block is declared with as many as it has; it gets pages of plain length iff they are declared with whole values of more than a byte |
| EndToEnd.ReaderCountsPartial | fmap.cc:363-369 | Under a header that says zero for a full last block, a reader counts all values iff the last block is not full |
| EndToEnd.FullBlockLost | fmap.cc:363-369 | With two full blocks and zero declared of the last, a reader is promised half the values and an empty second page |
| EndToEnd.PlainPagesJoin | fmap.cc:390-408 | The pages of an uncompressed array join to the array |
| Vfs.VFile.Pread | vfs.cc:52-80 | In-memory and mapped files alike: -1, or the whole answer to the request; what has no answer, as missing base64, gives -1 |
| Vfs.VFile.AnswerIsContent | vfs.cc:52-80 | What is there is answered with that part of the content, and where base64 at most breaks off nothing else is answered |
| Vfs.Dir.StatIsTrue | vfs.cc:106-198 | A name stats as a directory exactly if it opens as one, as a file exactly if it opens as one whose content has the stated size |
| Vfs.Read | c.cc:211-219 | `-EIO` where there is no answer; otherwise that or the count as it survives an `int`, with the bytes in place below 2^31 |
| Vfs.ErrorReported | c.cc:212-215 | -1, also as an unsigned 32-bit count, is error 5 |
| Vfs.ReportedIffSmall | c.cc:212 | A count comes through the `int` unchanged iff it is below 2^31 |
| Vfs.ReadWhole | bench.c:75-85 | Reading on until a short count ends with the whole content of a complete file, with any buffer that an `int` can size; base64 that breaks off gives an error |
| Vfs.KeyIter.constructor | vfs.cc:87-89 | A new iterator stands at the end |
| Vfs.KeyIter.Next | vfs.cc:92 | Moves on by one key |
| Vfs.KeyIter.SeekToFirst | vfs.cc:93 | Moves to the first key |
| Vfs.ListDir | c.cc:148-156 | Lists every key of a directory once, cut at an embedded NUL |
| Vfs.ListingIsExact | c.cc:148-156 | Without such keys the listing is the key set, each once |
| Vfs.ListingDistinctIff | vfs.cc:91 | No name appears twice iff no two keys agree up to their first NUL |
| Paths.ComponentsOfJoin | c.cc:68-104 | The components of two paths joined by a slash are those of both |
| Paths.SlashesDoNotMatter | c.cc:61-64 | Repeated and trailing slashes change no component |
| Paths.ScanSlashes | c.cc:73 | Passes over a run of slashes |
| Paths.ScanName | c.cc:82 | Passes over one name |
| Paths.ResolvePath | c.cc:68-104 | Gives parent and last name as folding lookup over the components does, with its errors, and descends only into directories |
| Paths.SlashesResolveAlike | c.cc:61-64 | A doubled slash anywhere resolves like a single one; a trailing slash changes nothing iff the path before it is not empty |
| Paths.DirOfIsDescend | c.cc:68-104 | Resolving the parent and then the last name is descending through all components from the root |
| Paths.OneKind | c.cc:118-209 | A path is a directory for attributes iff it is one for listing and iff opening it gives error 21; it is a file for attributes iff it opens, with the size of what opens |
| Paths.RootIsThere | c.cc:73-76 | A path of slashes is the root: a directory that holds the tree |
| Paths.RelativeIsInvalid | c.cc:69-70 | A path that does not begin with a slash is error 22 for every operation |
| Paths.ErrorsPassDown | c.cc:93-101 | Below a file every operation gives error 20, and below what is missing error 2 |
| Paths.NoOtherErrors | c.cc:68-104 | Resolution fails with no other error than these |
| Paths.Getattr | c.cc:118-146 | Kind and size of what the path resolves to, or the error |
| Paths.Readdir | c.cc:148-183 | The listing of the directory that the path names, or the error |
| Paths.Open | c.cc:185-209 | The file that the path names, or the error |
| Paths.ReadPath | bench.c:69-86 | Opening a file by its path and reading it to the end gives its content, or fails as opening or reading does |
| Paths.NameableIff | c.cc:68-104 | Some path leads to a directory's key iff it is not empty and has neither a slash nor a NUL |
| Paths.SlashedKeyUnreachable | parser.cc:179 | No path leads to the file of an array called `a/b` |
| Paths.ListedIsThere | c.cc:118-209 | What a listing shows is found one level down by attributes, open and listing, as the same thing with the same contents and size |
| Paths.UnlistedIsNotFound | c.cc:118-209 | What it does not show is not found there |
| VtkFiles.ParseVtkDataArray | parser.cc:131-165 | Maps an appended array of known type at its offset, refuses any other, and succeeds when nothing stands in the way |
| VtkFiles.ParseArrayGroup | parser.cc:167-184 | Every array is mapped under its own name with `.parquet`, and nothing else is in the directory |
| VtkFiles.FileNamesDiffer | parser.cc:179 | Different arrays get different file names |
| VtkFiles.ParseVtkFileInternal | parser.cc:272-329 | The tree has the metadata and the sections asked for, and no other directory |
| VtkFiles.ParseVtkFile | parser.cc:338-346 | The suffix of the file name decides which sections those are |
| VtkFiles.TreeIsValid | parser.cc:272-329 | Every tree that is made can be served, whichever of its arrays are truncated |
| VtkFiles.PathToBytes | parser.cc:157-161 | Opening `/pointdata/name.parquet` (or the like of another section) of an array that the appended data has at its offset gives exactly the Parquet file that it stands for, and the size looked up is its length |
| VtkFiles.ReadArray | bench.c:69-86 | Reading that path to the end gives that file, and over a steady file does not fail |
| VtkFiles.StoredIsLoadable | parser.cc:157-161 | An array that is there and within bounds is loaded over a steady file |
| VtkFiles.AttributeToText | vfs.cc:106-108 | `/METADATA/key` is a file whose content is the attribute's value and whose size is its length |
| VtkFiles.ReadAttribute | bench.c:69-86 | Reading that path to the end gives the value |
| VtkFiles.RootHolds | parser.cc:311-346 | The root holds METADATA and the sections that go with `.vtu`, `.vts` or `.vti`, by name |
| VtkFiles.SuffixDecides | parser.cc:332-346 | Those suffixes are loaded, with those sections, and no other name is |

## Left out

- Operating system files, FUSE callbacks and contexts, timing: the underlying file is a byte string whose reads may be short or fail.
- XML parsing, reader creation, compressor detection, attribute copying and `atoll`: the attributes come in as they are, an offset as a number. An attribute that is missing, which makes the original throw, is not modelled.
- The bytes of Thrift's compact protocol, the limit on nesting in its reader and the transfer counts that `read` and `write` return.
- Structs that the program never writes, and fields of the written structs that hold them (dictionary headers, logical types, key-value metadata, encryption, page encoding statistics and the like): their tables omit those fields, so they are passed over like unknown ones. Token kinds that no table needs (bytes, doubles, maps, sets).
- The numbers of Parquet's types, converted types, codecs and encodings are transcribed, not derived.
- Permission bits, timestamps and the sizes that directories inherit from the VTK file; memory ownership and destructors.
- Wrap-around of positions in the underlying file at 2^64; buffers and files are smaller than that.
- Protocols.ReadMember: a list whose elements have another type than the reader expects is a read error here; the original reads on as if they had it, which only the bytes under the tokens could say more about.
- FileMaps.FileMap.Pread: in a raw file requires what is wanted to be there, because otherwise the loop of the original does not end (`EndsIffPresent`).
- ArrayHeaders.ParseCompressed32: for 2^30 blocks or more the entries of the table that were never read have no stated value, and the overflow of the widening loop's `int` counter at 2^31 blocks is not modelled.
- ArrayHeaders.ParseCompressed64: a block table too large to be allocated is a failure from 2^63 bytes on; a smaller allocation always succeeds.
- BuildMaps.BuildMapCompressed: does not cover an array without blocks, where the index of the last block wraps around.
- BuildMaps.BuildMapUncompressed: does not cover an array without bytes, for the same reason.
- Paths.ListedIsThere: leaves out keys that are empty, contain a slash or an embedded NUL, which no path can name (`NameableIff`).
- The decoder of one base64 group is a library's and not part of this model: a group that is not well formed is taken as RFC 4648 has it, with no bytes in it, and what `PastEndFailsIff` says of such groups depends on that.
