/** The Parquet file that an array turns into, as plain bytes and as regions. */
module Layout {
  import opened Bytes
  import opened Regions
  import opened Thrift
  import opened WireTrees
  import opened ParquetTypes

  /** The bytes under the tokens are a library's affair. `decode` returns the
      struct at the front of a byte string and how many bytes it took. */
  datatype Codec = Codec(
    encode: seq<Token> -> seq<byte>,
    decode: seq<byte> -> Option<(seq<Token>, nat)>)

  /** The one thing assumed of the library: a struct's bytes tell where it ends. */
  ghost predicate SelfDelimiting(c: Codec) {
    forall items, rest :: WellFormed(Group(items)) ==>
      c.decode(c.encode(FlattenItems(items)) + rest)
      == Some((FlattenItems(items), |c.encode(FlattenItems(items))|))
  }

  /** What a file is built for: the codec below, and what its footer says. */
  datatype Format = Format(codec: Codec, name: string, t: DataType, compression: CompressionType)

  function ValueSize(t: DataType): nat
    requires t != UNKNOWN
    ensures ValueSize(t) > 0
  {
    GetValueSize(t).value
  }

  predicate Usable(f: Format) {
    f.t != UNKNOWN && f.compression != UNKNOWN_COMPRESSION
  }

  const PAR1: seq<byte> := [80, 65, 82, 49]

  /** The header bytes of a page with `c` bytes that stand for `u` bytes. */
  function Header(f: Format, c: nat, u: nat): seq<byte>
    requires Usable(f)
  {
    f.codec.encode(WriteFields(PageHeaderFields(), PageHeaderOf(c, u, u / ValueSize(f.t)), 1))
  }

  // Pages are given by their sizes as stored (`cs`) and as they unpack (`us`).

  function Sum(ns: seq<nat>): nat {
    if ns == [] then 0 else Sum(ns[..|ns| - 1]) + ns[|ns| - 1]
  }

  /** Total size of the page headers. */
  function Headers(f: Format, cs: seq<nat>, us: seq<nat>): nat
    requires Usable(f) && |cs| == |us|
  {
    if cs == [] then 0
    else
      var n := |cs| - 1;
      Headers(f, cs[..n], us[..n]) + |Header(f, cs[n], us[n])|
  }

  /** Values on all pages, counted page by page. */
  function Count(f: Format, us: seq<nat>): nat
    requires Usable(f)
  {
    if us == [] then 0 else Count(f, us[..|us| - 1]) + us[|us| - 1] / ValueSize(f.t)
  }

  function FooterColumn(f: Format, cs: seq<nat>, us: seq<nat>): Column
    requires Usable(f) && |cs| == |us|
  {
    Column(f.name, f.t, f.compression, Headers(f, cs, us) + Sum(cs), Headers(f, cs, us) + Sum(us), Count(f, us))
  }

  function Footer(f: Format, cs: seq<nat>, us: seq<nat>): seq<byte>
    requires Usable(f) && |cs| == |us|
  {
    f.codec.encode(WriteFields(FileMetaDataFields(), FileMetaDataOf(FooterColumn(f, cs, us)), 1))
  }

  function PageRegions(f: Format, cs: seq<nat>, us: seq<nat>): seq<Region>
    requires Usable(f) && |cs| == |us|
  {
    if cs == [] then []
    else
      var n := |cs| - 1;
      PageRegions(f, cs[..n], us[..n]) + [Direct(Header(f, cs[n], us[n])), Mapped(Sum(cs[..n]), cs[n])]
  }

  /** One page more. */
  lemma NextPage(f: Format, cs: seq<nat>, us: seq<nat>, i: nat)
    requires Usable(f) && i < |cs| == |us|
    ensures Sum(cs[..i + 1]) == Sum(cs[..i]) + cs[i] && Sum(us[..i + 1]) == Sum(us[..i]) + us[i]
    ensures Count(f, us[..i + 1]) == Count(f, us[..i]) + us[i] / ValueSize(f.t)
    ensures Headers(f, cs[..i + 1], us[..i + 1]) == Headers(f, cs[..i], us[..i]) + |Header(f, cs[i], us[i])|
    ensures PageRegions(f, cs[..i + 1], us[..i + 1])
            == PageRegions(f, cs[..i], us[..i]) + [Direct(Header(f, cs[i], us[i])), Mapped(Sum(cs[..i]), cs[i])]
  {
    hide Header, ValueSize;
    assert cs[..i + 1][..i] == cs[..i] && us[..i + 1][..i] == us[..i];
  }

  function Trailer(f: Format, cs: seq<nat>, us: seq<nat>): seq<Region>
    requires Usable(f) && |cs| == |us|
  {
    var footer := Footer(f, cs, us);
    [Direct(footer), Direct(LE(|footer|, 4)), Direct(PAR1)]
  }

  function FileRegions(f: Format, cs: seq<nat>, us: seq<nat>): seq<Region>
    requires Usable(f) && |cs| == |us|
  {
    [Direct(PAR1)] + PageRegions(f, cs, us) + Trailer(f, cs, us)
  }

  /** Pages one after the other: header, then block. */
  function PageBytes(f: Format, us: seq<nat>, blocks: seq<seq<byte>>): seq<byte>
    requires Usable(f) && |us| == |blocks|
  {
    if blocks == [] then []
    else
      var n := |blocks| - 1;
      PageBytes(f, us[..n], blocks[..n]) + (Header(f, |blocks[n]|, us[n]) + blocks[n])
  }

  function Sizes(blocks: seq<seq<byte>>): (cs: seq<nat>)
    ensures |cs| == |blocks|
  {
    seq(|blocks|, i requires 0 <= i < |blocks| => |blocks[i]|)
  }

  /** The virtual file, spelled out. */
  function ParquetFile(f: Format, us: seq<nat>, blocks: seq<seq<byte>>): seq<byte>
    requires Usable(f) && |us| == |blocks|
  {
    var footer := Footer(f, Sizes(blocks), us);
    PAR1 + PageBytes(f, us, blocks) + (footer + LE(|footer|, 4) + PAR1)
  }

  /** The array data cut into blocks of the given sizes. */
  function Cut(data: seq<byte>, cs: seq<nat>): (blocks: seq<seq<byte>>)
    ensures |blocks| == |cs|
  {
    seq(|cs|, i requires 0 <= i < |cs| => Slice(data, Sum(cs[..i]), cs[i]))
  }

  function Join(blocks: seq<seq<byte>>): seq<byte> {
    if blocks == [] then [] else Join(blocks[..|blocks| - 1]) + blocks[|blocks| - 1]
  }

  /** Cutting loses nothing and has the sizes asked for. */
  lemma {:induction false} CutSizes(data: seq<byte>, cs: seq<nat>)
    requires Sum(cs) <= |data|
    ensures Sizes(Cut(data, cs)) == cs
    ensures Join(Cut(data, cs)) == data[..Sum(cs)]
    decreases |cs|
  {
    hide Sum, Cut;
    if cs == [] {
      SumOfNone();
      assert Cut(data, cs) == [] && Join([]) == data[..0];
    } else {
      var n := |cs| - 1;
      SumLast(cs);
      CutSizes(data, cs[..n]);
      LastBlock(data, cs);
      Adjacent(data, 0, Sum(cs[..n]), Sum(cs));
      assert cs == cs[..n] + [cs[n]];
    }
  }

  /** Blocks laid end to end are cut apart again. */
  lemma {:induction false} CutOfJoin(blocks: seq<seq<byte>>, tail: seq<byte>)
    ensures Sum(Sizes(blocks)) == |Join(blocks)|
    ensures Cut(Join(blocks) + tail, Sizes(blocks)) == blocks
    decreases |blocks|
  {
    hide Cut, Sum;
    if blocks == [] {
      SumOfNone();
    } else {
      var n := |blocks| - 1;
      var front, last := blocks[..n], blocks[n];
      var data, cs := Join(blocks) + tail, Sizes(blocks);
      CutOfJoin(front, last + tail);
      assert cs[..n] == Sizes(front);
      SumLast(cs);
      LastBlock(data, cs);
      Associative(Join(front), last, tail);
      SliceBetween(Join(front), last, tail);
      LastOfSnoc(Cut(data, cs[..n]), last);
      assert Cut(data, cs) == Cut(data, cs)[..n] + [last];
      assert blocks == front + [last];
    }
  }

  lemma SliceBetween(a: seq<byte>, b: seq<byte>, c: seq<byte>)
    ensures Slice(a + b + c, |a|, |b|) == b
  {
    assert (a + b + c)[|a|..|a| + |b|] == b;
  }

  /** The regions of the file, filled from the array data, are the file. */
  lemma {:induction false} PageRegionsAreBytes(f: Format, cs: seq<nat>, us: seq<nat>, data: seq<byte>)
    requires Usable(f) && |cs| == |us| && Sum(cs) <= |data|
    ensures Backed(PageRegions(f, cs, us), data)
    ensures Contents(PageRegions(f, cs, us), data) == PageBytes(f, us, Cut(data, cs))
    decreases |cs|
  {
    hide Header, Cut, Sum, Contents, Backed;
    if cs == [] {
      NoRegions(data);
    } else {
      var n := |cs| - 1;
      SumLast(cs);
      LastBlock(data, cs);
      PageRegionsAreBytes(f, cs[..n], us[..n], data);
      TwoMore(PageRegions(f, cs[..n], us[..n]), Direct(Header(f, cs[n], us[n])), Mapped(Sum(cs[..n]), cs[n]), data);
    }
  }

  lemma NoRegions(data: seq<byte>)
    ensures Backed([], data) && Contents([], data) == []
  {
  }

  lemma LastBlock(data: seq<byte>, cs: seq<nat>)
    requires cs != []
    ensures var n := |cs| - 1;
            && Cut(data, cs)[..n] == Cut(data, cs[..n])
            && Cut(data, cs)[n] == Slice(data, Sum(cs[..n]), cs[n])
  {
    hide Sum, Slice;
    var n := |cs| - 1;
    forall i | 0 <= i < n ensures cs[..n][..i] == cs[..i] {
    }
  }

  lemma SumOfNone()
    ensures Sum([]) == 0
  {
  }

  lemma SumLast(cs: seq<nat>)
    requires cs != []
    ensures Sum(cs[..|cs| - 1]) + cs[|cs| - 1] == Sum(cs)
  {
  }

  lemma TwoMore(rs: seq<Region>, a: Region, b: Region, data: seq<byte>)
    requires Backed(rs, data) && InData(a, data) && InData(b, data)
    ensures Backed(rs + [a, b], data)
    ensures Contents(rs + [a, b], data) == Contents(rs, data) + (RegionBytes(a, data) + RegionBytes(b, data))
  {
    hide Contents, RegionBytes, InData, Backed;
    SnocContents(rs, a, data);
    SnocContents(rs + [a], b, data);
    assert rs + [a] + [b] == rs + [a, b];
    Associative(Contents(rs, data), RegionBytes(a, data), RegionBytes(b, data));
  }

  lemma FileRegionsAreBytes(f: Format, cs: seq<nat>, us: seq<nat>, data: seq<byte>)
    requires Usable(f) && |cs| == |us| && Sum(cs) <= |data|
    ensures Backed(FileRegions(f, cs, us), data)
    ensures Contents(FileRegions(f, cs, us), data) == ParquetFile(f, us, Cut(data, cs))
  {
    hide PageRegions, PageBytes, Footer, Cut;
    var front, rs, footer := [Direct(PAR1)], PageRegions(f, cs, us), Footer(f, cs, us);
    var end := [Direct(footer), Direct(LE(|footer|, 4)), Direct(PAR1)];
    PageRegionsAreBytes(f, cs, us, data);
    CutSizes(data, cs);
    OneDirect(PAR1, data);
    ThreeDirects(footer, LE(|footer|, 4), PAR1, data);
    ContentsOfConcat(front, rs, data);
    ContentsOfConcat(front + rs, end, data);
  }

  lemma OneDirect(a: seq<byte>, data: seq<byte>)
    ensures Backed([Direct(a)], data) && Contents([Direct(a)], data) == a
  {
    assert [Direct(a)][..0] == [];
    assert [] + a == a;
  }

  lemma ThreeDirects(a: seq<byte>, b: seq<byte>, c: seq<byte>, data: seq<byte>)
    ensures Backed([Direct(a), Direct(b), Direct(c)], data)
    ensures Contents([Direct(a), Direct(b), Direct(c)], data) == a + b + c
  {
    OneDirect(a, data);
    TwoMore([Direct(a)], Direct(b), Direct(c), data);
    assert [Direct(a)] + [Direct(b), Direct(c)] == [Direct(a), Direct(b), Direct(c)];
    Associative(a, b, c);
  }

  lemma {:induction false} PageBytesLength(f: Format, us: seq<nat>, blocks: seq<seq<byte>>)
    requires Usable(f) && |us| == |blocks|
    ensures |PageBytes(f, us, blocks)| == Headers(f, Sizes(blocks), us) + Sum(Sizes(blocks))
    decreases |blocks|
  {
    hide Header;
    if blocks != [] {
      var n := |blocks| - 1;
      PageBytesLength(f, us[..n], blocks[..n]);
      assert Sizes(blocks)[..n] == Sizes(blocks[..n]);
    }
  }

  /** Conservation: the footer's compressed total is what lies between the
      leading mark and the footer, the file is that plus the footer and twelve
      bytes, and the two totals differ by what unpacking adds. */
  lemma FooterConservation(f: Format, us: seq<nat>, blocks: seq<seq<byte>>)
    requires Usable(f) && |us| == |blocks|
    ensures var c := FooterColumn(f, Sizes(blocks), us);
            var footer := Footer(f, Sizes(blocks), us);
            var file := ParquetFile(f, us, blocks);
            && 4 + c.totalCompressed + |footer| <= |file|
            && file[4 + c.totalCompressed..][..|footer|] == footer
            && |file| == c.totalCompressed + |footer| + 12
            && c.totalUncompressed - c.totalCompressed == Sum(us) - Sum(Sizes(blocks))
  {
    hide PageBytes, Footer, Headers, Sum, Count;
    PageBytesLength(f, us, blocks);
    var footer := Footer(f, Sizes(blocks), us);
    var front, back := PAR1 + PageBytes(f, us, blocks), footer + LE(|footer|, 4) + PAR1;
    DropIntoConcat(front, back, |front|);
    assert back[..|footer|] == footer;
  }
}
