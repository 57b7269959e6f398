/** From a VTK file to its directory tree (parser.cc:131-184, 272-346), and from
    a path in the tree to bytes. */
module VtkFiles {
  import opened Bytes
  import opened Storage
  import opened Base64
  import opened FileMaps
  import opened ParquetTypes
  import opened Layout
  import opened ArrayHeaders
  import opened Parser
  import opened EndToEnd
  import opened Vfs
  import opened Paths

  /** An array's attributes in the VTK file; its offset as a number. */
  datatype ArrayInfo = ArrayInfo(t: string, format: string, offset: nat)

  function ParseType(t: string): DataType {
    if t == "Int8" then INT8
    else if t == "UInt8" then UINT8
    else if t == "Int32" then INT32
    else if t == "UInt32" then UINT32
    else if t == "Int64" then INT64
    else if t == "UInt64" then UINT64
    else if t == "Float32" then FLOAT32
    else if t == "Float64" then FLOAT64
    else UNKNOWN
  }

  predicate IsDigit(c: char) {
    '0' <= c <= '9'
  }

  /** The decimal number at the end of a name. */
  function NumberAfter(name: string): nat {
    if name == [] || !IsDigit(name[|name| - 1]) then 0
    else NumberAfter(name[..|name| - 1]) * 10 + (name[|name| - 1] - '0') as nat
  }

  lemma NumberOfOneDigit(name: string)
    requires |name| >= 2 && IsDigit(name[|name| - 1]) && !IsDigit(name[|name| - 2])
    ensures NumberAfter(name) == (name[|name| - 1] - '0') as nat
  {
    assert NumberAfter(name[..|name| - 1]) == 0;
  }

  lemma NumberOfTwoDigits(name: string)
    requires |name| >= 3 && IsDigit(name[|name| - 1]) && IsDigit(name[|name| - 2]) && !IsDigit(name[|name| - 3])
    ensures NumberAfter(name) == (name[|name| - 2] - '0') as nat * 10 + (name[|name| - 1] - '0') as nat
  {
    NumberOfOneDigit(name[..|name| - 1]);
  }

  /** A value takes as many bits as the name of its type says. */
  lemma NameTellsSize(t: string)
    requires ParseType(t) != UNKNOWN
    ensures 8 * GetValueSize(ParseType(t)).value == NumberAfter(t)
  {
    if t == "Int8" || t == "UInt8" {
      NumberOfOneDigit(t);
    } else {
      NumberOfTwoDigits(t);
    }
  }

  /** And its first letters say what kind it is of. */
  lemma NameTellsKind(t: string)
    requires ParseType(t) != UNKNOWN
    ensures ParseType(t) in {UINT8, UINT32, UINT64} <==> t[0] == 'U'
    ensures ParseType(t) in {FLOAT32, FLOAT64} <==> t[0] == 'F'
    ensures ParseType(t) in {INT8, INT32, INT64} <==> t[0] == 'I'
  {
  }

  /** A VTK file, and what it says once for all its arrays. */
  datatype VtkFile = VtkFile(
    base: OSFile, codec: Codec, compression: CompressionType, enc: EncodingType, width: Width, appendedDataPos: nat)
  {
    function FormatOf(name: string, info: ArrayInfo): Format {
      Format(codec, name, ParseType(info.t), compression)
    }

    function OffsetOf(info: ArrayInfo): nat {
      info.offset + appendedDataPos
    }

    function ViewOf(info: ArrayInfo): HeaderView {
      ViewAt(base, enc, OffsetOf(info))
    }

    /** `fm` is the map of an array of this file. */
    ghost predicate Maps(fm: FileMap, name: string, info: ArrayInfo) {
      IsMapOf(fm, FormatOf(name, info), base, enc, width, OffsetOf(info))
    }

    /** The appended data of this file has the array at the offset that its
        attributes give. */
    ghost predicate Stores(a: StoredArray, info: ArrayInfo) {
      BeginsArray(TextAt(TextAt(base.bytes, appendedDataPos), info.offset), a, compression, enc, width)
    }

    ghost predicate InBounds(name: string, info: ArrayInfo) {
      HeaderFits(FormatOf(name, info), ViewOf(info), width)
    }

    /** Nothing stands in the way of mapping the array. */
    ghost predicate Loadable(name: string, info: ArrayInfo) {
      && base.Steady() && info.format == "appended"
      && Usable(FormatOf(name, info)) && Readable(FormatOf(name, info), ViewOf(info), width)
    }
  }

  method ParseVtkDataArray(file: VtkFile, name: string, info: ArrayInfo) returns (r: Option<FileMap>)
    requires file.InBounds(name, info)
    ensures r.Some? ==> info.format == "appended" && file.Maps(r.value, name, info)
    ensures file.Loadable(name, info) ==> r.Some?
  {
    hide IsMapOf, HeaderFits, Readable;
    if ParseType(info.t) == UNKNOWN {
      return None;
    }
    if info.format != "appended" {
      return None;
    }
    r := ParseAppendedArray(file.FormatOf(name, info), file.base, file.enc, file.width, file.OffsetOf(info));
  }

  function FileName(name: string): string {
    name + ".parquet"
  }

  lemma FileNamesDiffer(a: string, b: string)
    requires FileName(a) == FileName(b)
    ensures a == b
  {
    assert a == FileName(a)[..|FileName(a)| - 8] && b == FileName(b)[..|FileName(b)| - 8];
  }

  ghost predicate AllInBounds(file: VtkFile, infos: map<string, ArrayInfo>) {
    forall name :: name in infos ==> file.InBounds(name, infos[name])
  }

  ghost predicate AllLoadable(file: VtkFile, infos: map<string, ArrayInfo>) {
    forall name :: name in infos ==> file.Loadable(name, infos[name])
  }

  lemma OneLess<T>(all: set<T>, left: set<T>, x: T)
    requires left <= all && x in left
    ensures left - {x} < left && all - (left - {x}) == (all - left) + {x}
  {
  }

  /** Every array of the group is mapped under its own file name; None if any fails. */
  method ParseArrayGroup(file: VtkFile, infos: map<string, ArrayInfo>) returns (r: Option<Dir>)
    requires AllInBounds(file, infos)
    ensures r.Some? ==> IsGroup(r.value, file, infos)
    ensures AllLoadable(file, infos) ==> r.Some?
  {
    hide VtkFile.InBounds, VtkFile.Loadable, VtkFile.Maps, GroupSoFar, FileName;
    var maps: map<string, FileMap> := map[];
    var left := infos.Keys;
    ghost var done: set<string> := {};
    GroupStarts(file, infos);
    while left != {}
      invariant left <= infos.Keys && done == infos.Keys - left
      invariant GroupSoFar(maps, done, file, infos)
      decreases left
    {
      var name :| name in left;
      var fm := ParseVtkDataArray(file, name, infos[name]);
      if fm == None {
        return None;
      }
      GroupGrows(maps, done, name, fm.value, file, infos);
      OneLess(infos.Keys, left, name);
      maps, left := maps[FileName(name) := fm.value], left - {name};
      done := done + {name};
    }
    assert done == infos.Keys;
    r := Some(ArrayDir(maps, file.base));
  }

  /** The arrays in `done` are mapped, and nothing else is. */
  ghost predicate GroupSoFar(
    maps: map<string, FileMap>, done: set<string>, file: VtkFile, infos: map<string, ArrayInfo>)
    requires done <= infos.Keys
  {
    && (forall k :: k in maps ==> exists name :: name in done && k == FileName(name))
    && (forall name :: name in done ==> FileName(name) in maps && file.Maps(maps[FileName(name)], name, infos[name]))
  }

  lemma GroupStarts(file: VtkFile, infos: map<string, ArrayInfo>)
    ensures GroupSoFar(map[], {}, file, infos)
  {
  }

  lemma GroupGrows(
    maps: map<string, FileMap>, done: set<string>, name: string, fm: FileMap, file: VtkFile,
    infos: map<string, ArrayInfo>)
    requires done <= infos.Keys && name in infos.Keys - done
    requires GroupSoFar(maps, done, file, infos) && file.Maps(fm, name, infos[name])
    ensures GroupSoFar(maps[FileName(name) := fm], done + {name}, file, infos)
  {
    hide VtkFile.Maps, FileName;
    forall other | other in done ensures FileName(other) != FileName(name) {
      if FileName(other) == FileName(name) {
        FileNamesDiffer(other, name);
      }
    }
    var more := maps[FileName(name) := fm];
    forall k | k in more ensures exists n :: n in done + {name} && k == FileName(n) {
      if k in maps {
        var n :| n in done && k == FileName(n);
        assert n in done + {name};
      } else {
        assert name in done + {name};
      }
    }
  }

  ghost predicate IsGroup(dir: Dir, file: VtkFile, infos: map<string, ArrayInfo>) {
    dir.ArrayDir? && dir.base == file.base && GroupSoFar(dir.arrMaps, infos.Keys, file, infos)
  }

  // The whole tree.

  datatype Section = POINT_DATA | POINTS | CELL_DATA | CELLS

  function DirName(section: Section): (name: string)
    ensures name != METADATA && name != [] && '/' !in name && '\0' !in name
  {
    match section
    case POINT_DATA => "pointdata"
    case POINTS => "points"
    case CELL_DATA => "celldata"
    case CELLS => "cells"
  }

  const METADATA := "METADATA"

  lemma DirNamesDiffer(a: Section, b: Section)
    requires DirName(a) == DirName(b)
    ensures a == b
  {
    assert |DirName(POINT_DATA)| == 9 && |DirName(POINTS)| == 6 && |DirName(CELL_DATA)| == 8 && |DirName(CELLS)| == 5;
  }

  /** What the XML part of a VTK file holds: root attributes and arrays by section. */
  datatype Xml = Xml(attrs: map<string, seq<byte>>, arrays: map<Section, map<string, ArrayInfo>>) {
    function ArraysOf(section: Section): map<string, ArrayInfo> {
      if section in arrays then arrays[section] else map[]
    }
  }

  predicate EndsWith(s: string, suffix: string) {
    |s| >= |suffix| && s[|s| - |suffix|..] == suffix
  }

  /** The sections that a file of this name is loaded with, if it is a VTK file. */
  function Loaded(fname: string): Option<set<Section>> {
    if EndsWith(fname, ".vtu") then Some({POINT_DATA, POINTS, CELL_DATA, CELLS})
    else if EndsWith(fname, ".vts") then Some({POINT_DATA, POINTS, CELL_DATA})
    else if EndsWith(fname, ".vti") then Some({POINT_DATA, CELL_DATA})
    else None
  }

  /** A directory for every section in `loaded`, one for the attributes, and no other. */
  ghost predicate IsTree(subdirs: map<string, Dir>, file: VtkFile, loaded: set<Section>, x: Xml) {
    && METADATA in subdirs && subdirs[METADATA] == MetadataDir(x.attrs)
    && (forall k :: k in subdirs && k != METADATA ==> exists section :: section in loaded && k == DirName(section))
    && forall section :: section in loaded ==>
         DirName(section) in subdirs && IsGroup(subdirs[DirName(section)], file, x.ArraysOf(section))
  }

  lemma TreeGrows(
    subdirs: map<string, Dir>, file: VtkFile, loaded: set<Section>, x: Xml, section: Section, dir: Dir)
    requires IsTree(subdirs, file, loaded, x) && IsGroup(dir, file, x.ArraysOf(section))
    ensures IsTree(subdirs[DirName(section) := dir], file, loaded + {section}, x)
  {
    hide IsGroup, DirName;
    forall other | other in loaded && other != section ensures DirName(other) != DirName(section) {
      if DirName(other) == DirName(section) {
        DirNamesDiffer(other, section);
      }
    }
    var more := subdirs[DirName(section) := dir];
    forall k | k in more && k != METADATA ensures exists s :: s in loaded + {section} && k == DirName(s) {
      if k in subdirs {
        var s :| s in loaded && k == DirName(s);
        assert s in loaded + {section};
      } else {
        assert section in loaded + {section};
      }
    }
  }

  /** One section more; None if an array in it fails. */
  method LoadSection(subdirs: map<string, Dir>, file: VtkFile, ghost loaded: set<Section>, x: Xml, section: Section)
    returns (r: Option<map<string, Dir>>)
    requires IsTree(subdirs, file, loaded, x) && AllInBounds(file, x.ArraysOf(section))
    ensures r.Some? ==> IsTree(r.value, file, loaded + {section}, x)
    ensures AllLoadable(file, x.ArraysOf(section)) ==> r.Some?
  {
    hide IsTree, IsGroup, AllInBounds, AllLoadable, DirName;
    var dir := ParseArrayGroup(file, x.ArraysOf(section));
    if dir == None {
      return None;
    }
    TreeGrows(subdirs, file, loaded, x, section, dir.value);
    r := Some(subdirs[DirName(section) := dir.value]);
  }

  lemma OnlyMetadata(file: VtkFile, x: Xml)
    ensures IsTree(map[METADATA := MetadataDir(x.attrs)], file, {}, x)
  {
  }

  /** The sections loaded: point and cell arrays always, the mesh itself on demand. */
  function Chosen(loadPoints: bool, loadCells: bool): set<Section> {
    {POINT_DATA, CELL_DATA} + (if loadPoints then {POINTS} else {}) + (if loadCells then {CELLS} else {})
  }

  method ParseVtkFileInternal(file: VtkFile, x: Xml, loadPoints: bool, loadCells: bool) returns (r: Option<Dir>)
    requires forall s :: s in Chosen(loadPoints, loadCells) ==> AllInBounds(file, x.ArraysOf(s))
    ensures r.Some? ==> r.value.VtkTree? && IsTree(r.value.subdirs, file, Chosen(loadPoints, loadCells), x)
    ensures (forall s :: s in Chosen(loadPoints, loadCells) ==> AllLoadable(file, x.ArraysOf(s))) ==> r.Some?
  {
    hide IsTree, AllInBounds, AllLoadable, DirName, Xml.ArraysOf;
    OnlyMetadata(file, x);
    ghost var loaded: set<Section> := {};
    var subdirs := LoadSection(map[METADATA := MetadataDir(x.attrs)], file, loaded, x, POINT_DATA);
    if subdirs == None {
      return None;
    }
    loaded := loaded + {POINT_DATA};
    if loadPoints {
      subdirs := LoadSection(subdirs.value, file, loaded, x, POINTS);
      if subdirs == None {
        return None;
      }
      loaded := loaded + {POINTS};
    }
    subdirs := LoadSection(subdirs.value, file, loaded, x, CELL_DATA);
    if subdirs == None {
      return None;
    }
    loaded := loaded + {CELL_DATA};
    if loadCells {
      subdirs := LoadSection(subdirs.value, file, loaded, x, CELLS);
      if subdirs == None {
        return None;
      }
      loaded := loaded + {CELLS};
    }
    assert loaded == Chosen(loadPoints, loadCells);
    r := Some(VtkTree(subdirs.value));
  }

  /** The suffix decides what is loaded; any other name is refused. */
  method ParseVtkFile(fname: string, file: VtkFile, x: Xml) returns (r: Option<Dir>)
    requires Loaded(fname).Some? ==> forall s :: s in Loaded(fname).value ==> AllInBounds(file, x.ArraysOf(s))
    ensures r.Some? ==>
              Loaded(fname).Some? && r.value.VtkTree? && IsTree(r.value.subdirs, file, Loaded(fname).value, x)
    ensures Loaded(fname).Some? && (forall s :: s in Loaded(fname).value ==> AllLoadable(file, x.ArraysOf(s))) ==>
              r.Some?
  {
    hide IsTree, AllInBounds, AllLoadable, EndsWith, Xml.ArraysOf;
    if EndsWith(fname, ".vtu") {
      assert Chosen(true, true) == Loaded(fname).value;
      r := ParseVtkFileInternal(file, x, true, true);
    } else if EndsWith(fname, ".vts") {
      assert Chosen(true, false) == Loaded(fname).value;
      r := ParseVtkFileInternal(file, x, true, false);
    } else if EndsWith(fname, ".vti") {
      assert Chosen(false, false) == Loaded(fname).value;
      r := ParseVtkFileInternal(file, x, false, false);
    } else {
      r := None;
    }
  }

  lemma GroupIsValid(dir: Dir, file: VtkFile, infos: map<string, ArrayInfo>)
    requires IsGroup(dir, file, infos)
    ensures dir.Valid()
  {
    hide IsMapOf, VtkFile.FormatOf, FileMap.Valid, FileName;
    forall k | k in dir.arrMaps ensures dir.arrMaps[k].Valid() {
      var name :| name in infos && k == FileName(name);
      var f, offset := file.FormatOf(name, infos[name]), file.OffsetOf(infos[name]);
      MapIsValid(dir.arrMaps[k], f, file.base, file.enc, file.width, offset);
    }
  }

  /** A tree that was made can be served, whatever of its arrays is there. */
  lemma TreeIsValid(root: Dir, file: VtkFile, loaded: set<Section>, x: Xml)
    requires root.VtkTree? && IsTree(root.subdirs, file, loaded, x)
    ensures root.Valid()
  {
    hide IsGroup, DirName;
    forall k | k in root.subdirs ensures root.subdirs[k].Valid() {
      if k != METADATA {
        var section :| section in loaded && k == DirName(section);
        GroupIsValid(root.subdirs[k], file, x.ArraysOf(section));
      }
    }
  }

  /** The path of an array's file. */
  function PathOf(section: Section, name: string): string {
    match section
    case POINT_DATA => "/pointdata/" + name + ".parquet"
    case POINTS => "/points/" + name + ".parquet"
    case CELL_DATA => "/celldata/" + name + ".parquet"
    case CELLS => "/cells/" + name + ".parquet"
  }

  lemma PathIsJoined(section: Section, name: string)
    ensures PathOf(section, name) == "/" + DirName(section) + "/" + FileName(name)
  {
    Associative("/" + DirName(section) + "/", name, ".parquet");
    assert "/" + DirName(section) + "/" ==
      match section {
        case POINT_DATA => "/pointdata/"
        case POINTS => "/points/"
        case CELL_DATA => "/celldata/"
        case CELLS => "/cells/"
      };
  }

  /** From path to bytes: in the tree made of a VTK file, opening the file of an
      array that the VTK file has, by the path of its group and its name, gives
      the Parquet file that the array stands for, and the size looked up
      beforehand is its length. */
  lemma PathToBytes(
    root: Dir, file: VtkFile, loaded: set<Section>, x: Xml, section: Section, name: CString, a: StoredArray)
    requires root.VtkTree? && IsTree(root.subdirs, file, loaded, x)
    requires section in loaded && name in x.ArraysOf(section) && '/' !in name
    requires file.Stores(a, x.ArraysOf(section)[name])
    ensures var f := Format(file.codec, name, ParseType(x.ArraysOf(section)[name].t), file.compression);
            var path := PathOf(section, name);
            && root.Valid() && Usable(f) && AttrOf(root, path) == Ok(FileAttr(|Image(f, a)|))
            && FileOf(root, path).Ok?
            && var vfile := FileOf(root, path).value;
               vfile.Valid() && vfile.Content() == Image(f, a) && vfile.Complete() &&
               vfile.VirtualFile? && vfile.base == file.base
  {
    hide VtkFile.Stores, VtkFile.Maps, Image, FileMap.Valid, FileMap.View, FileMap.BackedBy, FileMap.Present,
      FileMap.FileSize, Resolved, DirName, PathOf, AttrOf, FileOf, DirOf, Dir.Valid, Usable, Xml.ArraysOf;
    var info, dir, key := x.ArraysOf(section)[name], root.subdirs[DirName(section)], FileName(name);
    TreeIsValid(root, file, loaded, x);
    GroupIsListed(root, DirName(section));
    MappedArray(dir.arrMaps[key], file, name, info, a);
    ListedIsThere(root, "/" + DirName(section), key);
    PathIsJoined(section, name);
  }

  /** Reading an array through its path: over a file that the array is in, what
      comes back is its Parquet file, and over a steady one it comes. */
  method ReadArray(
    root: Dir, file: VtkFile, ghost loaded: set<Section>, ghost x: Xml, section: Section, name: CString,
    ghost a: StoredArray, bufsz: nat)
    returns (r: Option<seq<byte>>)
    requires root.VtkTree? && IsTree(root.subdirs, file, loaded, x) && 0 < bufsz < TWO31
    requires section in loaded && name in x.ArraysOf(section) && '/' !in name
    requires file.Stores(a, x.ArraysOf(section)[name])
    ensures var f := Format(file.codec, name, ParseType(x.ArraysOf(section)[name].t), file.compression);
            Usable(f) && (r.Some? ==> r.value == Image(f, a))
    ensures file.base.Steady() ==> r.Some?
  {
    hide IsTree, VtkFile.Stores, Image, FileOf, AttrOf, Dir.Valid, VFile.Content, VFile.Present, DirName, Xml.ArraysOf,
      Usable, VFile.Valid;
    PathToBytes(root, file, loaded, x, section, name, a);
    r := ReadPath(root, PathOf(section, name), bufsz);
  }

  /** A root attribute of the VTK file is a file with its value, under METADATA. */
  lemma AttributeToText(root: Dir, file: VtkFile, loaded: set<Section>, x: Xml, key: CString)
    requires root.VtkTree? && IsTree(root.subdirs, file, loaded, x)
    requires key in x.attrs && key != [] && '/' !in key
    ensures var path := "/METADATA/" + key;
            && root.Valid() && AttrOf(root, path) == Ok(FileAttr(|x.attrs[key]|))
            && FileOf(root, path).Ok?
            && var vfile := FileOf(root, path).value;
               vfile.Valid() && vfile.Content() == x.attrs[key] && vfile.Complete() && vfile.Steady()
  {
    hide IsGroup, DirName, Resolved, AttrOf, FileOf, DirOf, Dir.Valid;
    TreeIsValid(root, file, loaded, x);
    GroupIsListed(root, "METADATA");
    ListedIsThere(root, "/" + "METADATA", key);
    assert "/" + "METADATA" + "/" + key == "/METADATA/" + key;
  }

  /** Reading it by that path gives the value. */
  method ReadAttribute(
    root: Dir, ghost file: VtkFile, ghost loaded: set<Section>, ghost x: Xml, key: CString, bufsz: nat)
    returns (r: Option<seq<byte>>)
    requires root.VtkTree? && IsTree(root.subdirs, file, loaded, x) && 0 < bufsz < TWO31
    requires key in x.attrs && key != [] && '/' !in key
    ensures r == Some(x.attrs[key])
  {
    hide IsTree, FileOf, AttrOf, Dir.Valid, VFile.Content, VFile.Present, VFile.Valid, VFile.Steady;
    AttributeToText(root, file, loaded, x, key);
    r := ReadPath(root, "/METADATA/" + key, bufsz);
  }

  /** The root holds the attributes and the sections that go with the suffix of the
      file's name; any other name is no VTK file. */
  lemma RootHolds(root: Dir, file: VtkFile, x: Xml, stem: string, fname: string)
    requires Loaded(fname).Some? && root.VtkTree? && IsTree(root.subdirs, file, Loaded(fname).value, x)
    ensures root.Valid() && DirOf(root, "/") == Ok(root)
    ensures fname == stem + ".vtu" ==> root.Keys() == {"METADATA", "pointdata", "points", "celldata", "cells"}
    ensures fname == stem + ".vts" ==> root.Keys() == {"METADATA", "pointdata", "points", "celldata"}
    ensures fname == stem + ".vti" ==> root.Keys() == {"METADATA", "pointdata", "celldata"}
  {
    hide IsGroup, IsTree, Loaded, EndsWith, Dir.Valid, DirOf;
    TreeIsValid(root, file, Loaded(fname).value, x);
    RootIsThere(root, "/");
    SuffixDecides(stem, fname);
    KeysAre(root, file, Loaded(fname).value, x);
  }

  lemma KeysAre(root: Dir, file: VtkFile, loaded: set<Section>, x: Xml)
    requires root.VtkTree? && IsTree(root.subdirs, file, loaded, x)
    ensures root.Keys() == {"METADATA"} + set s | s in loaded :: DirName(s)
  {
    hide IsGroup, DirName;
  }

  lemma SuffixDecides(stem: string, fname: string)
    ensures fname == stem + ".vtu" ==> Loaded(fname) == Some({POINT_DATA, POINTS, CELL_DATA, CELLS})
    ensures fname == stem + ".vts" ==> Loaded(fname) == Some({POINT_DATA, POINTS, CELL_DATA})
    ensures fname == stem + ".vti" ==> Loaded(fname) == Some({POINT_DATA, CELL_DATA})
    ensures Loaded(fname).Some? ==>
              exists s :: fname == s + ".vtu" || fname == s + ".vts" || fname == s + ".vti"
  {
    var n := |fname|;
    if Loaded(fname).Some? {
      assert fname == fname[..n - 4] + fname[n - 4..];
    }
    var m := |stem|;
    assert (stem + ".vtu")[m..] == ".vtu" && (stem + ".vts")[m..] == ".vts" && (stem + ".vti")[m..] == ".vti";
    assert ".vtu"[3] != ".vts"[3] && ".vtu"[3] != ".vti"[3] && ".vts"[3] != ".vti"[3];
  }

  /** An array that is there and within bounds, over a steady file, is loaded. */
  lemma StoredIsLoadable(file: VtkFile, name: string, info: ArrayInfo, a: StoredArray)
    requires file.Stores(a, info) && FitsArray(Format(file.codec, name, ParseType(info.t), file.compression), a)
    ensures file.InBounds(name, info)
    ensures file.base.Steady() && info.format == "appended" ==> file.Loadable(name, info)
  {
    hide IsStored, BeginsArray, HeaderFits, Readable, FitsArray;
    TextAtTwice(file.base.bytes, file.appendedDataPos, info.offset);
    FitsUsable(file.FormatOf(name, info), a);
    assert IsStored(a, file.FormatOf(name, info), file.base, file.enc, file.width, file.OffsetOf(info)) by {
      StoredWhere(file, name, info, a);
    }
    StoredArrayLoads(file.FormatOf(name, info), file.base, file.enc, file.width, file.OffsetOf(info), a);
  }

  lemma FitsUsable(f: Format, a: StoredArray)
    requires FitsArray(f, a)
    ensures Usable(f)
  {
  }

  lemma TextAtTwice(bytes: seq<byte>, start: nat, more: nat)
    ensures TextAt(TextAt(bytes, start), more) == TextAt(bytes, start + more)
  {
    if start + more <= |bytes| {
      DropDrop(bytes, start, more);
    }
  }

  lemma StoredWhere(file: VtkFile, name: string, info: ArrayInfo, a: StoredArray)
    requires file.Stores(a, info)
    ensures IsStored(a, file.FormatOf(name, info), file.base, file.enc, file.width, file.OffsetOf(info))
  {
    hide BeginsArray;
    TextAtTwice(file.base.bytes, file.appendedDataPos, info.offset);
  }

  lemma MappedArray(fm: FileMap, file: VtkFile, name: string, info: ArrayInfo, a: StoredArray)
    requires file.Maps(fm, name, info) && file.Stores(a, info)
    ensures Usable(file.FormatOf(name, info)) && fm.Valid() && fm.BackedBy(file.base)
    ensures fm.View(file.base) == Image(file.FormatOf(name, info), a)
    ensures fm.FileSize() == |Image(file.FormatOf(name, info), a)| && fm.Present(file.base, 0, fm.FileSize())
  {
    hide IsMapOf, IsStored, FileMap.Present, FileMap.View, FileMap.BackedBy, Image, Usable, VtkFile.Stores;
    StoredWhere(file, name, info, a);
    ArrayEndToEnd(fm, file.FormatOf(name, info), file.base, file.enc, file.width, file.OffsetOf(info), a);
    fm.EverythingPresent(file.base, 0, fm.FileSize());
  }

  lemma GroupIsListed(root: Dir, group: CString)
    requires root.Valid() && root.VtkTree? && group in root.subdirs && group != [] && '/' !in group
    ensures DirOf(root, "/" + group) == Ok(root.subdirs[group])
  {
    hide Components;
    LeadingSlash(group);
    OneComponent(group);
    DirOfIsDescend(root, "/" + group);
    DescendStep(root, [group]);
    assert [group][1..] == [];
  }
}
