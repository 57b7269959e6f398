/** The read-only tree of directories and files (vfs.cc), and reading a file to
    its end (c.cc:211-219, bench.c:68-85). */
module Vfs {
  import opened Bytes
  import opened Storage
  import opened Base64
  import opened FileMaps

  datatype VFile = StringBufFile(text: seq<byte>) | VirtualFile(fm: FileMap, base: OSFile) {

    ghost predicate Valid() {
      VirtualFile? ==> fm.Valid()
    }

    /** Reads of this file do not fail for want of the system: short reads do no
        harm unless base64 has to be decoded. */
    predicate Steady() {
      VirtualFile? ==> fm.Delivers(base)
    }

    function Content(): (s: seq<byte>)
      requires Valid()
    {
      if StringBufFile? then text else fm.View(base)
    }

    /** What a request wants is there. */
    ghost predicate Present(size: nat, offset: nat)
      requires Valid()
    {
      VirtualFile? ==> fm.Present(base, offset, size)
    }

    /** All of the file is there. */
    ghost predicate Complete()
      requires Valid()
    {
      Present(|Content()|, 0)
    }

    /** A request that is answered, one way or the other: only a raw mapped file
        that lacks what is wanted does not. */
    ghost predicate Serves(size: nat, offset: nat)
      requires Valid()
    {
      Present(size, offset) || (VirtualFile? && fm.base64)
    }

    /** Base64 under this file at most breaks off. */
    ghost predicate AtMostBreaksOff() {
      VirtualFile? && fm.base64 ==> Unbroken(TextAt(base.bytes, fm.dataStart))
    }

    /** What a request is answered with, if it can be. */
    ghost function Answer(size: nat, offset: nat): (r: Option<seq<byte>>)
      requires Valid()
      ensures r.Some? ==> |r.value| == Available(Content(), size, offset)
    {
      match this
      case StringBufFile(text) => Some(Part(text, offset, size))
      case VirtualFile(fm, base) =>
        fm.ViewLength(base);
        fm.Answer(base, offset, size)
    }

    /** A request for what is there is answered with that part of the content, and
        in what at most breaks off no other is answered. */
    lemma AnswerIsContent(size: nat, offset: nat)
      requires Valid()
      ensures Present(size, offset) ==> Answer(size, offset) == Some(Part(Content(), offset, size))
      ensures AtMostBreaksOff() ==> (Answer(size, offset).Some? <==> Present(size, offset))
    {
      hide FileMap.Valid, FileMap.Present, FileMap.Answer, FileMap.View, Unbroken;
      if VirtualFile? {
        fm.AnswerWhenPresent(base, offset, size);
        if AtMostBreaksOff() {
          fm.AnswerIffPresent(base, offset, size);
        }
      }
    }

    method Pread(buf: array<byte>, size: nat, offset: nat) returns (nr: int)
      requires Valid() && Serves(size, offset) && size <= buf.Length
      modifies buf
      ensures nr == -1 || nr == Available(Content(), size, offset)
      ensures nr >= 0 ==> Answer(size, offset) == Some(buf[..nr])
      ensures nr > 0 && Present(size, offset) ==>
                offset + nr <= |Content()| && buf[..nr] == Content()[offset..offset + nr]
      ensures Steady() && Answer(size, offset).Some? ==> nr != -1
    {
      hide FileMap.Valid, FileMap.BackedBy, FileMap.Present, FileMap.Answer, FileMap.View, FileMap.Delivers,
        FileMap.FileSize, Untouched;
      AnswerIsContent(size, offset);
      match this
      case StringBufFile(text) =>
        if offset < |text| {
          var nbytes: nat := Min(|text| - offset, size);
          Memcpy(buf, 0, text[offset..offset + nbytes]);
          nr := nbytes;
        } else {
          nr := 0;
        }
        assert buf[..][0..nr] == buf[..nr];
      case VirtualFile(fm, base) =>
        fm.ViewLength(base);
        nr := fm.Pread(base, buf, 0, size, offset);
        assert nr >= 0 ==> buf[..][0..nr] == buf[..nr];
    }
  }

  const EIO := 5

  /** The byte count as it reaches the caller, through a 32-bit `int`. */
  function Reported(nr: int): int {
    if ToI32(nr) == -1 then -EIO else ToI32(nr)
  }

  /** A count that reads as -1 is an input/output error. */
  lemma ErrorReported()
    ensures Reported(-1) == Reported(0xFFFF_FFFF) == -5
  {
  }

  /** A count survives the `int` exactly when it is below 2^31. */
  lemma ReportedIffSmall(nr: nat)
    ensures Reported(nr) == nr <==> nr < TWO31
  {
  }

  lemma Narrowed(s: seq<byte>, size: nat, offset: nat)
    ensures ToI32(-1) == -1
    ensures size < TWO31 ==> ToI32(Available(s, size, offset)) == Available(s, size, offset)
    ensures Available(s, size, offset) <= size && Reported(Available(s, size, offset)) <= size
  {
  }

  method Read(file: VFile, buf: array<byte>, size: nat, offset: nat) returns (r: int)
    requires file.Valid() && file.Serves(size, offset) && size <= buf.Length
    modifies buf
    ensures r <= size
    ensures r == -EIO || (file.Answer(size, offset).Some? && r == Reported(Available(file.Content(), size, offset)))
    ensures file.Steady() && file.Answer(size, offset).Some? ==> r == Reported(Available(file.Content(), size, offset))
    ensures size < TWO31 && r >= 0 ==> file.Answer(size, offset) == Some(buf[..r])
  {
    hide VFile.Valid, VFile.Content, VFile.Serves, VFile.Answer, VFile.Steady, ToI32, Available;
    var full := file.Pread(buf, size, offset);
    var nr := ToI32(full);
    Narrowed(file.Content(), size, offset);
    if nr == -1 {
      return -EIO;
    }
    r := nr;
  }

  /** A chunk of a whole file. */
  lemma ChunkServed(file: VFile, size: nat, offset: nat)
    requires file.Valid() && offset <= |file.Content()|
    ensures file.Complete() ==> file.Present(size, offset)
    ensures file.Serves(|file.Content()|, 0) ==> file.Serves(size, offset)
    ensures file.Present(offset, 0) && file.Present(size, offset) ==>
              file.Present(offset + Available(file.Content(), size, offset), 0)
    ensures file.Present(0, 0)
  {
    hide FileMap.Present, FileMap.View, FileMap.Valid, FileMap.FileSize;
    if file.VirtualFile? {
      var fm, base := file.fm, file.base;
      fm.ViewLength(base);
      fm.NothingWanted(base, 0, 0);
      if file.Complete() {
        fm.PresentSub(base, 0, |file.Content()|, offset, size);
      }
      if file.Present(offset, 0) && file.Present(size, offset) {
        fm.PresentJoin(base, 0, offset, size);
        fm.PresentSub(base, 0, offset + size, 0, offset + Available(file.Content(), size, offset));
      }
    }
  }

  /** Reads on until a short count: the whole file if it is all there. If it is
      not, because base64 breaks off, an error. */
  method ReadWhole(file: VFile, bufsz: nat) returns (r: Option<seq<byte>>)
    requires file.Valid() && file.Serves(|file.Content()|, 0) && 0 < bufsz < TWO31
    ensures file.Complete() && r.Some? ==> r.value == file.Content()
    ensures file.Complete() && file.Steady() ==> r.Some?
    ensures file.AtMostBreaksOff() && r.Some? ==> file.Complete()
  {
    hide VFile.Valid, VFile.Content, VFile.Present, VFile.Serves, VFile.Answer, VFile.AtMostBreaksOff, VFile.Steady,
      ToI32;
    var buf := new byte[bufsz];
    var out: seq<byte> := [];
    ghost var content := file.Content();
    ChunkServed(file, bufsz, 0);
    while true
      invariant |out| <= |content|
      invariant file.Complete() ==> out == content[..|out|]
      invariant file.AtMostBreaksOff() ==> file.Present(|out|, 0)
      decreases |content| - |out|
    {
      ChunkServed(file, bufsz, |out|);
      file.AnswerIsContent(bufsz, |out|);
      var nr := Read(file, buf, bufsz, |out|);
      Narrowed(content, bufsz, |out|);
      if nr < 0 {
        return None;
      }
      Adjacent(content, 0, |out|, |out| + nr);
      out := out + buf[..nr];
      if nr < bufsz {
        break;
      }
    }
    r := Some(out);
  }

  datatype FileStat = FileStat(fileSize: nat, isDir: bool)

  datatype Dir =
    | MetadataDir(texts: map<string, seq<byte>>)
    | ArrayDir(arrMaps: map<string, FileMap>, base: OSFile)
    | VtkTree(subdirs: map<string, Dir>)
  {
    ghost predicate Valid() {
      match this
      case MetadataDir(_) => true
      case ArrayDir(arrMaps, _) => forall k :: k in arrMaps ==> arrMaps[k].Valid()
      case VtkTree(subdirs) => forall k :: k in subdirs ==> subdirs[k].Valid()
    }

    function Keys(): set<string> {
      match this
      case MetadataDir(texts) => texts.Keys
      case ArrayDir(arrMaps, _) => arrMaps.Keys
      case VtkTree(subdirs) => subdirs.Keys
    }

    function Stat(name: string): Option<FileStat>
      requires Valid()
    {
      match this
      case MetadataDir(texts) => if name in texts then Some(FileStat(|texts[name]|, false)) else None
      case ArrayDir(arrMaps, _) => if name in arrMaps then Some(FileStat(arrMaps[name].FileSize(), false)) else None
      case VtkTree(subdirs) => if name in subdirs then Some(FileStat(0, true)) else None
    }

    /** None is the null pointer. */
    function GetDir(name: string): Option<Dir> {
      if VtkTree? && name in subdirs then Some(subdirs[name]) else None
    }

    /** None is the null pointer, or the exception for a missing key. */
    function Open(name: string): Option<VFile> {
      match this
      case MetadataDir(texts) => if name in texts then Some(StringBufFile(texts[name])) else None
      case ArrayDir(arrMaps, base) => if name in arrMaps then Some(VirtualFile(arrMaps[name], base)) else None
      case VtkTree(_) => None
    }

    /** What `Stat` says, `GetDir` and `Open` bear out: a directory opens as a
        directory, a file as a file of the stated size. */
    lemma StatIsTrue(name: string)
      requires Valid()
      ensures Stat(name).Some? <==> name in Keys()
      ensures Stat(name).Some? && Stat(name).value.isDir <==> GetDir(name).Some?
      ensures Stat(name).Some? && !Stat(name).value.isDir <==> Open(name).Some?
      ensures GetDir(name).Some? ==> GetDir(name).value.Valid()
      ensures Open(name).Some? ==>
                Open(name).value.Valid() && |Open(name).value.Content()| == Stat(name).value.fileSize
    {
      if ArrayDir? && name in arrMaps {
        arrMaps[name].ViewLength(base);
      }
    }
  }

  /** The part of a string that a C caller sees. */
  function CStr(s: string): (r: string)
    ensures r <= s && '\0' !in r && (|r| < |s| ==> s[|r|] == '\0')
  {
    if s == [] || s[0] == '\0' then [] else [s[0]] + CStr(s[1..])
  }

  lemma {:induction false} CStrWhole(s: string)
    ensures CStr(s) == s <==> '\0' !in s
  {
    if s != [] {
      CStrWhole(s[1..]);
      assert s == [s[0]] + s[1..];
    }
  }

  ghost predicate Enumerates(order: seq<string>, keys: set<string>) {
    && (forall k :: k in keys <==> k in order)
    && (forall i, j :: 0 <= i < j < |order| ==> order[i] != order[j])
  }

  /** Iterates over the keys of a map, in whatever order the map has. */
  class KeyIter {
    const keys: set<string>
    const order: seq<string>
    var pos: nat

    ghost predicate WellFormed()
      reads this
    {
      Enumerates(order, keys) && pos <= |order|
    }

    /** A new iterator stands at the end. */
    constructor (keys: set<string>)
      ensures WellFormed() && this.keys == keys && pos == |order|
    {
      var order, left := [], keys;
      while left != {}
        invariant left <= keys
        invariant forall k :: k in keys - left <==> k in order
        invariant forall i, j :: 0 <= i < j < |order| ==> order[i] != order[j]
        decreases left
      {
        var k :| k in left;
        assert k !in order;
        order, left := order + [k], left - {k};
      }
      this.keys, this.order, this.pos := keys, order, |order|;
    }

    predicate Valid()
      reads this
    {
      pos < |order|
    }

    function Value(): string
      reads this
      requires Valid()
    {
      CStr(order[pos])
    }

    method Next()
      requires WellFormed() && Valid()
      modifies this
      ensures WellFormed() && pos == old(pos) + 1
    {
      pos := pos + 1;
    }

    method SeekToFirst()
      requires WellFormed()
      modifies this
      ensures WellFormed() && pos == 0
    {
      pos := 0;
    }
  }

  /** The names a listing hands out for keys in a given order. */
  function Names(order: seq<string>): (names: seq<string>)
    ensures |names| == |order|
  {
    seq(|order|, i requires 0 <= i < |order| => CStr(order[i]))
  }

  /** Lists a directory: every key once, as a C string. */
  method ListDir(dir: Dir) returns (names: seq<string>)
    ensures exists order :: Enumerates(order, dir.Keys()) && names == Names(order)
  {
    names := [];
    var it := new KeyIter(dir.Keys());
    it.SeekToFirst();
    while it.Valid()
      invariant it.WellFormed() && fresh(it) && it.keys == dir.Keys()
      invariant names == Names(it.order)[..it.pos]
      decreases |it.order| - it.pos
    {
      names := names + [it.Value()];
      it.Next();
    }
    assert names == Names(it.order);
  }

  /** With no NUL inside any key, a listing is the keys themselves, each once. */
  lemma ListingIsExact(order: seq<string>, keys: set<string>)
    requires Enumerates(order, keys) && forall k :: k in keys ==> '\0' !in k
    ensures Names(order) == order && Enumerates(Names(order), keys)
  {
    forall i | 0 <= i < |order| ensures CStr(order[i]) == order[i] {
      CStrWhole(order[i]);
    }
    assert Names(order) == order;
  }

  /** No name is listed twice exactly when no two keys look alike to C. */
  lemma ListingDistinctIff(order: seq<string>, keys: set<string>)
    requires Enumerates(order, keys)
    ensures (forall i, j :: 0 <= i < j < |order| ==> Names(order)[i] != Names(order)[j])
            <==> (forall a, b :: a in keys && b in keys && a != b ==> CStr(a) != CStr(b))
  {
    hide CStr;
    if forall i, j :: 0 <= i < j < |order| ==> Names(order)[i] != Names(order)[j] {
      forall a, b | a in keys && b in keys && a != b ensures CStr(a) != CStr(b) {
        var i :| 0 <= i < |order| && order[i] == a;
        var j :| 0 <= j < |order| && order[j] == b;
        assert Names(order)[i] == CStr(a) && Names(order)[j] == CStr(b);
      }
    } else {
      var i, j :| 0 <= i < j < |order| && Names(order)[i] == Names(order)[j];
      assert order[i] in keys && order[j] in keys && CStr(order[i]) == CStr(order[j]);
    }
  }
}
