/** Path resolution and the operations behind it (c.cc:44-209). */
module Paths {
  import opened Bytes
  import opened Vfs

  const EINVAL := 22
  const ENOENT := 2
  const ENOTDIR := 20
  const EISDIR := 21

  /** What a `char*` points to: the text before the terminating NUL. */
  type CString = s: string | '\0' !in s witness ""

  datatype Result<+T> = Ok(value: T) | Err(errno: int)

  // Paths as their components.

  function SkipSlashes(s: string): (r: string)
    ensures |r| <= |s|
    ensures r != [] ==> r[0] != '/'
  {
    if s != [] && s[0] == '/' then SkipSlashes(s[1..]) else s
  }

  /** The text up to the next slash. */
  function Head(s: string): (r: string)
    ensures |r| <= |s|
  {
    if s == [] || s[0] == '/' then [] else [s[0]] + Head(s[1..])
  }

  function Tail(s: string): (r: string)
    ensures |r| <= |s|
    ensures s != [] && s[0] != '/' ==> |r| < |s|
  {
    if s == [] || s[0] == '/' then s else Tail(s[1..])
  }

  /** The non-empty stretches between slashes. */
  function Components(s: string): seq<string>
    decreases |s|
  {
    var t := SkipSlashes(s);
    if t == [] then [] else [Head(t)] + Components(Tail(t))
  }

  /** A slash more at the front changes nothing. */
  lemma LeadingSlash(s: string)
    ensures Components("/" + s) == Components(s)
  {
    assert ("/" + s)[1..] == s;
  }

  lemma {:induction false} HeadTailAppend(a: string, b: string)
    ensures Head(a + "/" + b) == Head(a)
    ensures Tail(a + "/" + b) == Tail(a) + "/" + b
    decreases |a|
  {
    if a != [] && a[0] != '/' {
      assert (a + "/" + b)[1..] == a[1..] + "/" + b;
      HeadTailAppend(a[1..], b);
    }
  }

  /** Joining two paths with a slash joins their components; so slashes repeated
      or trailing anywhere in a path never matter. */
  lemma {:induction false} ComponentsOfJoin(a: string, b: string)
    ensures Components(a + "/" + b) == Components(a) + Components(b)
    decreases |a|
  {
    hide Head, Tail;
    if a == [] {
      LeadingSlash(b);
      assert a + "/" + b == "/" + b;
    } else if a[0] == '/' {
      assert a == "/" + a[1..];
      ComponentsOfJoin(a[1..], b);
      LeadingSlash(a[1..]);
      assert a + "/" + b == "/" + (a[1..] + "/" + b);
      LeadingSlash(a[1..] + "/" + b);
    } else {
      HeadTailAppend(a, b);
      ComponentsOfJoin(Tail(a), b);
      assert SkipSlashes(a) == a && SkipSlashes(a + "/" + b) == a + "/" + b;
      Associative([Head(a)], Components(Tail(a)), Components(b));
    }
  }

  /** A doubled or a trailing slash anywhere leaves the components alone. */
  lemma SlashesDoNotMatter(a: string, b: string)
    ensures Components(a + "//" + b) == Components(a + "/" + b)
    ensures Components(a + "/") == Components(a)
  {
    ComponentsOfJoin(a, b);
    ComponentsOfJoin(a, "/" + b);
    LeadingSlash(b);
    assert a + "/" + ("/" + b) == a + "//" + b;
    ComponentsOfJoin(a, "");
    assert a + "/" + "" == a + "/";
    assert Components(a) + [] == Components(a);
  }

  lemma {:induction false} OneComponent(k: string)
    requires k != [] && '/' !in k
    ensures Components(k) == [k]
  {
    HeadOfPlain(k);
  }

  lemma {:induction false} HeadOfPlain(k: string)
    requires '/' !in k
    ensures Head(k) == k && Tail(k) == []
  {
    if k != [] {
      HeadOfPlain(k[1..]);
      assert k == [k[0]] + k[1..];
    }
  }

  // Resolution.

  datatype LookupRes = DIR | FILE | NOTFOUND

  function Lookup(dir: Dir, name: string): LookupRes
    requires dir.Valid()
  {
    match dir.Stat(name)
    case None => NOTFOUND
    case Some(stat) => if stat.isDir then DIR else FILE
  }

  /** A parent directory and a name in it; an empty name is the root itself. */
  datatype Entry = Entry(parent: Dir, name: string)

  /** The directory reached by descending through `comps`. */
  function Descend(dir: Dir, comps: seq<string>): (r: Result<Dir>)
    requires dir.Valid()
    ensures r.Ok? ==> r.value.Valid()
    decreases |comps|
  {
    if comps == [] then Ok(dir)
    else
      dir.StatIsTrue(comps[0]);
      match Lookup(dir, comps[0])
      case DIR => Descend(dir.GetDir(comps[0]).value, comps[1..])
      case FILE => Err(ENOTDIR)
      case NOTFOUND => Err(ENOENT)
  }

  /** What a path stands for: descend through all components but the last. */
  function Resolved(root: Dir, path: string): (r: Result<Entry>)
    requires root.Valid()
    ensures r.Ok? ==> r.value.parent.Valid()
  {
    var comps := Components(path);
    if path == [] || path[0] != '/' then Err(EINVAL)
    else if comps == [] then Ok(Entry(root, ""))
    else
      match Descend(root, comps[..|comps| - 1])
      case Err(e) => Err(e)
      case Ok(parent) => Ok(Entry(parent, comps[|comps| - 1]))
  }

  lemma DescendStep(dir: Dir, comps: seq<string>)
    requires dir.Valid() && comps != []
    ensures Descend(dir, comps) ==
            match Lookup(dir, comps[0])
            case DIR => (dir.StatIsTrue(comps[0]); Descend(dir.GetDir(comps[0]).value, comps[1..]))
            case FILE => Err(ENOTDIR)
            case NOTFOUND => Err(ENOENT)
  {
  }

  /** Passes over a run of slashes. */
  method ScanSlashes(path: string, p: nat) returns (q: nat)
    requires p <= |path|
    ensures p <= q <= |path| && SkipSlashes(path[p..]) == path[q..]
  {
    q := p;
    while q < |path| && path[q] == '/'
      invariant p <= q <= |path| && SkipSlashes(path[p..]) == SkipSlashes(path[q..])
    {
      DropDrop(path, q, 1);
      q := q + 1;
    }
  }

  /** Passes over a name. */
  method ScanName(path: string, p: nat) returns (q: nat)
    requires p <= |path|
    ensures p <= q <= |path| && Head(path[p..]) == path[p..q] && Tail(path[p..]) == path[q..]
  {
    q := p;
    while q < |path| && path[q] != '/'
      invariant p <= q <= |path|
      invariant Head(path[p..]) == path[p..q] + Head(path[q..]) && Tail(path[p..]) == Tail(path[q..])
    {
      NameStep(path, p, q);
      q := q + 1;
    }
    assert path[p..q] + [] == path[p..q];
  }

  lemma NameStep(path: string, p: nat, q: nat)
    requires p <= q < |path| && path[q] != '/'
    ensures path[p..q] + Head(path[q..]) == path[p..q + 1] + Head(path[q + 1..])
    ensures Tail(path[q..]) == Tail(path[q + 1..])
  {
    DropDrop(path, q, 1);
    var more := Head(path[q + 1..]);
    assert path[p..q + 1] == path[p..q] + [path[q]];
    Associative(path[p..q], [path[q]], more);
  }

  method ResolvePath(root: Dir, path: Option<CString>) returns (r: Result<Entry>)
    requires root.Valid()
    ensures r == if path == None then Err(EINVAL) else Resolved(root, path.value)
  {
    if path == None || path.value == [] || path.value[0] != '/' {
      return Err(EINVAL);
    }
    var s: string := path.value;
    assert s[0..] == s;
    var p := ScanSlashes(s, 0);
    if p == |s| {
      return Ok(Entry(root, ""));
    }
    var parent := root;
    ghost var comps := Components(s);
    assert Pending(root, s, parent, comps);
    while true
      invariant p < |s| && s[p] != '/' && parent.Valid()
      invariant comps != [] && comps == [Head(s[p..])] + Components(Tail(s[p..]))
      invariant Pending(root, s, parent, comps)
      decreases |s| - p
    {
      var q := p;
      p := ScanName(s, p);
      var name := s[q..p];
      var after := ScanSlashes(s, p);
      assert Components(s[p..]) == if after == |s| then [] else [Head(s[after..])] + Components(Tail(s[after..]));
      p := after;
      if p == |s| {
        assert comps == [name];
        return Ok(Entry(parent, name));
      }
      PendingStep(root, s, parent, comps);
      parent.StatIsTrue(name);
      var found := Lookup(parent, name);
      if found == DIR {
        parent := parent.GetDir(name).value;
      } else if found == FILE {
        return Err(ENOTDIR);
      } else {
        return Err(ENOENT);
      }
      comps := comps[1..];
    }
  }

  /** What is left to do from `parent` with `comps` is what the whole path asks for. */
  ghost predicate Pending(root: Dir, s: string, parent: Dir, comps: seq<string>)
    requires root.Valid() && parent.Valid()
  {
    comps != [] &&
    Resolved(root, s) ==
    match Descend(parent, comps[..|comps| - 1])
    case Err(e) => Err(e)
    case Ok(dir) => Ok(Entry(dir, comps[|comps| - 1]))
  }

  lemma PendingStep(root: Dir, s: string, parent: Dir, comps: seq<string>)
    requires root.Valid() && parent.Valid() && Pending(root, s, parent, comps) && |comps| > 1
    ensures match Lookup(parent, comps[0])
            case DIR => (parent.StatIsTrue(comps[0]); Pending(root, s, parent.GetDir(comps[0]).value, comps[1..]))
            case FILE => Resolved(root, s) == Err(ENOTDIR)
            case NOTFOUND => Resolved(root, s) == Err(ENOENT)
  {
    hide Resolved, Dir.Valid, Lookup;
    parent.StatIsTrue(comps[0]);
    DescendStep(parent, comps[..|comps| - 1]);
    assert comps[..|comps| - 1][1..] == comps[1..][..|comps[1..]| - 1];
  }

  // The operations.

  datatype Attr = DirAttr | FileAttr(size: nat)

  method Getattr(root: Dir, path: Option<CString>) returns (r: Result<Attr>)
    requires root.Valid()
    ensures r == if path == None then Err(EINVAL) else AttrOf(root, path.value)
  {
    var e := ResolvePath(root, path);
    if e.Err? {
      return Err(e.errno);
    }
    if e.value.name == [] {
      return Ok(DirAttr);
    }
    var stat := e.value.parent.Stat(e.value.name);
    if stat == None {
      return Err(ENOENT);
    }
    r := Ok(if stat.value.isDir then DirAttr else FileAttr(stat.value.fileSize));
  }

  method Open(root: Dir, path: Option<CString>) returns (r: Result<VFile>)
    requires root.Valid()
    ensures r == if path == None then Err(EINVAL) else FileOf(root, path.value)
    ensures r.Ok? ==> r.value.Valid()
  {
    var e := ResolvePath(root, path);
    if e.Err? {
      return Err(e.errno);
    }
    if e.value.name == [] {
      return Err(EISDIR);
    }
    e.value.parent.StatIsTrue(e.value.name);
    var found := Lookup(e.value.parent, e.value.name);
    if found == DIR {
      return Err(EISDIR);
    } else if found == FILE {
      return Ok(e.value.parent.Open(e.value.name).value);
    }
    r := Err(ENOENT);
  }

  /** Opens a file by its path and reads it to its end (bench.c:69-86). */
  method ReadPath(root: Dir, path: CString, bufsz: nat) returns (r: Option<seq<byte>>)
    requires root.Valid() && 0 < bufsz < TWO31
    requires FileOf(root, path).Ok? ==>
               var file := FileOf(root, path).value;
               file.Valid() && file.Serves(|file.Content()|, 0)
    ensures match FileOf(root, path)
            case Err(_) => r == None
            case Ok(file) =>
              && (file.Complete() && r.Some? ==> r.value == file.Content())
              && (file.Complete() && file.Steady() ==> r.Some?)
              && (file.AtMostBreaksOff() && r.Some? ==> file.Complete())
  {
    hide FileOf, Dir.Valid, VFile.Valid, VFile.Content, VFile.Present, VFile.Serves, VFile.AtMostBreaksOff,
      VFile.Steady;
    var file := Open(root, Some(path));
    if file.Err? {
      return None;
    }
    r := ReadWhole(file.value, bufsz);
  }

  method Readdir(root: Dir, path: Option<CString>) returns (r: Result<seq<string>>)
    requires root.Valid()
    ensures path == None ==> r == Err(EINVAL)
    ensures path.Some? ==>
              match DirOf(root, path.value)
              case Err(e) => r == Err(e)
              case Ok(dir) => r.Ok? && exists order :: Enumerates(order, dir.Keys()) && r.value == Names(order)
  {
    var e := ResolvePath(root, path);
    if e.Err? {
      return Err(e.errno);
    }
    var dir := e.value.parent;
    if e.value.name != [] {
      e.value.parent.StatIsTrue(e.value.name);
      var found := Lookup(e.value.parent, e.value.name);
      if found == FILE {
        return Err(ENOTDIR);
      } else if found == NOTFOUND {
        return Err(ENOENT);
      }
      dir := e.value.parent.GetDir(e.value.name).value;
    }
    var names := ListDir(dir);
    r := Ok(names);
  }

  function AttrOf(root: Dir, path: string): Result<Attr>
    requires root.Valid()
  {
    match Resolved(root, path)
    case Err(e) => Err(e)
    case Ok(Entry(parent, name)) =>
      if name == [] then Ok(DirAttr)
      else
        match parent.Stat(name)
        case None => Err(ENOENT)
        case Some(stat) => Ok(if stat.isDir then DirAttr else FileAttr(stat.fileSize))
  }

  function FileOf(root: Dir, path: string): Result<VFile>
    requires root.Valid()
  {
    match Resolved(root, path)
    case Err(e) => Err(e)
    case Ok(Entry(parent, name)) =>
      if name == [] then Err(EISDIR)
      else
        parent.StatIsTrue(name);
        match Lookup(parent, name)
        case DIR => Err(EISDIR)
        case FILE => Ok(parent.Open(name).value)
        case NOTFOUND => Err(ENOENT)
  }

  /** The directory a path names. */
  function DirOf(root: Dir, path: string): (r: Result<Dir>)
    requires root.Valid()
    ensures r.Ok? ==> r.value.Valid()
  {
    match Resolved(root, path)
    case Err(e) => Err(e)
    case Ok(Entry(parent, name)) =>
      if name == [] then Ok(parent)
      else
        parent.StatIsTrue(name);
        match Lookup(parent, name)
        case DIR => Ok(parent.GetDir(name).value)
        case FILE => Err(ENOTDIR)
        case NOTFOUND => Err(ENOENT)
  }

  // What resolution promises.

  lemma {:induction false} DescendAppend(dir: Dir, comps: seq<string>, last: string)
    requires dir.Valid()
    ensures Descend(dir, comps + [last]) ==
            match Descend(dir, comps)
            case Err(e) => Err(e)
            case Ok(d) => Descend(d, [last])
    decreases |comps|
  {
    hide Dir.Valid;
    if comps == [] {
      assert comps + [last] == [last];
    } else {
      DescendStep(dir, comps);
      DescendStep(dir, comps + [last]);
      dir.StatIsTrue(comps[0]);
      if Lookup(dir, comps[0]) == DIR {
        assert (comps + [last])[1..] == comps[1..] + [last];
        DescendAppend(dir.GetDir(comps[0]).value, comps[1..], last);
      }
    }
  }

  lemma {:induction false} ComponentsAreNonEmpty(s: string)
    ensures forall c :: c in Components(s) ==> c != []
    decreases |s|
  {
    var t := SkipSlashes(s);
    if t != [] {
      ComponentsAreNonEmpty(Tail(t));
    }
  }

  /** Two-step resolution is plain folding: the directory a path names is where
      one gets by descending through all its components from the root. */
  lemma DirOfIsDescend(root: Dir, path: string)
    requires root.Valid() && path != [] && path[0] == '/'
    ensures DirOf(root, path) == Descend(root, Components(path))
  {
    hide Dir.Valid, Components;
    var comps := Components(path);
    ComponentsAreNonEmpty(path);
    if comps != [] {
      var front, last := comps[..|comps| - 1], comps[|comps| - 1];
      assert comps == front + [last] && last in comps;
      DescendAppend(root, front, last);
      var d := Descend(root, front);
      if d.Ok? {
        DescendStep(d.value, [last]);
        assert [last][1..] == [];
      }
    }
  }

  /** Only the components count. */
  lemma SameComponentsSameEntry(root: Dir, a: string, b: string)
    requires root.Valid() && a != [] && b != [] && a[0] == b[0] == '/'
    requires Components(a) == Components(b)
    ensures Resolved(root, a) == Resolved(root, b)
  {
  }

  /** A doubled slash anywhere changes nothing about what a path stands for; a
      trailing one changes nothing unless it is all there is. */
  lemma SlashesResolveAlike(root: Dir, a: string, b: string)
    requires root.Valid()
    ensures Resolved(root, a + "//" + b) == Resolved(root, a + "/" + b)
    ensures Resolved(root, a + "/") == Resolved(root, a) <==> a != []
  {
    hide Dir.Valid, Components, Descend;
    SlashesDoNotMatter(a, b);
    var doubled, single := a + "//" + b, a + "/" + b;
    assert a != [] ==> doubled[0] == single[0] == (a + "/")[0] == a[0];
    if a == [] || a[0] == '/' {
      SameComponentsSameEntry(root, doubled, single);
      if a == [] {
        EmptyComponents();
      } else {
        SameComponentsSameEntry(root, a + "/", a);
      }
    }
  }

  lemma EmptyComponents()
    ensures Components([] + "/") == []
  {
    assert [] + "/" == "/" + "";
    LeadingSlash("");
  }

  /** What a path names is one thing for all operations: a directory by attributes,
      to be listed and not to be opened, or a file by attributes, with the size
      of what opens. */
  lemma OneKind(root: Dir, path: string)
    requires root.Valid()
    ensures AttrOf(root, path) == Ok(DirAttr) <==> DirOf(root, path).Ok?
    ensures FileOf(root, path) == Err(21) <==> DirOf(root, path).Ok?
    ensures FileOf(root, path).Ok? ==> FileOf(root, path).value.Valid()
    ensures FileOf(root, path).Ok? <==> AttrOf(root, path).Ok? && AttrOf(root, path).value.FileAttr?
    ensures FileOf(root, path).Ok? ==> AttrOf(root, path) == Ok(FileAttr(|FileOf(root, path).value.Content()|))
  {
    hide Descend, Components, Dir.Valid, VFile.Valid, VFile.Content;
    NoOtherErrors(root, path);
    if Resolved(root, path).Ok? {
      Resolved(root, path).value.parent.StatIsTrue(Resolved(root, path).value.name);
    }
  }

  lemma {:induction false} DescendErrors(dir: Dir, comps: seq<string>)
    requires dir.Valid()
    ensures Descend(dir, comps).Err? ==> Descend(dir, comps).errno == 20 || Descend(dir, comps).errno == 2
    decreases |comps|
  {
    hide Dir.Valid;
    if comps != [] {
      DescendStep(dir, comps);
      dir.StatIsTrue(comps[0]);
      if Lookup(dir, comps[0]) == DIR {
        DescendErrors(dir.GetDir(comps[0]).value, comps[1..]);
      }
    }
  }

  lemma NoOtherErrors(root: Dir, path: string)
    requires root.Valid()
    ensures Resolved(root, path).Err? ==> Resolved(root, path).errno in {22, 20, 2}
  {
    hide Dir.Valid, Components, Descend;
    var comps := Components(path);
    if comps != [] {
      DescendErrors(root, comps[..|comps| - 1]);
    }
  }

  /** The root, however many slashes: a directory that holds the tree. */
  lemma RootIsThere(root: Dir, path: string)
    requires root.Valid() && path != [] && forall c :: c in path ==> c == '/'
    ensures DirOf(root, path) == Ok(root) && AttrOf(root, path) == Ok(DirAttr) && FileOf(root, path) == Err(21)
  {
    hide Dir.Valid, Components;
    OnlySlashes(path);
    assert path[0] in path;
  }

  lemma {:induction false} OnlySlashes(path: string)
    requires forall c :: c in path ==> c == '/'
    ensures Components(path) == []
    decreases |path|
  {
    if path == [] {
      assert Components(path) == [];
    } else {
      assert path[0] in path && forall c :: c in path[1..] ==> c in path;
      OnlySlashes(path[1..]);
      LeadingSlash(path[1..]);
      assert path == "/" + path[1..];
    }
  }

  /** A path that does not start at the root is refused by every operation. */
  lemma RelativeIsInvalid(root: Dir, path: string)
    requires root.Valid() && (path == [] || path[0] != '/')
    ensures AttrOf(root, path) == Err(22) && FileOf(root, path) == Err(22) && DirOf(root, path) == Err(22)
  {
  }

  /** Below what is not a directory there is nothing but that error. */
  lemma ErrorsPassDown(root: Dir, path: CString, key: CString)
    requires root.Valid() && path != [] && path[0] == '/' && DirOf(root, path).Err?
    requires key != [] && '/' !in key
    ensures var child, e := path + "/" + key, DirOf(root, path).errno;
            AttrOf(root, child) == Err(e) && FileOf(root, child) == Err(e) && DirOf(root, child) == Err(e)
  {
    hide Components, Descend, Dir.Valid, VFile.Content, VFile.Valid;
    DirOfIsDescend(root, path);
    ComponentsOfJoin(path, key);
    OneComponent(key);
    var comps := Components(path);
    assert (comps + [key])[..|comps|] == comps;
  }

  /** Namespace agreement: what a listing of a directory shows can be looked up
      and opened one level down, as the same thing. */
  lemma ListedIsThere(root: Dir, path: CString, key: CString)
    requires root.Valid() && path != [] && path[0] == '/' && DirOf(root, path).Ok?
    requires key in DirOf(root, path).value.Keys() && key != [] && '/' !in key
    ensures var dir, child := DirOf(root, path).value, path + "/" + key;
            && Resolved(root, child) == Ok(Entry(dir, key))
            && (dir.GetDir(key).Some? ==>
                  AttrOf(root, child) == Ok(DirAttr) && FileOf(root, child) == Err(21) &&
                  DirOf(root, child) == Ok(dir.GetDir(key).value))
            && (dir.Open(key).Some? ==>
                  && FileOf(root, child) == Ok(dir.Open(key).value)
                  && dir.Open(key).value.Valid()
                  && AttrOf(root, child) == Ok(FileAttr(|dir.Open(key).value.Content()|))
                  && DirOf(root, child) == Err(20))
            && (dir.GetDir(key).Some? || dir.Open(key).Some?)
  {
    hide Components, Descend, Dir.Valid, VFile.Content, VFile.Valid;
    var dir := DirOf(root, path).value;
    DirOfIsDescend(root, path);
    ComponentsOfJoin(path, key);
    OneComponent(key);
    var comps := Components(path);
    assert (comps + [key])[..|comps|] == comps;
    dir.StatIsTrue(key);
  }

  lemma {:induction false} HeadIsPlain(s: string)
    ensures '/' !in Head(s) && (forall c :: c in Head(s) ==> c in s) && (forall c :: c in Tail(s) ==> c in s)
    decreases |s|
  {
    if s != [] && s[0] != '/' {
      HeadIsPlain(s[1..]);
    }
  }

  lemma {:induction false} SkippedIsPart(s: string)
    ensures forall c :: c in SkipSlashes(s) ==> c in s
    decreases |s|
  {
    if s != [] && s[0] == '/' {
      SkippedIsPart(s[1..]);
    }
  }

  /** No component holds a slash, or a character that is not in the path. */
  lemma {:induction false} ComponentsArePlain(s: string, k: string)
    requires k in Components(s)
    ensures k != [] && '/' !in k && forall c :: c in k ==> c in s
    decreases |s|
  {
    hide Head, Tail, SkipSlashes;
    var t := SkipSlashes(s);
    ComponentsAreNonEmpty(s);
    SkippedIsPart(s);
    HeadIsPlain(t);
    if k != Head(t) {
      ComponentsArePlain(Tail(t), k);
    }
  }

  /** The path names this entry, by a last component. */
  predicate LeadsTo(root: Dir, path: CString, dir: Dir, key: string)
    requires root.Valid()
  {
    Components(path) != [] && Resolved(root, path) == Ok(Entry(dir, key))
  }

  /** A key of a directory that some path names can be named by a path itself if
      and only if it is not empty and has neither a slash nor a NUL. */
  lemma NameableIff(root: Dir, path: CString, key: string)
    requires root.Valid() && path != [] && path[0] == '/' && DirOf(root, path).Ok?
    requires key in DirOf(root, path).value.Keys()
    ensures (exists p: CString :: LeadsTo(root, p, DirOf(root, path).value, key))
            <==> key != [] && '/' !in key && '\0' !in key
  {
    hide Dir.Valid, Components, DirOf;
    var dir := DirOf(root, path).value;
    if key != [] && '/' !in key && '\0' !in key {
      var child: CString := path + "/" + key;
      ListedIsThere(root, path, key);
      ComponentsOfJoin(path, key);
      OneComponent(key);
      assert LeadsTo(root, child, dir, key);
    }
    if p: CString :| LeadsTo(root, p, dir, key) {
      var comps := Components(p);
      assert comps[|comps| - 1] == key;
      ComponentsArePlain(p, key);
    }
  }

  /** For one: the file of an array called `a/b` is listed, and no path leads to it. */
  lemma SlashedKeyUnreachable(root: Dir, path: CString)
    requires root.Valid() && path != [] && path[0] == '/' && DirOf(root, path).Ok?
    requires "a/b.parquet" in DirOf(root, path).value.Keys()
    ensures forall p: CString :: !LeadsTo(root, p, DirOf(root, path).value, "a/b.parquet")
  {
    hide Dir.Valid, DirOf, LeadsTo;
    NameableIff(root, path, "a/b.parquet");
    assert "a/b.parquet"[1] == '/';
  }

  /** A name that no directory holds is not found, and a file is no directory. */
  lemma UnlistedIsNotFound(root: Dir, path: CString, key: CString)
    requires root.Valid() && path != [] && path[0] == '/' && DirOf(root, path).Ok?
    requires key !in DirOf(root, path).value.Keys() && key != [] && '/' !in key
    ensures var child := path + "/" + key;
            AttrOf(root, child) == Err(2) && FileOf(root, child) == Err(2) && DirOf(root, child) == Err(2)
  {
    hide Components, Descend, Dir.Valid, VFile.Content, VFile.Valid;
    var dir := DirOf(root, path).value;
    DirOfIsDescend(root, path);
    ComponentsOfJoin(path, key);
    OneComponent(key);
    var comps := Components(path);
    assert (comps + [key])[..|comps|] == comps;
    dir.StatIsTrue(key);
  }
}
