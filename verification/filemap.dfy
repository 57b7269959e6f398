/** The address map of a virtual file (fmap.h, fmap.cc:75-162). */
module FileMaps {
  import opened Bytes
  import opened Storage
  import opened Base64
  import opened Regions

  /** The array data behind a map, decoded if need be. */
  function Payload(base64: bool, bytes: seq<byte>, start: nat): seq<byte> {
    var text := TextAt(bytes, start);
    if base64 then DecodeAll(text) else text
  }

  /** Position of the first element above `x` (`std::upper_bound`). */
  method UpperBound(s: seq<nat>, x: nat) returns (j: nat)
    requires forall a, b :: 0 <= a <= b < |s| ==> s[a] <= s[b]
    ensures j <= |s|
    ensures forall k :: 0 <= k < j ==> s[k] <= x
    ensures forall k :: j <= k < |s| ==> x < s[k]
  {
    j := 0;
    var hi := |s|;
    while j < hi
      invariant j <= hi <= |s|
      invariant forall k :: 0 <= k < j ==> s[k] <= x
      invariant forall k :: hi <= k < |s| ==> x < s[k]
    {
      var mid := j + (hi - j) / 2;
      if s[mid] <= x {
        j := mid + 1;
      } else {
        hi := mid;
      }
    }
  }

  /** `offsets` holds the start of each region and the end of the file. A
      positive entry of `underlying` is 1 more than a position in the array
      data; any other is minus a position in `direct`. */
  datatype FileMap = FileMap(
    base64: bool,
    dataStart: nat,
    offsets: seq<nat>,
    underlying: seq<int>,
    direct: seq<byte>)
  {
    ghost predicate Valid() {
      && |offsets| == |underlying| + 1
      && offsets[0] == 0
      && (forall i :: 0 <= i < |underlying| ==> offsets[i] <= offsets[i + 1])
      && (forall i :: 0 <= i < |underlying| && underlying[i] <= 0 ==>
            -underlying[i] + (offsets[i + 1] - offsets[i]) <= |direct|)
    }

    /** Number of regions. */
    function N(): nat
      requires |offsets| > 0
    {
      |offsets| - 1
    }

    function FileSize(): nat
      requires |offsets| > 0
    {
      offsets[N()]
    }

    function RegionAt(i: nat): (r: Region)
      requires Valid() && i < N()
      ensures Size(r) == offsets[i + 1] - offsets[i]
    {
      var size := offsets[i + 1] - offsets[i];
      if underlying[i] > 0 then Mapped(underlying[i] - 1, size)
      else Direct(direct[-underlying[i]..-underlying[i] + size])
    }

    function RegionList(): (rs: seq<Region>)
      requires Valid()
      ensures |rs| == N()
    {
      seq(N(), i requires 0 <= i < N() => RegionAt(i))
    }

    function Data(file: OSFile): seq<byte> {
      Payload(base64, file.bytes, dataStart)
    }

    /** All that the map refers to is in the file. */
    ghost predicate BackedBy(file: OSFile)
      requires Valid()
    {
      Backed(RegionList(), Data(file))
    }

    /** What a request wants of region `i` is in the file. */
    predicate PresentIn(file: OSFile, i: nat, offset: nat, size: nat)
      requires Valid() && i < N()
    {
      var lo, hi := Max(offsets[i], offset), Min(offsets[i + 1], offset + size);
      underlying[i] > 0 && lo < hi ==> underlying[i] - 1 + (hi - offsets[i]) <= |Data(file)|
    }

    /** What a request wants is in the file, whatever the rest of the map says. */
    ghost predicate Present(file: OSFile, offset: nat, size: nat)
      requires Valid()
    {
      forall i: nat | i < N() :: PresentIn(file, i, offset, size)
    }

    /** Reads through this map cannot fail: a raw map makes up for short reads,
        a decoding one does not. */
    predicate Delivers(file: OSFile) {
      !file.mayFail && (base64 ==> !file.mayReadShort)
    }

    /** The bytes of one region. */
    function RegionData(file: OSFile, i: nat): (s: seq<byte>)
      requires Valid() && i < N()
      ensures |s| == offsets[i + 1] - offsets[i]
    {
      RegionBytes(RegionAt(i), Data(file))
    }

    /** The virtual file over a given underlying file. */
    function View(file: OSFile): (s: seq<byte>)
      requires Valid()
    {
      Contents(RegionList(), Data(file))
    }

    /** The direct regions tile the direct buffer, in order and without overlap. */
    ghost predicate Tiled()
      requires Valid()
    {
      && direct == Directs(RegionList())
      && forall i :: 0 <= i < |underlying| && underlying[i] <= 0 ==> -underlying[i] == |Directs(RegionList()[..i])|
    }

    lemma {:induction false} OffsetsAreTotals(i: nat)
      requires Valid() && i <= N()
      ensures offsets[i] == Total(RegionList()[..i])
      decreases i
    {
      hide RegionAt, Size;
      if i > 0 {
        OffsetsAreTotals(i - 1);
        Snoc(RegionList()[..i - 1], RegionAt(i - 1));
        assert RegionList()[..i] == RegionList()[..i - 1] + [RegionAt(i - 1)];
      }
    }

    lemma FileSizeIsTotal()
      requires Valid()
      ensures FileSize() == Total(RegionList())
    {
      OffsetsAreTotals(N());
      assert RegionList()[..N()] == RegionList();
    }

    lemma ViewLength(file: OSFile)
      requires Valid()
      ensures |View(file)| == FileSize()
    {
      FileSizeIsTotal();
    }

    lemma {:induction false} Sorted(a: nat, b: nat)
      requires Valid() && a <= b < |offsets|
      ensures offsets[a] <= offsets[b]
      decreases b
    {
      if a < b {
        Sorted(a, b - 1);
      }
    }

    /** A piece of one region, seen in the whole file. */
    lemma PieceOfView(file: OSFile, i: nat, regionOffset: nat, size: nat)
      requires Valid() && i < N()
      requires regionOffset + size <= offsets[i + 1] - offsets[i]
      ensures offsets[i + 1] <= |View(file)| == FileSize()
      ensures View(file)[offsets[i] + regionOffset..offsets[i] + regionOffset + size]
              == RegionData(file, i)[regionOffset..regionOffset + size]
    {
      hide Data, Contents;
      RegionPlace(RegionList(), Data(file), i);
      OffsetsAreTotals(i);
      OffsetsAreTotals(i + 1);
      FileSizeIsTotal();
      assert View(file)[offsets[i]..offsets[i + 1]] == RegionData(file, i);
      SliceOfSlice(View(file), offsets[i], offsets[i + 1], regionOffset, regionOffset + size);
    }

    /** Region `i` is where position `pos` is read from. */
    ghost predicate InRegion(i: nat, pos: nat)
      requires Valid()
    {
      i <= N() && offsets[i] <= pos && (pos < FileSize() ==> i < N() && pos <= offsets[i + 1])
    }

    lemma InRegionFacts(i: nat, pos: nat)
      requires Valid() && InRegion(i, pos)
      ensures |offsets| > 0 && i <= N()
      ensures pos < FileSize() ==> i < N() && offsets[i] <= pos <= offsets[i + 1] <= FileSize()
    {
      if i < N() {
        Sorted(i + 1, N());
      }
    }

    /** The last region up to `i` that starts at or before `pos`. */
    function LastStart(i: nat, pos: nat): (j: nat)
      requires Valid() && i <= N()
      ensures j <= i && offsets[j] <= pos
      ensures forall k :: j < k <= i ==> pos < offsets[k]
    {
      if offsets[i] <= pos then i else LastStart(i - 1, pos)
    }

    /** The region that a read at `pos` starts in. */
    function RegionOf(pos: nat): (i: nat)
      requires Valid()
      ensures InRegion(i, pos)
    {
      LastStart(N(), pos)
    }

    method FindRegion(offset: nat) returns (i: nat)
      requires Valid()
      ensures i == RegionOf(offset)
    {
      forall a: nat, b: nat | a <= b < |offsets| ensures offsets[a] <= offsets[b] {
        Sorted(a, b);
      }
      var j := UpperBound(offsets, offset);
      i := j - 1;
    }

    // What a request is answered with, region by region.

    /** The answer of region `i` to a request inside it; none if not all of it can be had. */
    ghost function Piece(file: OSFile, i: nat, regionOffset: nat, size: nat): (r: Option<seq<byte>>)
      requires Valid() && i < N() && regionOffset + size <= offsets[i + 1] - offsets[i]
      ensures r.Some? ==> |r.value| == size
    {
      if underlying[i] <= 0 then
        var pos: nat := -underlying[i] + regionOffset;
        Some(direct[pos..pos + size])
      else
        var pos: nat := underlying[i] - 1 + regionOffset;
        if base64 then FetchAt(TextAt(file.bytes, dataStart), pos, size)
        else SliceIfThere(Data(file), pos, size)
    }

    /** How much of a request for `left` bytes at `pos` region `i` can meet. */
    function Wanted(i: nat, pos: nat, left: nat): (m: nat)
      requires Valid() && InRegion(i, pos) && pos < FileSize()
      ensures m <= left && pos + m <= offsets[i + 1]
    {
      Min(left, offsets[i + 1] - pos)
    }

    function Next(i: nat, pos: nat): (next: nat)
      requires Valid() && i < N() && offsets[i] <= pos <= offsets[i + 1]
      ensures InRegion(next, pos)
    {
      if pos >= offsets[i + 1] then i + 1 else i
    }

    /** The answer to a request for `left` bytes at `pos`, from region `i` on. */
    ghost function Gather(file: OSFile, i: nat, pos: nat, left: nat): (r: Option<seq<byte>>)
      requires Valid() && InRegion(i, pos)
      ensures r.Some? ==> |r.value| == if pos < FileSize() then Min(left, FileSize() - pos) else 0
      decreases FileSize() - pos, N() - i
    {
      if left == 0 || pos >= FileSize() then Some([])
      else
        var m := Wanted(i, pos, left);
        InRegionFacts(i, pos);
        match Piece(file, i, pos - offsets[i], m)
        case None => None
        case Some(piece) => Prepend(piece, Gather(file, Next(i, pos + m), pos + m, left - m))
    }

    /** The answer to a whole request. */
    ghost function Answer(file: OSFile, offset: nat, size: nat): (r: Option<seq<byte>>)
      requires Valid()
      ensures r.Some? ==> |r.value| == if offset < FileSize() then Min(size, FileSize() - offset) else 0
    {
      Gather(file, RegionOf(offset), offset, size)
    }

    /** Short answers of a region that need not decode add up. */
    lemma PieceSplit(file: OSFile, i: nat, regionOffset: nat, size: nat, r: nat)
      requires Valid() && i < N() && r <= size && regionOffset + size <= offsets[i + 1] - offsets[i]
      requires base64 ==> underlying[i] <= 0
      requires Piece(file, i, regionOffset, r).Some?
      ensures Piece(file, i, regionOffset, size)
              == Prepend(Piece(file, i, regionOffset, r).value, Piece(file, i, regionOffset + r, size - r))
    {
      hide Data;
      if underlying[i] <= 0 {
        var pos: nat := -underlying[i] + regionOffset;
        Adjacent(direct, pos, pos + r, pos + size);
      } else {
        var pos: nat := underlying[i] - 1 + regionOffset;
        SliceIfThereSplit(Data(file), pos, size, r);
      }
    }

    lemma GatherUnfold(file: OSFile, i: nat, pos: nat, left: nat)
      requires Valid() && InRegion(i, pos) && pos < FileSize()
      ensures i < N() && offsets[i] <= pos <= offsets[i + 1]
      ensures var m := Wanted(i, pos, left);
              left > 0 ==>
                Gather(file, i, pos, left) ==
                match Piece(file, i, pos - offsets[i], m)
                case None => None
                case Some(piece) => Prepend(piece, Gather(file, Next(i, pos + m), pos + m, left - m))
    {
      hide Piece, Valid, InRegion;
      InRegionFacts(i, pos);
    }

    /** A turn of the read loop that got `r` bytes leaves the rest of the answer to the others. */
    lemma GatherTurn(file: OSFile, i: nat, pos: nat, left: nat, r: nat)
      requires Valid() && InRegion(i, pos) && left > 0 && pos < FileSize() && r <= Wanted(i, pos, left)
      requires Piece(file, i, pos - offsets[i], r).Some?
      requires r < Wanted(i, pos, left) ==> base64 ==> underlying[i] <= 0
      ensures Gather(file, i, pos, left)
              == Prepend(Piece(file, i, pos - offsets[i], r).value, Gather(file, Next(i, pos + r), pos + r, left - r))
    {
      hide Piece, Gather, Valid;
      GatherUnfold(file, i, pos, left);
      InRegionFacts(i, pos);
      var m := Wanted(i, pos, left);
      if r < m {
        GatherUnfold(file, i, pos + r, left - r);
        PieceSplit(file, i, pos - offsets[i], m, r);
        var rest := Piece(file, i, pos + r - offsets[i], m - r);
        if rest.Some? {
          PrependTwice(Piece(file, i, pos - offsets[i], r).value, rest.value,
                       Gather(file, Next(i, pos + m), pos + m, left - m));
        }
      }
    }

    method Pread(file: OSFile, buf: array<byte>, at: nat, size: nat, offset: nat) returns (nr: int)
      requires Valid() && (base64 || Present(file, offset, size))
      requires at + size <= buf.Length
      modifies buf
      ensures nr == -1 || nr == if offset < FileSize() then Min(size, FileSize() - offset) else 0
      ensures nr >= 0 ==> Answer(file, offset, size).Some? && Holds(buf[..], at, Answer(file, offset, size).value)
      ensures Present(file, offset, size) && nr > 0 ==>
                offset + nr <= |View(file)| && Holds(buf[..], at, View(file)[offset..offset + nr])
      ensures Delivers(file) && Answer(file, offset, size).Some? ==> nr != -1
      ensures Delivers(file) && Present(file, offset, size) ==> nr != -1
      ensures Untouched(old(buf[..]), buf[..], at, size)
    {
      hide View, Valid, Holds, Untouched, InRegion, RegionOf, Piece, Answer, Present, Next, Got, Delivers, Reading;
      NothingYet(buf[..], at, size);
      var i: nat := FindRegion(offset);
      PresentIsAnswered(file, offset, size);
      ghost var answer := Answer(file, offset, size);
      ReadingStarts(file, offset, size);
      var end := offsets[|offsets| - 1];
      var done: nat := 0;
      ghost var got, turns, start := [], 0, Progress(i, offset, size);  // got: what has been delivered
      while done != size && offset + done < end
        invariant done == |got| <= size
        invariant Reading(file, start, turns, answer, got, Progress(i, offset + done, size - done))
        invariant Holds(buf[..], at, got) && Untouched(old(buf[..]), buf[..], at, size)
        decreases end - (offset + done), |offsets| - i
      {
        WhileReading(file, start, turns, answer, got, Progress(i, offset + done, size - done));
        var lim: nat := offsets[i + 1] - (offset + done);
        var m: nat := if size - done <= lim then size - done else lim;
        ghost var before, pos, left := buf[..], offset + done, size - done;
        assert m == Wanted(i, pos, left);
        var r := Read(file, buf, at + done, i, offset + done - offsets[i], m);
        ghost var more := if r >= 0 then Piece(file, i, pos - offsets[i], r).value else [];
        Glue(old(buf[..]), before, buf[..], at, size, got, m, more);
        if r == -1 {
          return -1;
        }
        assert r > 0 || m == 0;
        TurnTaken(file, start, turns, answer, got, Progress(i, pos, left), r);
        NextIs(i, pos + r);
        got, turns := got + more, turns + 1;
        done := done + r;
        if offset + done >= offsets[i + 1] {
          i := i + 1;
        }
      }
      ReadingEnds(file, start, turns, answer, got, Progress(i, offset + done, size - done));
      AnswerOnView(file, offset, size, got);
      nr := done;
    }

    lemma PresentIsAnswered(file: OSFile, offset: nat, size: nat)
      requires Valid()
      ensures Present(file, offset, size) ==> Answer(file, offset, size).Some?
    {
      AnswerWhenPresent(file, offset, size);
    }

    lemma AnswerOnView(file: OSFile, offset: nat, size: nat, got: seq<byte>)
      requires Valid() && Answer(file, offset, size) == Some(got)
      ensures Present(file, offset, size) && |got| > 0 ==>
                offset + |got| <= |View(file)| && got == View(file)[offset..offset + |got|]
    {
      hide Answer, View, Present, Valid;
      AnswerWhenPresent(file, offset, size);
    }

    lemma NextIs(i: nat, pos: nat)
      requires Valid() && i < N() && offsets[i] <= pos <= offsets[i + 1]
      ensures Next(i, pos) == if pos >= offsets[i + 1] then i + 1 else i
    {
    }

    /** The state of a read after some turns: `got` is delivered, what is left of
        the answer is with the regions from here on, and over a steady raw file
        this is where `After` says. */
    ghost predicate Reading(
      file: OSFile, start: Progress, turns: nat, answer: Option<seq<byte>>, got: seq<byte>, s: Progress)
      requires Valid() && InRegion(start.i, start.pos)
    {
      && InRegion(s.i, s.pos)
      && answer == Prepend(got, Gather(file, s.i, s.pos, s.left))
      && InTurn(file, start, turns, s)
    }

    lemma ReadingStarts(file: OSFile, offset: nat, size: nat)
      requires Valid()
      ensures var s := Progress(RegionOf(offset), offset, size);
              Reading(file, s, 0, Answer(file, offset, size), [], s) && |offsets| > 0
    {
      hide Gather, RegionOf;
      PrependTwice([], [], Answer(file, offset, size));
      NoTurns(file, Progress(RegionOf(offset), offset, size));
    }

    lemma WhileReading(
      file: OSFile, start: Progress, turns: nat, answer: Option<seq<byte>>, got: seq<byte>, s: Progress)
      requires Valid() && InRegion(start.i, start.pos) && Reading(file, start, turns, answer, got, s) && !Stopped(s)
      ensures InRegion(s.i, s.pos) && s.i < N() && offsets[s.i] <= s.pos <= offsets[s.i + 1] <= FileSize()
      ensures answer.Some? ==> Piece(file, s.i, s.pos - offsets[s.i], Wanted(s.i, s.pos, s.left)).Some?
    {
      hide Piece, Valid, InRegion, InTurn;
      InRegionFacts(s.i, s.pos);
      GatherUnfold(file, s.i, s.pos, s.left);
    }

    /** A turn that got `r` bytes. */
    lemma TurnTaken(
      file: OSFile, start: Progress, turns: nat, answer: Option<seq<byte>>, got: seq<byte>, s: Progress, r: nat)
      requires Valid() && InRegion(start.i, start.pos) && Reading(file, start, turns, answer, got, s) && !Stopped(s)
      requires InRegion(s.i, s.pos) && s.i < N() && offsets[s.i] <= s.pos
      requires r <= Wanted(s.i, s.pos, s.left) && Piece(file, s.i, s.pos - offsets[s.i], r).Some?
      requires r < Wanted(s.i, s.pos, s.left) ==> base64 ==> underlying[s.i] <= 0
      requires !base64 && file.Steady() ==> r == Got(file, s.i, s.pos - offsets[s.i], Wanted(s.i, s.pos, s.left))
      ensures var piece := Piece(file, s.i, s.pos - offsets[s.i], r).value;
              var t := Progress(Next(s.i, s.pos + r), s.pos + r, s.left - r);
              Reading(file, start, turns + 1, answer, got + piece, t)
    {
      hide Valid, InRegion, Piece, Gather, InTurn, Got, Next;
      GatherTurn(file, s.i, s.pos, s.left, r);
      var next := Next(s.i, s.pos + r);
      PrependTwice(got, Piece(file, s.i, s.pos - offsets[s.i], r).value, Gather(file, next, s.pos + r, s.left - r));
      OneTurn(file, start, turns, s, r);
    }

    lemma ReadingEnds(
      file: OSFile, start: Progress, turns: nat, answer: Option<seq<byte>>, got: seq<byte>, s: Progress)
      requires Valid() && InRegion(start.i, start.pos) && Reading(file, start, turns, answer, got, s) && Stopped(s)
      ensures answer == Some(got)
    {
      hide Valid, InTurn, InRegion;
      GatherStops(file, s.i, s.pos, s.left);
      assert got + [] == got;
    }

    lemma GatherStops(file: OSFile, i: nat, pos: nat, left: nat)
      requires Valid() && InRegion(i, pos) && (left == 0 || pos >= FileSize())
      ensures Gather(file, i, pos, left) == Some([])
    {
    }

    method Read(file: OSFile, buf: array<byte>, at: nat, regionId: nat, regionOffset: nat, size: nat) returns (nr: int)
      requires Valid() && regionId < N()
      requires regionOffset + size <= offsets[regionId + 1] - offsets[regionId]
      requires at + size <= buf.Length
      modifies buf
      ensures -1 <= nr <= size
      ensures base64 || underlying[regionId] <= 0 ==> nr == -1 || nr == size
      ensures nr == 0 ==> size == 0 || Piece(file, regionId, regionOffset, size).None?
      ensures nr >= 0 ==> Piece(file, regionId, regionOffset, nr).Some?
      ensures nr >= 0 ==> Holds(buf[..], at, Piece(file, regionId, regionOffset, nr).value)
      ensures Delivers(file) && Piece(file, regionId, regionOffset, size).Some? ==> nr != -1
      ensures !base64 && file.Steady() ==> nr == Got(file, regionId, regionOffset, size)
      ensures Untouched(old(buf[..]), buf[..], at, size)
    {
      hide Data, FetchAt, TextAt, Untouched, OSFile.MayAnswer;
      if underlying[regionId] > 0 {
        var pos: nat := underlying[regionId] - 1 + regionOffset;
        if base64 {
          nr := ReadEncoded(file, buf, at, size, pos);
        } else {
          nr := ReadRaw(file, buf, at, size, pos);
        }
      } else {
        var pos: nat := -underlying[regionId] + regionOffset;
        Memcpy(buf, at, direct[pos..pos + size]);
        nr := size;
      }
    }

    method ReadEncoded(file: OSFile, buf: array<byte>, at: nat, size: nat, pos: nat) returns (nr: int)
      requires base64 && at + size <= buf.Length
      modifies buf
      ensures nr == -1 || nr == size
      ensures var answer := FetchAt(TextAt(file.bytes, dataStart), pos, size);
              && (nr >= 0 ==> answer.Some? && Holds(buf[..], at, answer.value))
              && (file.Steady() && answer.Some? ==> nr == size)
      ensures Untouched(old(buf[..]), buf[..], at, size)
    {
      var reader := Base64Reader(file, dataStart);
      nr := reader.Pread(buf, at, size, pos);
    }

    method ReadRaw(file: OSFile, buf: array<byte>, at: nat, size: nat, pos: nat) returns (nr: int)
      requires !base64 && at + size <= buf.Length
      modifies buf
      ensures -1 <= nr <= size && (nr == -1 ==> file.mayFail)
      ensures nr == 0 ==> size == 0 || |Data(file)| <= pos
      ensures nr > 0 ==> pos + nr <= |Data(file)| && Holds(buf[..], at, Data(file)[pos..pos + nr])
      ensures file.Steady() ==> nr == Available(file.bytes, size, dataStart + pos)
      ensures Untouched(old(buf[..]), buf[..], at, size)
    {
      nr := file.Pread(buf, at, size, dataStart + pos);
      if nr > 0 {
        SliceOfDrop(file.bytes, dataStart, pos, pos + nr);
      }
    }

    // Requests for what is there.

    lemma EverythingPresent(file: OSFile, offset: nat, size: nat)
      requires Valid() && BackedBy(file)
      ensures Present(file, offset, size)
    {
      hide Data;
      forall i: nat | i < N() ensures PresentIn(file, i, offset, size) {
        assert RegionList()[i] == RegionAt(i);
      }
    }

    /** Part of a request is there if the whole is. */
    lemma PresentSub(file: OSFile, offset: nat, size: nat, offset1: nat, size1: nat)
      requires Valid() && Present(file, offset, size)
      requires offset <= offset1 && Min(offset1 + size1, FileSize()) <= offset + size
      ensures Present(file, offset1, size1)
    {
      hide Data;
      forall i: nat | i < N() ensures PresentIn(file, i, offset1, size1) {
        Sorted(i + 1, N());
        assert PresentIn(file, i, offset, size);
      }
    }

    lemma PresentJoin(file: OSFile, offset: nat, size: nat, more: nat)
      requires Valid() && Present(file, offset, size) && Present(file, offset + size, more)
      ensures Present(file, offset, size + more)
    {
      hide Data;
      var mid, both := offset + size, size + more;
      forall i: nat | i < N() ensures PresentIn(file, i, offset, both) {
        assert PresentIn(file, i, offset, size) && PresentIn(file, i, mid, more);
      }
    }

    /** The sign of a stored offset tells file from memory: the bytes of a
        region that are there come from the one or the other. */
    lemma PieceIsSlice(file: OSFile, i: nat, regionOffset: nat, size: nat)
      requires Valid() && i < N() && regionOffset + size <= offsets[i + 1] - offsets[i]
      requires size > 0 && underlying[i] > 0 ==> underlying[i] - 1 + regionOffset + size <= |Data(file)|
      ensures Piece(file, i, regionOffset, size) == Some(RegionData(file, i)[regionOffset..regionOffset + size])
    {
      hide Data, FetchAt, TextAt, RegionData;
      if underlying[i] <= 0 {
        DirectPiece(file, i, regionOffset, size);
      } else if size == 0 {
        FetchNothing(TextAt(file.bytes, dataStart), underlying[i] - 1 + regionOffset);
        assert RegionData(file, i)[regionOffset..regionOffset + size] == [];
      } else {
        MappedPiece(file, i, regionOffset, size);
        if base64 {
          DataIsDecoded(file);
          FetchAtIsSlice(TextAt(file.bytes, dataStart), underlying[i] - 1 + regionOffset, size);
        }
      }
    }

    lemma DirectPiece(file: OSFile, i: nat, regionOffset: nat, size: nat)
      requires Valid() && i < N() && regionOffset + size <= offsets[i + 1] - offsets[i] && underlying[i] <= 0
      ensures Piece(file, i, regionOffset, size) == Some(RegionData(file, i)[regionOffset..regionOffset + size])
    {
      hide Data;
      var len, start: nat := offsets[i + 1] - offsets[i], -underlying[i];
      SliceOfSlice(direct, start, start + len, regionOffset, regionOffset + size);
    }

    lemma MappedPiece(file: OSFile, i: nat, regionOffset: nat, size: nat)
      requires Valid() && i < N() && 0 < size && regionOffset + size <= offsets[i + 1] - offsets[i]
      requires underlying[i] > 0 && underlying[i] - 1 + regionOffset + size <= |Data(file)|
      ensures var pos: nat := underlying[i] - 1 + regionOffset;
              Data(file)[pos..pos + size] == RegionData(file, i)[regionOffset..regionOffset + size]
    {
      hide Data;
      MappedSlice(underlying[i] - 1, offsets[i + 1] - offsets[i], Data(file), regionOffset, size);
    }

    lemma DataIsDecoded(file: OSFile)
      requires base64
      ensures Data(file) == DecodeAll(TextAt(file.bytes, dataStart))
    {
    }

    /** A request for what is there is answered with that slice of the whole file. */
    lemma {:induction false} GatherIsSlice(file: OSFile, i: nat, pos: nat, left: nat)
      requires Valid() && InRegion(i, pos) && Present(file, pos, left)
      ensures |View(file)| == FileSize()
      ensures Gather(file, i, pos, left) == Some(Part(View(file), pos, left))
      decreases FileSize() - pos, N() - i
    {
      hide View, RegionData, Piece, Present, Data, RegionList, Valid, InRegion, Gather, Part;
      ViewLength(file);
      if left > 0 && pos < FileSize() {
        InRegionFacts(i, pos);
        var m := Wanted(i, pos, left);
        GatherUnfold(file, i, pos, left);
        PieceHere(file, i, pos, left);
        PresentSplit(file, i, pos, left, m);
        GatherIsSlice(file, Next(i, pos + m), pos + m, left - m);
        PartSplit(View(file), pos, left, m);
      } else {
        GatherStops(file, i, pos, left);
        NoPart(View(file), pos, left);
      }
    }

    lemma PieceHere(file: OSFile, i: nat, pos: nat, left: nat)
      requires Valid() && InRegion(i, pos) && pos < FileSize() && Present(file, pos, left)
      ensures i < N() && offsets[i] <= pos && |View(file)| == FileSize()
      ensures var m := Wanted(i, pos, left);
              pos + m <= |View(file)| && Piece(file, i, pos - offsets[i], m) == Some(View(file)[pos..pos + m])
    {
      hide View, RegionData, Piece, Present, Data, RegionList;
      var m, at := Wanted(i, pos, left), pos - offsets[i];
      PresentHere(file, i, pos, left);
      PieceIsSlice(file, i, at, m);
      PieceOfView(file, i, at, m);
    }

    /** A request is there if what it wants of its first region is, and the rest of it. */
    lemma PresentSplit(file: OSFile, i: nat, pos: nat, left: nat, r: nat)
      requires Valid() && InRegion(i, pos) && pos < FileSize() && r <= Wanted(i, pos, left)
      ensures i < N()
      ensures Present(file, pos, left) <==> PresentIn(file, i, pos, left) && Present(file, pos + r, left - r)
    {
      hide PresentIn, InRegion, Valid;
      InRegionFacts(i, pos);
      var pos1, left1 := pos + r, left - r;
      PresentElsewhere(file, i, pos, left, r, i);
      forall k: nat | k < N() ensures k != i ==> PresentIn(file, k, pos1, left1) == PresentIn(file, k, pos, left) {
        PresentElsewhere(file, i, pos, left, r, k);
      }
      if Present(file, pos, left) {
        assert PresentIn(file, i, pos, left);
        forall k: nat | k < N() ensures PresentIn(file, k, pos1, left1) {
          assert PresentIn(file, k, pos, left);
        }
      } else if PresentIn(file, i, pos, left) {
        var k: nat :| k < N() && !PresentIn(file, k, pos, left);
        assert !PresentIn(file, k, pos1, left1);
      }
    }

    lemma PresentElsewhere(file: OSFile, i: nat, pos: nat, left: nat, r: nat, k: nat)
      requires Valid() && InRegion(i, pos) && pos < FileSize() && r <= Wanted(i, pos, left) && k < N()
      ensures k != i ==> PresentIn(file, k, pos + r, left - r) == PresentIn(file, k, pos, left)
      ensures PresentIn(file, i, pos, left) ==> PresentIn(file, i, pos + r, left - r)
    {
      hide Data;
      if k < i {
        Sorted(k + 1, i);
      } else if i < k {
        Sorted(i + 1, k);
      }
    }

    lemma PresentHere(file: OSFile, i: nat, pos: nat, left: nat)
      requires Valid() && InRegion(i, pos) && pos < FileSize() && Present(file, pos, left)
      ensures i < N()
      ensures var m := Wanted(i, pos, left);
              m > 0 && underlying[i] > 0 ==> underlying[i] - 1 + (pos - offsets[i]) + m <= |Data(file)|
    {
      hide Data;
      assert PresentIn(file, i, pos, left);
    }

    /** What is there is delivered: the answer is that slice of the virtual file. */
    lemma AnswerWhenPresent(file: OSFile, offset: nat, size: nat)
      requires Valid()
      ensures |View(file)| == FileSize()
      ensures Present(file, offset, size) ==> Answer(file, offset, size) == Some(Part(View(file), offset, size))
    {
      ViewLength(file);
      if Present(file, offset, size) {
        GatherIsSlice(file, RegionOf(offset), offset, size);
      }
    }

    /** Only what is there is delivered, in raw files and in base64 text that at most breaks off. */
    lemma AnswerIffPresent(file: OSFile, offset: nat, size: nat)
      requires Valid() && (base64 ==> Unbroken(TextAt(file.bytes, dataStart)))
      ensures Answer(file, offset, size).Some? <==> Present(file, offset, size)
    {
      AnswerWhenPresent(file, offset, size);
      if Answer(file, offset, size).Some? {
        GatherNeedsPresent(file, RegionOf(offset), offset, size);
      }
    }

    lemma {:induction false} GatherNeedsPresent(file: OSFile, i: nat, pos: nat, left: nat)
      requires Valid() && (base64 ==> Unbroken(TextAt(file.bytes, dataStart)))
      requires InRegion(i, pos) && Gather(file, i, pos, left).Some?
      ensures Present(file, pos, left)
      decreases FileSize() - pos, N() - i
    {
      hide Piece, Present, Data, Valid, InRegion, Unbroken;
      if left == 0 || pos >= FileSize() {
        NothingWanted(file, pos, left);
      } else {
        InRegionFacts(i, pos);
        var m := Wanted(i, pos, left);
        PresentIffPiece(file, i, pos, left);
        PresentSplit(file, i, pos, left, m);
        GatherNeedsPresent(file, Next(i, pos + m), pos + m, left - m);
      }
    }

    lemma NothingWanted(file: OSFile, pos: nat, left: nat)
      requires Valid() && (left == 0 || pos >= FileSize())
      ensures Present(file, pos, left)
    {
      hide Data;
      forall i: nat | i < N() ensures PresentIn(file, i, pos, left) {
        Sorted(i + 1, N());
      }
    }

    lemma PresentIffPiece(file: OSFile, i: nat, pos: nat, left: nat)
      requires Valid() && (base64 ==> Unbroken(TextAt(file.bytes, dataStart)))
      requires InRegion(i, pos) && pos < FileSize()
      ensures i < N() && offsets[i] <= pos
      ensures Piece(file, i, pos - offsets[i], Wanted(i, pos, left)).Some? <==> PresentIn(file, i, pos, left)
    {
      hide FetchAt, TextAt, Unbroken, Data;
      var m := Wanted(i, pos, left);
      if base64 && underlying[i] > 0 && m > 0 {
        DataIsDecoded(file);
        FetchAtIffInside(TextAt(file.bytes, dataStart), underlying[i] - 1 + (pos - offsets[i]), m);
      } else if m == 0 && underlying[i] > 0 {
        FetchNothing(TextAt(file.bytes, dataStart), underlying[i] - 1 + (pos - offsets[i]));
      }
    }

    // When the read loop ends.

    ghost predicate Stopped(s: Progress)
      requires Valid()
    {
      s.left == 0 || s.pos >= FileSize()
    }

    /** How many bytes a read inside region `i` gets, undisturbed. */
    function Got(file: OSFile, i: nat, regionOffset: nat, size: nat): (r: nat)
      requires i < |underlying|
      ensures r <= size
    {
      if underlying[i] <= 0 then size else Available(file.bytes, size, dataStart + underlying[i] - 1 + regionOffset)
    }

    /** One turn of the read loop, undisturbed. */
    ghost function Turn(file: OSFile, s: Progress): (t: Progress)
      requires Valid() && InRegion(s.i, s.pos)
      ensures InRegion(t.i, t.pos)
    {
      if Stopped(s) then s
      else
        var r := Got(file, s.i, s.pos - offsets[s.i], Wanted(s.i, s.pos, s.left));
        Progress(Next(s.i, s.pos + r), s.pos + r, s.left - r)
    }

    ghost function After(file: OSFile, s: Progress, turns: nat): (t: Progress)
      requires Valid() && InRegion(s.i, s.pos)
      ensures InRegion(t.i, t.pos)
    {
      if turns == 0 then s else Turn(file, After(file, s, turns - 1))
    }

    ghost predicate Ends(file: OSFile, s: Progress)
      requires Valid() && InRegion(s.i, s.pos)
    {
      exists n: nat :: Stopped(After(file, s, n))
    }

    lemma {:induction false} AfterOneMore(file: OSFile, s: Progress, n: nat)
      requires Valid() && InRegion(s.i, s.pos)
      ensures After(file, s, n + 1) == After(file, Turn(file, s), n)
    {
      hide Turn, Valid, InRegion;
      if n > 0 {
        AfterOneMore(file, s, n - 1);
      }
    }

    /** Reading a raw file ends if and only if what is wanted is in the file. */
    lemma EndsIffPresent(file: OSFile, offset: nat, size: nat)
      requires Valid() && !base64
      ensures Ends(file, Progress(RegionOf(offset), offset, size)) <==> Present(file, offset, size)
    {
      hide After, Present, RegionOf;
      var s := Progress(RegionOf(offset), offset, size);
      if Present(file, offset, size) {
        EndsWhenPresent(file, s);
      } else {
        forall n: nat ensures !Stopped(After(file, s, n)) {
          StaysMissing(file, s, n);
        }
      }
    }

    /** For one: two bytes of array data are promised, the file has one. Reading
        the first of them ends, reading both never does. */
    lemma OneByteShort(file: OSFile)
      requires Valid() && !base64 && RegionList() == [Direct([80, 65, 82, 49]), Mapped(0, 2)]
      requires |file.bytes| == dataStart + 1
      ensures Ends(file, Progress(RegionOf(0), 0, 5)) && !Ends(file, Progress(RegionOf(0), 0, 6))
    {
      hide Ends, RegionOf;
      assert RegionAt(0) == RegionList()[0] && RegionAt(1) == RegionList()[1];
      EndsIffPresent(file, 0, 5);
      EndsIffPresent(file, 0, 6);
      assert !PresentIn(file, 1, 0, 6);
    }

    lemma {:induction false} EndsWhenPresent(file: OSFile, s: Progress)
      requires Valid() && !base64 && InRegion(s.i, s.pos) && Present(file, s.pos, s.left)
      ensures Ends(file, s)
      decreases FileSize() - s.pos, N() - s.i
    {
      hide After, Present, Data, Valid, InRegion;
      if Stopped(s) {
        NoTurns(file, s);
      } else {
        InRegionFacts(s.i, s.pos);
        var m, t := Wanted(s.i, s.pos, s.left), Turn(file, s);
        PresentSplit(file, s.i, s.pos, s.left, m);
        GotIffPresent(file, s);
        EndsWhenPresent(file, t);
        var n: nat :| Stopped(After(file, t, n));
        AfterOneMore(file, s, n);
      }
    }

    lemma NoTurns(file: OSFile, s: Progress)
      requires Valid() && InRegion(s.i, s.pos)
      ensures After(file, s, 0) == s && InTurn(file, s, 0, s)
    {
    }

    /** Over a steady raw file the loop stands where `After` says. */
    ghost predicate InTurn(file: OSFile, start: Progress, turns: nat, s: Progress)
      requires Valid() && InRegion(start.i, start.pos)
    {
      !base64 && file.Steady() ==> After(file, start, turns) == s
    }

    lemma OneTurn(file: OSFile, start: Progress, turns: nat, s: Progress, r: nat)
      requires Valid() && InRegion(start.i, start.pos) && InRegion(s.i, s.pos) && !Stopped(s)
      requires InTurn(file, start, turns, s) && r <= Wanted(s.i, s.pos, s.left)
      requires !base64 && file.Steady() ==> r == Got(file, s.i, s.pos - offsets[s.i], Wanted(s.i, s.pos, s.left))
      ensures InTurn(file, start, turns + 1, Progress(Next(s.i, s.pos + r), s.pos + r, s.left - r))
    {
      hide Got, Next;
    }

    lemma GotIffPresent(file: OSFile, s: Progress)
      requires Valid() && !base64 && InRegion(s.i, s.pos) && !Stopped(s)
      ensures s.i < N() && offsets[s.i] <= s.pos
      ensures var m := Wanted(s.i, s.pos, s.left);
              var r := Got(file, s.i, s.pos - offsets[s.i], m);
              && (r == m <==> PresentIn(file, s.i, s.pos, s.left))
              && (r < m ==> !PresentIn(file, s.i, s.pos + r, s.left - r))
    {
    }

    /** Something missing is wanted, and stays missing over a turn. */
    lemma TurnStaysMissing(file: OSFile, s: Progress)
      requires Valid() && !base64 && InRegion(s.i, s.pos) && !Present(file, s.pos, s.left)
      ensures !Stopped(s) && !Present(file, Turn(file, s).pos, Turn(file, s).left)
    {
      hide InRegion, Present, Got;
      if Stopped(s) {
        NothingWanted(file, s.pos, s.left);
      } else {
        GotIffPresent(file, s);
        var r := Got(file, s.i, s.pos - offsets[s.i], Wanted(s.i, s.pos, s.left));
        PresentSplit(file, s.i, s.pos, s.left, r);
        PresentIsAll(file, s.pos + r, s.left - r, s.i);
      }
    }

    lemma {:induction false} StaysMissing(file: OSFile, s: Progress, n: nat)
      requires Valid() && !base64 && InRegion(s.i, s.pos) && !Present(file, s.pos, s.left)
      ensures var t := After(file, s, n); !Stopped(t) && !Present(file, t.pos, t.left)
    {
      hide Valid, InRegion, Present, Turn, Stopped;
      if n > 0 {
        StaysMissing(file, s, n - 1);
        TurnStaysMissing(file, After(file, s, n - 1));
      }
      TurnStaysMissing(file, After(file, s, n));
    }

    lemma PresentIsAll(file: OSFile, pos: nat, left: nat, i: nat)
      requires Valid() && i < N()
      ensures Present(file, pos, left) ==> PresentIn(file, i, pos, left)
    {
    }
  }

  /** Where the read loop stands. */
  datatype Progress = Progress(i: nat, pos: nat, left: nat)

  /** Accumulates the regions of a virtual file. */
  class MapBuilder {
    const base64: bool
    const dataStart: nat
    var bytesWritten: nat
    var offsets: seq<nat>
    var underlying: seq<int>
    var direct: seq<byte>

    /** The map of the regions added so far. */
    function Map(): FileMap
      reads this
    {
      FileMap(base64, dataStart, offsets + [bytesWritten], underlying, direct)
    }

    ghost predicate Valid()
      reads this
    {
      Map().Valid() && Map().Tiled()
    }

    /** The regions added so far. */
    function Regions(): seq<Region>
      reads this
      requires Valid()
    {
      Map().RegionList()
    }

    constructor (base64: bool, dataStart: nat)
      ensures Valid() && Regions() == [] && bytesWritten == 0
      ensures this.base64 == base64 && this.dataStart == dataStart
    {
      this.base64, this.dataStart := base64, dataStart;
      bytesWritten, offsets, underlying, direct := 0, [], [], [];
    }

    method AddDirect(buf: seq<byte>)
      requires Valid() && bytesWritten + |buf| < TWO64
      modifies this
      ensures Valid() && bytesWritten == old(bytesWritten) + |buf|
      ensures Regions() == old(Regions()) + [Direct(buf)]
    {
      ghost var m := Map();
      offsets := offsets + [bytesWritten];
      var underlyingOffset := |direct|;
      direct := direct + buf;
      underlying := underlying + [-underlyingOffset];
      bytesWritten := ToU64(bytesWritten + |buf|);
      Extended(m, Map(), Direct(buf));
    }

    method AddMappedRegion(offset: nat, size: nat)
      requires Valid() && bytesWritten + size < TWO64 && offset < TWO63 - 1
      modifies this
      ensures Valid() && bytesWritten == old(bytesWritten) + size
      ensures Regions() == old(Regions()) + [Mapped(offset, size)]
    {
      ghost var m := Map();
      offsets := offsets + [bytesWritten];
      underlying := underlying + [1 + offset];
      bytesWritten := ToU64(bytesWritten + size);
      Extended(m, Map(), Mapped(offset, size));
    }

    method Finish() returns (fm: FileMap)
      requires Valid()
      modifies this
      ensures fm.Valid() && fm.RegionList() == old(Regions())
      ensures fm.base64 == base64 && fm.dataStart == dataStart
    {
      offsets := offsets + [bytesWritten];
      fm := FileMap(base64, dataStart, offsets, underlying, direct);
    }
  }

  /** One more region leaves the earlier ones, and their tiling, as they were. */
  lemma Extended(m: FileMap, longer: FileMap, r: Region)
    requires m.Valid() && m.Tiled()
    requires longer.offsets == m.offsets + [m.FileSize() + Size(r)]
    requires longer.underlying == m.underlying + [if r.Mapped? then r.offset + 1 else -|m.direct|]
    requires longer.direct == m.direct + if r.Direct? then r.bytes else []
    ensures longer.Valid() && longer.Tiled()
    ensures longer.RegionList() == m.RegionList() + [r]
  {
    hide FileMap.RegionList, Directs;
    ExtendedList(m, longer, r);
    var rs, rs1 := m.RegionList(), longer.RegionList();
    Snoc(rs, r);
    forall i | 0 <= i < |longer.underlying| && longer.underlying[i] <= 0
      ensures -longer.underlying[i] == |Directs(rs1[..i])|
    {
      assert rs1[..i] == if i < |rs| then rs[..i] else rs;
    }
  }

  lemma ExtendedValid(m: FileMap, longer: FileMap, r: Region)
    requires m.Valid()
    requires longer.offsets == m.offsets + [m.FileSize() + Size(r)]
    requires longer.underlying == m.underlying + [if r.Mapped? then r.offset + 1 else -|m.direct|]
    requires longer.direct == m.direct + if r.Direct? then r.bytes else []
    ensures longer.Valid()
  {
  }

  lemma ExtendedList(m: FileMap, longer: FileMap, r: Region)
    requires m.Valid()
    requires longer.offsets == m.offsets + [m.FileSize() + Size(r)]
    requires longer.underlying == m.underlying + [if r.Mapped? then r.offset + 1 else -|m.direct|]
    requires longer.direct == m.direct + if r.Direct? then r.bytes else []
    ensures longer.Valid()
    ensures longer.RegionList() == m.RegionList() + [r]
  {
    hide FileMap.RegionAt, FileMap.Valid;
    ExtendedValid(m, longer, r);
    NewRegion(m, longer, r);
    var n, more := m.N(), if r.Direct? then r.bytes else [];
    forall i: nat | i < n ensures longer.RegionAt(i) == m.RegionAt(i) {
      SameRegion(m, longer, more, i);
    }
  }

  lemma NewRegion(m: FileMap, longer: FileMap, r: Region)
    requires m.Valid() && longer.Valid()
    requires longer.offsets == m.offsets + [m.FileSize() + Size(r)]
    requires longer.underlying == m.underlying + [if r.Mapped? then r.offset + 1 else -|m.direct|]
    requires longer.direct == m.direct + if r.Direct? then r.bytes else []
    ensures longer.RegionAt(m.N()) == r
  {
    SliceOfConcat(m.direct, if r.Direct? then r.bytes else [], 0, 0);
  }

  lemma SameRegion(m: FileMap, longer: FileMap, more: seq<byte>, i: nat)
    requires m.Valid() && longer.Valid() && i < m.N() <= longer.N()
    requires m.offsets[i] == longer.offsets[i] && m.offsets[i + 1] == longer.offsets[i + 1]
    requires m.underlying[i] == longer.underlying[i]
    requires longer.direct == m.direct + more
    ensures longer.RegionAt(i) == m.RegionAt(i)
  {
    if m.underlying[i] <= 0 {
      var start: nat := -m.underlying[i];
      SliceOfConcat(m.direct, more, start, start + (m.offsets[i + 1] - m.offsets[i]));
    }
  }
}
