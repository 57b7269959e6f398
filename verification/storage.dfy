/** The file below the virtual file system. */
module Storage {
  import opened Bytes

  /** An immutable file reached through the operating system, whose reads may
      fail, or may deliver fewer bytes than there are. */
  datatype OSFile = OSFile(bytes: seq<byte>, mayFail: bool, mayReadShort: bool) {

    predicate Steady() {
      !mayFail && !mayReadShort
    }

    /** POSIX `pread`: -1 is an error, 0 means end of file (or an empty request). */
    method Pread(buf: array<byte>, at: nat, size: nat, offset: nat) returns (nr: int)
      requires at + size <= buf.Length
      modifies buf
      ensures MayAnswer(size, offset, nr)
      ensures nr > 0 ==> Holds(buf[..], at, bytes[offset..offset + nr])
      ensures Untouched(old(buf[..]), buf[..], at, size)
    {
      var avail := Available(bytes, size, offset);
      nr := avail;
      var pick: int := *;
      if mayFail && pick < 0 {
        nr := -1;
      } else if mayReadShort && 0 < pick < avail {
        nr := pick;
      }
      if nr > 0 {
        Memcpy(buf, at, bytes[offset..offset + nr]);
      }
    }

    /** The answers `pread` may give to a request. */
    predicate MayAnswer(size: nat, offset: nat, nr: int) {
      && -1 <= nr <= size
      && (nr > 0 ==> offset + nr <= |bytes|)
      && (nr == 0 ==> size == 0 || |bytes| <= offset)
      && (nr == -1 ==> mayFail)
      && (0 <= nr < Available(bytes, size, offset) ==> mayReadShort)
    }
  }
}
