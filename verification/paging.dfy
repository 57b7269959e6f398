/** How arrays fall into pages, and how their values are counted. */
module Paging {
  import opened Bytes
  import opened Layout

  /** Array headers as parsed (arr.h:59-79). */
  datatype CompressedArray = CompressedArray(
    numBlks: nat, blkSz: nat, lastBlkSz: nat, compressedBlkSz: seq<nat>, dataStart: nat)

  datatype UncompressedArray = UncompressedArray(totalBytes: nat, dataStart: nat)

  const PAGE: nat := 32768

  /** Unpacked block sizes: all alike but the last. */
  function BlockSizes(numBlks: nat, blkSz: nat, lastBlkSz: nat): (us: seq<nat>)
    ensures |us| == numBlks
  {
    seq(numBlks, i requires 0 <= i < numBlks => if i < numBlks - 1 then blkSz else lastBlkSz)
  }

  /** The pages of an uncompressed array (fmap.cc:391-393). */
  function PageSizes(totalBytes: nat): seq<nat>
    requires totalBytes >= 1
  {
    BlockSizes((totalBytes + PAGE - 1) / PAGE, PAGE, (totalBytes - 1) % PAGE + 1)
  }

  lemma {:induction false} SumOfEqual(us: seq<nat>, k: nat)
    requires forall i :: 0 <= i < |us| ==> us[i] == k
    ensures Sum(us) == |us| * k
  {
    if us != [] {
      SumOfEqual(us[..|us| - 1], k);
      calc {
        (|us| - 1) * k + k;
        |us| * k;
      }
    }
  }

  lemma PageGeometry(totalBytes: nat)
    requires totalBytes >= 1
    ensures var n, last := (totalBytes + PAGE - 1) / PAGE, (totalBytes - 1) % PAGE + 1;
            1 <= n && 1 <= last <= PAGE && (n - 1) * PAGE + last == totalBytes
  {
    var q, r := (totalBytes - 1) / PAGE, (totalBytes - 1) % PAGE;
    assert totalBytes - 1 == q * PAGE + r;
    assert totalBytes + PAGE - 1 == (q + 1) * PAGE + r;
  }

  /** The pages split the array in order: whole pages up to the last, which
      holds what is left, at least one byte; pages start at multiples of the
      page size, so on a value boundary for every value size. */
  lemma PagesPartition(totalBytes: nat, i: nat)
    requires totalBytes >= 1 && i < |PageSizes(totalBytes)|
    ensures var us := PageSizes(totalBytes);
            && us != [] && Sum(us) == totalBytes
            && 1 <= us[|us| - 1] <= 32768
            && (i < |us| - 1 ==> us[i] == 32768)
            && Sum(us[..i]) == 32768 * i
            && Sum(us[..i]) % 4 == 0 && Sum(us[..i]) % 8 == 0
  {
    hide Sum;
    PageGeometry(totalBytes);
    var us := PageSizes(totalBytes);
    SumOfEqual(us[..|us| - 1], PAGE);
    SumOfEqual(us[..i], PAGE);
    SumLast(us);
  }

  /** Bytes that are not part of a whole value of `v` bytes, page by page. */
  function Remainders(v: nat, us: seq<nat>): nat
    requires v > 0
  {
    if us == [] then 0 else Remainders(v, us[..|us| - 1]) + us[|us| - 1] % v
  }

  lemma {:induction false} CountAndLeftover(f: Format, us: seq<nat>)
    requires Usable(f)
    ensures Sum(us) == ValueSize(f.t) * Count(f, us) + Remainders(ValueSize(f.t), us)
  {
    if us != [] {
      var v, n := ValueSize(f.t), |us| - 1;
      CountAndLeftover(f, us[..n]);
      var q, r := us[n] / v, us[n] % v;
      assert us[n] == v * q + r;
      assert v * (Count(f, us[..n]) + q) == v * Count(f, us[..n]) + v * q;
    }
  }

  /** An array of `total` bytes that is declared as pages of the given sizes: the
      row count summed page by page is its number of whole values exactly when
      what the pages leave over and what they leave out make less than one value. */
  lemma CountIffLeftover(f: Format, us: seq<nat>, total: nat)
    requires Usable(f)
    ensures Count(f, us) == total / ValueSize(f.t)
            <==> 0 <= Remainders(ValueSize(f.t), us) + (total - Sum(us)) < ValueSize(f.t)
  {
    CountAndLeftover(f, us);
    DivisionIff(total, ValueSize(f.t), Count(f, us), Remainders(ValueSize(f.t), us) + (total - Sum(us)));
  }

  /** Two blocks of six bytes hold two whole values of four bytes, twelve bytes hold three. */
  lemma ShortCount(f: Format)
    requires Usable(f) && ValueSize(f.t) == 4
    ensures Count(f, [6, 6]) == 2 && Sum([6, 6]) / ValueSize(f.t) == 3 && Remainders(ValueSize(f.t), [6, 6]) == 4
  {
    hide ValueSize;
    var two: seq<nat>, one: seq<nat> := [6, 6], [6];
    assert two[..1] == one && one[..0] == [];
    assert Count(f, one) == 1 && Remainders(ValueSize(f.t), one) == 2 && Sum(one) == 6;
  }

  lemma {:induction false} WholeBlocksLeaveNothing(f: Format, us: seq<nat>)
    requires Usable(f) && forall i :: 0 <= i < |us| ==> us[i] % ValueSize(f.t) == 0
    ensures Remainders(ValueSize(f.t), us) == 0
  {
    if us != [] {
      WholeBlocksLeaveNothing(f, us[..|us| - 1]);
    }
  }

  /** With blocks of whole values the count is right for the sizes declared,
      whatever is declared of the last block. */
  lemma BlockCount(f: Format, numBlks: nat, blkSz: nat, lastBlkSz: nat)
    requires Usable(f) && numBlks >= 1 && blkSz % ValueSize(f.t) == 0
    ensures var us := BlockSizes(numBlks, blkSz, lastBlkSz);
            Count(f, us) == Sum(us) / ValueSize(f.t)
  {
    var us := BlockSizes(numBlks, blkSz, lastBlkSz);
    WholeBlocksLeaveNothing(f, us[..numBlks - 1]);
    assert Remainders(ValueSize(f.t), us) == lastBlkSz % ValueSize(f.t);
    CountIffLeftover(f, us, Sum(us));
  }

  // Compressed arrays: what is declared of the last block, and what it is.

  /** An array of `total` bytes is cut into `n` blocks of `blkSz` bytes, the last with what is left. */
  predicate IsCut(n: nat, blkSz: nat, total: nat) {
    blkSz >= 1 && total >= 1 && n == (total + blkSz - 1) / blkSz
  }

  /** The size of the last block. */
  function TrueLast(blkSz: nat, total: nat): nat
    requires blkSz >= 1 && total >= 1
  {
    (total - 1) % blkSz + 1
  }

  lemma BlockGeometry(n: nat, blkSz: nat, total: nat)
    requires IsCut(n, blkSz, total)
    ensures n >= 1 && 1 <= TrueLast(blkSz, total) <= blkSz
    ensures (n - 1) * blkSz + TrueLast(blkSz, total) == total
    ensures total % blkSz == if TrueLast(blkSz, total) == blkSz then 0 else TrueLast(blkSz, total)
  {
    var q, r := (total - 1) / blkSz, (total - 1) % blkSz;
    assert total - 1 == blkSz * q + r;
    assert total + blkSz - 1 == blkSz * (q + 1) + r;
    Quotient(total + blkSz - 1, blkSz, q + 1, r);
    if r + 1 == blkSz {
      assert total == blkSz * (q + 1) + 0;
      Quotient(total, blkSz, q + 1, 0);
    } else {
      Quotient(total, blkSz, q, r + 1);
    }
  }

  lemma SumOfBlocks(n: nat, blkSz: nat, total: nat)
    requires IsCut(n, blkSz, total)
    ensures Sum(BlockSizes(n, blkSz, TrueLast(blkSz, total))) == total
  {
    hide Sum, TrueLast;
    BlockGeometry(n, blkSz, total);
    var us := BlockSizes(n, blkSz, TrueLast(blkSz, total));
    SumOfEqual(us[..n - 1], blkSz);
    SumLast(us);
  }

  /** With blocks of whole values the count is right for the array exactly when
      as many whole values are declared of the last block as it has. */
  lemma RowsIffLastBlock(f: Format, n: nat, blkSz: nat, lastBlkSz: nat, total: nat)
    requires Usable(f) && IsCut(n, blkSz, total) && blkSz % ValueSize(f.t) == 0
    ensures Count(f, BlockSizes(n, blkSz, lastBlkSz)) == total / ValueSize(f.t)
            <==> lastBlkSz / ValueSize(f.t) == TrueLast(blkSz, total) / ValueSize(f.t)
  {
    hide ValueSize, Sum, TrueLast;
    BlockGeometry(n, blkSz, total);
    SumOfBlocks(n, blkSz, total);
    BlockCount(f, n, blkSz, TrueLast(blkSz, total));
    var declared, actual := BlockSizes(n, blkSz, lastBlkSz), BlockSizes(n, blkSz, TrueLast(blkSz, total));
    assert declared[..n - 1] == actual[..n - 1];
  }

  /** So a header that gives the size of the last partial block, and zero if there
      is none, is counted right exactly when there is one. */
  lemma RowsIffPartial(f: Format, n: nat, blkSz: nat, total: nat)
    requires Usable(f) && IsCut(n, blkSz, total) && blkSz % ValueSize(f.t) == 0
    ensures Count(f, BlockSizes(n, blkSz, total % blkSz)) == total / ValueSize(f.t) <==> total % blkSz != 0
  {
    BlockGeometry(n, blkSz, total);
    RowsIffLastBlock(f, n, blkSz, total % blkSz, total);
    AtLeastOne(blkSz, ValueSize(f.t));
  }

  lemma AtLeastOne(n: nat, v: nat)
    requires n > 0 && v > 0 && n % v == 0
    ensures n / v > 0
  {
    assert n == v * (n / v);
  }

  /** Two blocks of eight bytes are four values of four bytes; with nothing
      declared of the second block two are counted. */
  lemma FullLastBlock(f: Format)
    requires Usable(f) && ValueSize(f.t) == 4
    ensures IsCut(2, 8, 16) && 16 % 8 == 0 && 16 / ValueSize(f.t) == 4
    ensures BlockSizes(2, 8, 16 % 8) == [8, 0] && Count(f, [8, 0]) == 2
  {
    hide ValueSize;
    var two: seq<nat>, one: seq<nat> := [8, 0], [8];
    assert two[..1] == one && one[..0] == [];
    assert Count(f, one) == 2;
  }

  /** An uncompressed array has as many rows as it has whole values. */
  lemma PageCount(f: Format, totalBytes: nat)
    requires Usable(f) && totalBytes >= 1
    ensures Count(f, PageSizes(totalBytes)) == totalBytes / ValueSize(f.t)
  {
    var us := PageSizes(totalBytes);
    PagesPartition(totalBytes, 0);
    BlockCount(f, |us|, PAGE, (totalBytes - 1) % PAGE + 1);
  }

  /** The page header divides a signed 32-bit size, the running total an
      unsigned one. They agree on a page exactly when it is below 2 GiB. */
  lemma PageCountIffSmall(f: Format, u: nat)
    requires Usable(f) && u < TWO32
    ensures DivTrunc(ToI32(u), ValueSize(f.t)) == u / ValueSize(f.t) <==> u < TWO31
  {
  }
}
