/**
  How a file is cut into blocks (section "Selection of Block Size" of BEP v1), and what is computed
  from the blocks afterwards: the size of the file and the offsets of its blocks.
 */
module BlockDivision {

  const BLOCK_SIZES: seq<nat> := [0x2_0000, 0x4_0000, 0x8_0000, 0x10_0000, 0x20_0000, 0x40_0000, 0x80_0000, 0x100_0000]
  const BLOCK_SIZES_SZ: nat := 8
  const MAX_BLOCKS_COUNT: nat := 2000

  const TWO_31: int := 0x8000_0000
  const TWO_32: int := 0x1_0000_0000

  /** Conversion to a signed 32-bit integer. */
  function ToInt32(v: int): (r: int)
    ensures -TWO_31 <= r < TWO_31
    ensures r == v <==> -TWO_31 <= v < TWO_31
  {
    var low := v % TWO_32;
    if low >= TWO_31 then low - TWO_32 else low
  }

  // ----- The block size -----

  lemma Table()
    ensures |BLOCK_SIZES| == BLOCK_SIZES_SZ && BLOCK_SIZES[0] == 0x2_0000 && BLOCK_SIZES[7] == 0x100_0000
    ensures forall i :: 0 <= i < BLOCK_SIZES_SZ - 1 ==> BLOCK_SIZES[i + 1] == 2 * BLOCK_SIZES[i]
    ensures forall i :: 0 <= i < BLOCK_SIZES_SZ ==> 0x2_0000 <= BLOCK_SIZES[i] <= 0x100_0000
    ensures forall i, j :: 0 <= i < j < BLOCK_SIZES_SZ ==> BLOCK_SIZES[i] < BLOCK_SIZES[j]
  {
  }

  predicate Sufficient(bs: nat, sz: nat) {
    bs * MAX_BLOCKS_COUNT >= sz
  }

  /** The smallest sufficient table entry, or the whole file if that is smaller, or the largest entry. */
  ghost predicate IsChoice(bs: nat, sz: nat) {
    if forall i :: 0 <= i < BLOCK_SIZES_SZ ==> !Sufficient(BLOCK_SIZES[i], sz)
    then bs == BLOCK_SIZES[BLOCK_SIZES_SZ - 1]
    else exists k :: 0 <= k < BLOCK_SIZES_SZ && Sufficient(BLOCK_SIZES[k], sz)
                     && (forall i :: 0 <= i < k ==> !Sufficient(BLOCK_SIZES[i], sz))
                     && bs == if BLOCK_SIZES[k] > sz then sz else BLOCK_SIZES[k]
  }

  /** The block size of a previous version is kept for files of at least the smallest block. A negative
      size counts as one block of that size. */
  method ChooseSize(sz: int, prev: int) returns (bs: int)
    ensures 0x2_0000 <= sz && prev in BLOCK_SIZES ==> bs == prev
    ensures sz >= 0 && !(0x2_0000 <= sz && prev in BLOCK_SIZES) ==> bs >= 0 && IsChoice(bs, sz)
    ensures sz < 0 ==> bs == sz
    ensures bs <= 0x100_0000 && (bs == 0 <==> sz == 0) && (bs < 0 <==> sz < 0)
  {
    Table();
    bs := 0;
    if BLOCK_SIZES[0] <= sz {
      for i := 0 to BLOCK_SIZES_SZ
        invariant forall j :: 0 <= j < i ==> BLOCK_SIZES[j] != prev
        invariant bs == 0
      {
        if BLOCK_SIZES[i] == prev {
          bs := prev;
          return;
        }
      }
    }
    for i := 0 to BLOCK_SIZES_SZ
      invariant bs == 0 && forall j :: 0 <= j < i ==> BLOCK_SIZES[j] * MAX_BLOCKS_COUNT < sz
    {
      if BLOCK_SIZES[i] * MAX_BLOCKS_COUNT >= sz {
        assert sz >= 0 ==> Sufficient(BLOCK_SIZES[i], sz);
        bs := BLOCK_SIZES[i];
        if bs > sz {
          bs := sz;
        }
        return;
      }
    }
    if bs == 0 && sz != 0 {
      bs := BLOCK_SIZES[BLOCK_SIZES_SZ - 1];
    }
  }

  /** The division is right: all blocks but the last are needed, and all together are enough. */
  ghost predicate Divides(sz: nat, count: int, bs: int) {
    if sz == 0 then count == 0 && bs == 0
    else 0 < bs && 0 < count && (count - 1) * bs < sz <= count * bs
  }

  lemma Counted(sz: nat, bs: nat)
    requires 0 < bs && 0 < sz
    ensures var q := sz / bs; Divides(sz, if q * bs < sz then q + 1 else q, bs)
  {
    var q, r := sz / bs, sz % bs;
    assert sz == q * bs + r;
    assert (q - 1) * bs == q * bs - bs && (q + 1) * bs == q * bs + bs;
    assert q == 0 ==> q * bs == 0;
  }

  /** Division in the sense of C, towards zero, of numbers of the same sign. */
  function Quotient(a: int, b: int): int
    requires b != 0 && (a < 0 <==> b < 0)
  {
    if a < 0 then -a / -b else a / b
  }

  /** get_block_size. The count is a 32-bit integer. */
  method GetBlockSize(sz: int, prev: int) returns (count: int, size: int)
    ensures sz >= 0 ==> 0 <= size <= 0x100_0000 && (size == 0 <==> sz == 0)
    ensures 0x2_0000 <= sz && prev in BLOCK_SIZES ==> size == prev
    ensures sz >= 0 && !(0x2_0000 <= sz && prev in BLOCK_SIZES) ==> IsChoice(size, sz)
    ensures sz == 0 ==> Divides(sz, count, size)
    ensures sz > 0 ==> (Divides(sz, count, size) <==> Needed(sz, size) < TWO_31)
    ensures sz < 0 ==> count == 1 && size == ToInt32(sz)
  {
    var bs := ChooseSize(sz, prev);
    count := 0;
    if bs != 0 {
      if sz < 0 {
        Whole(-sz);
      }
      count := ToInt32(Quotient(sz, bs));
      if count * bs < sz {
        count := ToInt32(count + 1);
      }
      if sz > 0 {
        Rounded(sz, bs, count);
      }
    }
    size := ToInt32(bs);
  }

  /** The number of blocks that a file needs. */
  function Needed(sz: nat, bs: nat): (n: nat)
    requires 0 < bs
  {
    Ratio(sz + bs - 1, bs)
  }

  function Ratio(a: nat, b: nat): nat
    requires 0 < b
  {
    a / b
  }

  /** There is only one right number of blocks. */
  lemma OneDivision(sz: nat, count: int, bs: nat)
    requires 0 < sz && 0 < bs
    ensures Divides(sz, count, bs) <==> count == Needed(sz, bs)
  {
    hide Needed;
    NeededDivides(sz, bs);
    if Divides(sz, count, bs) {
      AtMost(sz, count, Needed(sz, bs), bs);
      AtMost(sz, Needed(sz, bs), count, bs);
    }
  }

  /** Fewer blocks than are enough can not all be needed. */
  lemma AtMost(sz: nat, a: int, b: int, bs: nat)
    requires (a - 1) * bs < sz <= b * bs
    ensures a <= b
  {
    if a > b {
      Monotone(b, a - 1, bs);
    }
  }

  lemma Monotone(a: int, b: int, bs: nat)
    requires a <= b
    ensures a * bs <= b * bs
  {
    assert (b - a) * bs >= 0;
  }

  lemma NeededDivides(sz: nat, bs: nat)
    requires 0 < sz && 0 < bs
    ensures Divides(sz, Needed(sz, bs), bs)
  {
    var n := Needed(sz, bs);
    var r := (sz + bs - 1) % bs;
    assert sz + bs - 1 == n * bs + r;
    assert (n - 1) * bs == n * bs - bs;
  }

  lemma QuotientOrNext(sz: nat, bs: nat)
    requires 0 < sz && 0 < bs
    ensures var q := sz / bs; Needed(sz, bs) == if q * bs < sz then q + 1 else q
  {
    hide Needed;
    var q := sz / bs;
    Counted(sz, bs);
    OneDivision(sz, if q * bs < sz then q + 1 else q, bs);
  }

  /** What the two steps of rounding up make of the number of blocks. */
  lemma Rounded(sz: nat, bs: nat, count: int)
    requires 0 < sz && 0 < bs
    requires var c := ToInt32(sz / bs); count == if c * bs < sz then ToInt32(c + 1) else c
    ensures Divides(sz, count, bs) <==> Needed(sz, bs) < TWO_31
  {
    hide Needed, Divides;
    Bounded(sz, bs);
    OneDivision(sz, count, bs);
    QuotientOrNext(sz, bs);
  }

  /** A file of 2^55 bytes is cut into the largest blocks, and no 32-bit number of them makes it up. */
  lemma CountWraps()
    ensures IsChoice(0x100_0000, 0x80_0000_0000_0000)
    ensures forall count :: -TWO_31 <= count < TWO_31 ==> !Divides(0x80_0000_0000_0000, count, 0x100_0000)
  {
    Table();
    var sz := 0x80_0000_0000_0000;
    assert Needed(sz, 0x100_0000) == TWO_31;
    forall count | -TWO_31 <= count < TWO_31 ensures !Divides(sz, count, 0x100_0000) {
      OneDivision(sz, count, 0x100_0000);
    }
  }

  lemma Whole(v: nat)
    requires v > 0
    ensures v / v == 1
  {
  }

  lemma Bounded(sz: nat, bs: nat)
    requires bs > 0
    ensures 0 <= sz / bs
  {
  }

  /** Without a previous size and up to 2000 times the largest block no more than 2000 blocks are made. */
  lemma AtMostMaxBlocks(sz: nat, bs: nat, count: int)
    requires IsChoice(bs, sz) && Divides(sz, count, bs) && sz <= 0x100_0000 * 2000
    ensures count <= 2000
  {
    Table();
    assert Sufficient(BLOCK_SIZES[7], sz);
    if sz > 0 {
      var k :| 0 <= k < BLOCK_SIZES_SZ && Sufficient(BLOCK_SIZES[k], sz)
               && (forall i :: 0 <= i < k ==> !Sufficient(BLOCK_SIZES[i], sz))
               && bs == if BLOCK_SIZES[k] > sz then sz else BLOCK_SIZES[k];
      CountBound(sz, bs, count);
    }
  }

  /** With any smaller size of the table the file would have more than 2000 blocks; small files are one
      block, and files that need more than 2000 of the largest blocks have those. */
  lemma LeastSize(sz: nat, bs: nat, i: nat)
    requires IsChoice(bs, sz) && i < BLOCK_SIZES_SZ && sz > 0
    ensures BLOCK_SIZES[i] < bs ==> Needed(sz, BLOCK_SIZES[i]) > 2000
    ensures sz <= 0x2_0000 ==> bs == sz
    ensures sz > 0x100_0000 * 2000 ==> bs == 0x100_0000
    ensures bs == sz || bs in BLOCK_SIZES
  {
    Table();
    if BLOCK_SIZES[i] < bs {
      assert !Sufficient(BLOCK_SIZES[i], sz);
      hide Needed;
      NeededDivides(sz, BLOCK_SIZES[i]);
      Exceeds(Needed(sz, BLOCK_SIZES[i]), BLOCK_SIZES[i], sz);
    }
    if sz <= 0x2_0000 {
      assert Sufficient(BLOCK_SIZES[0], sz);
    }
    if sz > 0x100_0000 * 2000 {
      assert forall k :: 0 <= k < BLOCK_SIZES_SZ ==> !Sufficient(BLOCK_SIZES[k], sz);
    }
  }

  lemma Exceeds(n: nat, e: nat, sz: nat)
    requires sz <= n * e && e * 2000 < sz
    ensures n > 2000
  {
    assert n * e > 2000 * e;
  }

  lemma CountBound(sz: nat, bs: nat, count: int)
    requires 0 < bs && bs * MAX_BLOCKS_COUNT >= sz && (count - 1) * bs < sz
    ensures count <= MAX_BLOCKS_COUNT
  {
    assert count - 1 >= MAX_BLOCKS_COUNT ==> (count - 1) * bs >= MAX_BLOCKS_COUNT * bs;
  }

  // ----- What is computed from the blocks -----

  /** The sizes of the blocks of a file that is cut this way. */
  function Cut(sz: nat, count: nat, bs: nat): (r: seq<nat>)
    requires count > 0 && (count - 1) * bs <= sz
    ensures |r| == count && r[count - 1] == sz - (count - 1) * bs
    ensures forall i :: 0 <= i < count - 1 ==> r[i] == bs
  {
    Repeated(count - 1, bs) + [sz - (count - 1) * bs]
  }

  function Repeated(n: nat, v: nat): (r: seq<nat>)
    ensures |r| == n && forall i :: 0 <= i < n ==> r[i] == v
  {
    if n == 0 then [] else Repeated(n - 1, v) + [v]
  }

  /** get_size of a file that is neither deleted nor invalid: the product of the 32-bit number of
      blocks and the 32-bit block size is a 32-bit number. */
  function GetSize(sizes: seq<nat>): int {
    if sizes == [] then 0
    else if |sizes| == 1 then sizes[0]
    else sizes[|sizes| - 1] + (|sizes| - 1) * sizes[0] % TWO_32
  }

  /** get_block_offset */
  function GetBlockOffset(sizes: seq<nat>, i: nat): nat
    requires sizes != []
  {
    sizes[0] * i
  }

  /** The sum of the first `i` sizes. */
  function Offset(sizes: seq<nat>, i: nat): nat
    requires i <= |sizes|
  {
    if i == 0 then 0 else Offset(sizes, i - 1) + sizes[i - 1]
  }

  lemma {:induction false} OffsetOfEqual(sizes: seq<nat>, i: nat, bs: nat)
    requires i <= |sizes| && forall j :: 0 <= j < i ==> sizes[j] == bs
    ensures Offset(sizes, i) == i * bs
  {
    if i > 0 {
      OffsetOfEqual(sizes, i - 1, bs);
    }
  }

  /** The offset of every block is the running sum of the sizes before it, and all sizes make the file. */
  lemma OffsetsAgree(sz: nat, count: nat, bs: nat, i: nat)
    requires 0 < sz && Divides(sz, count, bs) && i < count
    ensures GetBlockOffset(Cut(sz, count, bs), i) == Offset(Cut(sz, count, bs), i) == i * bs
    ensures Offset(Cut(sz, count, bs), count) == sz
  {
    var sizes := Cut(sz, count, bs);
    OffsetOfEqual(sizes, i, bs);
    OffsetOfEqual(sizes, count - 1, bs);
    if i > 0 {
      assert sizes[0] == bs;
    }
  }

  /** The running offset of as_proto. */
  method ProtoOffsets(sizes: seq<nat>) returns (offsets: seq<nat>)
    ensures |offsets| == |sizes| && forall i :: 0 <= i < |sizes| ==> offsets[i] == Offset(sizes, i)
  {
    offsets := [];
    var offset := 0;
    for i := 0 to |sizes|
      invariant |offsets| == i && offset == Offset(sizes, i)
      invariant forall j :: 0 <= j < i ==> offsets[j] == Offset(sizes, j)
    {
      offsets := offsets + [offset];
      offset := offset + sizes[i];
    }
  }

  lemma SmallProduct(v: int)
    requires v >= 0
    ensures v % TWO_32 == v <==> v < TWO_32
  {
  }

  /** get_size returns the size of the file exactly while all blocks but the last are below 4 GiB. */
  lemma GetSizeExact(sz: nat, count: nat, bs: nat)
    requires 0 < sz && Divides(sz, count, bs)
    ensures GetSize(Cut(sz, count, bs)) == sz <==> (count - 1) * bs < TWO_32
  {
    SmallProduct((count - 1) * bs);
  }

  /** A file of 4 GiB and one byte has 1025 blocks of 4 MiB, and reports a size of one byte. */
  lemma GetSizeWraps()
    ensures Divides(0x1_0000_0001, 1025, 0x40_0000) && IsChoice(0x40_0000, 0x1_0000_0001)
    ensures GetSize(Cut(0x1_0000_0001, 1025, 0x40_0000)) == 1
  {
    Table();
    assert !Sufficient(BLOCK_SIZES[0], 0x1_0000_0001) && !Sufficient(BLOCK_SIZES[1], 0x1_0000_0001);
    assert !Sufficient(BLOCK_SIZES[2], 0x1_0000_0001) && !Sufficient(BLOCK_SIZES[3], 0x1_0000_0001);
    assert !Sufficient(BLOCK_SIZES[4], 0x1_0000_0001) && Sufficient(BLOCK_SIZES[5], 0x1_0000_0001);
  }

  /** The offset that a Request carries is the offset of the block exactly below 2 GiB. */
  lemma RequestOffsetExact(sz: nat, count: nat, bs: nat, i: nat)
    requires 0 < sz && Divides(sz, count, bs) && i < count
    ensures ToInt32(GetBlockOffset(Cut(sz, count, bs), i)) == Offset(Cut(sz, count, bs), i) <==> i * bs < TWO_31
  {
    OffsetsAgree(sz, count, bs, i);
  }

  /** A file of 2 GiB and one byte has 1025 blocks of 2 MiB; the Request for the last one asks for a
      negative offset. */
  lemma RequestOffsetWraps()
    ensures Divides(0x8000_0001, 1025, 0x20_0000) && IsChoice(0x20_0000, 0x8000_0001)
    ensures Offset(Cut(0x8000_0001, 1025, 0x20_0000), 1024) == 0x8000_0000
    ensures ToInt32(GetBlockOffset(Cut(0x8000_0001, 1025, 0x20_0000), 1024)) == -0x8000_0000
  {
    Table();
    assert !Sufficient(BLOCK_SIZES[0], 0x8000_0001) && !Sufficient(BLOCK_SIZES[1], 0x8000_0001);
    assert !Sufficient(BLOCK_SIZES[2], 0x8000_0001) && !Sufficient(BLOCK_SIZES[3], 0x8000_0001);
    assert Sufficient(BLOCK_SIZES[4], 0x8000_0001);
    OffsetsAgree(0x8000_0001, 1025, 0x20_0000, 1024);
  }
}
