/**
 How many rows the 100-block image takes.  Rows are at most 255 bytes, so a block is left only with fewer than
 255 bytes free; the image therefore takes 1567 rows whatever their lengths, and not always 1568.
 */
module LogCapacity {
  import opened LogVolume

  const IMAGE_BLOCKS := 100
  const HEADER_SIZE := 58
  const ROW_MAX := 255
  const GUARANTEED_ROWS := 1567

  // The last block the file occupies and how many of its bytes are used.
  function LastBlock(size: nat): nat
    requires size > 0
  {
    (size - 1) / BLOCK
  }

  function Used(size: nat): (f: nat)
    requires size > 0
    ensures 1 <= f <= BLOCK && size == LastBlock(size) * BLOCK + f
  {
    size - LastBlock(size) * BLOCK
  }

  // n rows can have filled no more than this: 15 rows at least were needed to leave the first block, 16 for
  // each later one.
  ghost predicate Packed(size: nat, n: nat) {
    && size > 0
    && if LastBlock(size) == 0 then size <= HEADER_SIZE + ROW_MAX * n
       else Used(size) <= ROW_MAX * (n - 15 - 16 * (LastBlock(size) - 1))
  }

  lemma LastBlockIs(size: nat, b: nat)
    requires b * BLOCK < size <= (b + 1) * BLOCK
    ensures LastBlock(size) == b && Used(size) == size - b * BLOCK
  {
  }

  lemma ModUsed(size: nat)
    requires size > 0
    ensures size % BLOCK == if Used(size) == BLOCK then 0 else Used(size)
    ensures size / BLOCK == if Used(size) == BLOCK then LastBlock(size) + 1 else LastBlock(size)
  {
  }

  // Leaving a block takes enough rows.
  lemma LeavingBlock(size: nat, n: nat)
    requires Packed(size, n) && Used(size) > BLOCK - ROW_MAX
    ensures n >= 15 + 16 * LastBlock(size)
  {
  }

  lemma PackedStep(size: nat, n: nat, r: nat)
    requires Packed(size, n) && r <= ROW_MAX
    ensures Packed(Start(size, r) + r, n + 1)
    ensures n < GUARANTEED_ROWS ==> Start(size, r) / BLOCK + 2 < IMAGE_BLOCKS
  {
    var b, f := LastBlock(size), Used(size);
    ModUsed(size);
    StartInBlock(size, r);
    if f > BLOCK - ROW_MAX {
      LeavingBlock(size, n);
    }
    if f == BLOCK || BLOCK - f < r {
      assert Start(size, r) == (b + 1) * BLOCK;
      if r > 0 {
        LastBlockIs(Start(size, r) + r, b + 1);
      }
    } else {
      assert Start(size, r) == size;
      LastBlockIs(size + r, b);
    }
    PackedBlocks(size, n);
  }

  // Before row 1568 the file is inside the image's 98 data blocks.
  lemma PackedBlocks(size: nat, n: nat)
    requires Packed(size, n)
    ensures n <= GUARANTEED_ROWS ==> LastBlock(size) <= 97
  {
  }

  ghost predicate Rows(rows: seq<seq<char>>) {
    forall i :: 0 <= i < |rows| ==> |rows[i]| <= ROW_MAX
  }

  lemma {:induction false} RunIsPacked(v: Volume, rows: seq<seq<char>>)
    requires Valid(v) && v.size == HEADER_SIZE && Rows(rows)
    ensures Payloads(rows) && Packed(AppendAll(v, rows).size, |rows|)
    decreases |rows|
  {
    if rows == [] {
    } else {
      RunIsPacked(v, rows[..|rows| - 1]);
      PackedAppend(AppendAll(v, rows[..|rows| - 1]), |rows| - 1, rows[|rows| - 1]);
    }
  }

  lemma PackedAppend(v: Volume, n: nat, row: seq<char>)
    requires Valid(v) && Packed(v.size, n) && |row| <= ROW_MAX
    ensures Packed(Append(v, row).size, n + 1)
  {
    PackedStep(v.size, n, |row|);
    PackedMonotone(v.size, n);
  }

  lemma PackedMonotone(size: nat, n: nat)
    requires Packed(size, n)
    ensures Packed(size, n + 1)
  {
  }

  // A freshly made image takes any 1567 rows: after fewer of them, of whatever lengths, the next one fits.
  lemma CapacityBound(v: Volume, rows: seq<seq<char>>, row: seq<char>)
    requires Valid(v) && |v.image| == IMAGE_BLOCKS * BLOCK && v.size == HEADER_SIZE
    requires Rows(rows) && |row| <= ROW_MAX && |rows| < GUARANTEED_ROWS
    ensures Payloads(rows) && Fits(AppendAll(v, rows), |row|)
  {
    RunIsPacked(v, rows);
    PackedStep(AppendAll(v, rows).size, |rows|, |row|);
  }

  // ---------------------------------------------------------------- the bound is exact

  // The file size after n rows of the largest length.
  function FullSize(n: nat): nat {
    if n <= 15 then HEADER_SIZE + ROW_MAX * n
    else (1 + (n - 16) / 16) * BLOCK + ROW_MAX * ((n - 16) % 16 + 1)
  }

  lemma FullSizeStep(n: nat)
    ensures Start(FullSize(n), ROW_MAX) + ROW_MAX == FullSize(n + 1)
    ensures n < GUARANTEED_ROWS ==> Start(FullSize(n), ROW_MAX) / BLOCK + 2 < IMAGE_BLOCKS
    ensures n == GUARANTEED_ROWS ==> Start(FullSize(n), ROW_MAX) / BLOCK + 2 >= IMAGE_BLOCKS
  {
    if n > 15 {
      var q, k := (n - 16) / 16, (n - 16) % 16;
      assert n - 16 == 16 * q + k;
      var base := (1 + q) * BLOCK;
      assert FullSize(n) == base + ROW_MAX * (k + 1);
      assert FullSize(n) % BLOCK == ROW_MAX * (k + 1) && FullSize(n) / BLOCK == 1 + q;
      if k == 15 {
        assert (n + 1 - 16) / 16 == q + 1 && (n + 1 - 16) % 16 == 0;
      } else {
        assert (n + 1 - 16) / 16 == q && (n + 1 - 16) % 16 == k + 1;
      }
    }
  }

  ghost predicate FullRows(rows: seq<seq<char>>) {
    forall i :: 0 <= i < |rows| ==> |rows[i]| == ROW_MAX
  }

  lemma {:induction false} FullRun(v: Volume, rows: seq<seq<char>>)
    requires Valid(v) && |v.image| == IMAGE_BLOCKS * BLOCK && v.size == HEADER_SIZE
    requires FullRows(rows) && |rows| <= GUARANTEED_ROWS
    ensures Payloads(rows) && AppendAll(v, rows).size == FullSize(|rows|)
    decreases |rows|
  {
    if rows == [] {
    } else {
      FullRun(v, rows[..|rows| - 1]);
      FullSizeStep(|rows| - 1);
    }
  }

  // After 1567 rows of 255 bytes there is no room for another.
  lemma CapacityIsExact(v: Volume, rows: seq<seq<char>>, row: seq<char>)
    requires Valid(v) && |v.image| == IMAGE_BLOCKS * BLOCK && v.size == HEADER_SIZE
    requires FullRows(rows) && |rows| == GUARANTEED_ROWS && |row| == ROW_MAX
    ensures Payloads(rows) && !Fits(AppendAll(v, rows), |row|)
  {
    FullRun(v, rows);
    FullSizeStep(GUARANTEED_ROWS);
  }
}
