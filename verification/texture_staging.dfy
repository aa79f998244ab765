/** What a texture upload writes into its mapped upload buffer: the decoded bitmap is
    tightly packed (`rowBytes` = width * 4 bytes per row of 32-bit RGBA), the upload
    buffer's rows are `rowPitch` bytes apart as the copyable footprint says, and each
    row copy writes only the first `rowBytes` bytes of its destination row.

    Both loaders use this: ImageLoader::LoadImage copies rows in order,
    ResourceManager::LoadImage copies them bottom-up (a vertical flip). */
module TextureStaging {
  import opened SizeT
  import opened Memory

  /** The fields of D3D12_SUBRESOURCE_FOOTPRINT that the row loops read. */
  datatype Footprint = Footprint(rowPitch: nat, height: nat)

  /** `bitmapWidth * 4`: the bytes in one row of 32-bit RGBA pixels, computed in uint32_t. */
  function RowBytes(width: u32): (r: u32)
    ensures width < 0x4000_0000 ==> r == 4 * width
    ensures (4 * width - r) % 0x1_0000_0000 == 0
  {
    Trunc32(4 * width)
  }

  /** The bitmap row that lands in upload row `row`. */
  function SourceRow(row: nat, height: nat, flipped: bool): (src: nat)
    requires row < height
    ensures src < height
    ensures flipped ==> src + row == height - 1
    ensures !flipped ==> src == row
  {
    if flipped then height - 1 - row else row
  }

  /** Byte offset of row `row` in a buffer whose rows are `width` bytes apart
      (row * width, written as repeated addition so proofs about row layout stay linear). */
  function RowOffset(row: nat, width: nat): nat
  {
    if row == 0 then 0 else RowOffset(row - 1, width) + width
  }

  /** RowOffset is the product the loops compute. */
  lemma {:induction false} RowOffsetIsProduct(row: nat, width: nat)
    ensures RowOffset(row, width) == row * width
  {
    if row > 0 {
      RowOffsetIsProduct(row - 1, width);
      MulSucc(row - 1, width);
    }
  }

  /** Row i ends no later than row r > i starts: rows do not overlap. */
  lemma {:induction false} EarlierRowEndsBefore(i: nat, r: nat, width: nat)
    requires i < r
    ensures RowOffset(i, width) + width <= RowOffset(r, width)
  {
    if i < r - 1 {
      EarlierRowEndsBefore(i, r - 1, width);
    }
  }

  /** The buffers are large enough for the loop: a row's payload fits in its pitch, the
      bitmap holds `height` packed rows, and the last row ends inside the upload buffer. */
  predicate Fits(uploadLength: nat, bitmapLength: nat, rowBytes: nat, fp: Footprint)
  {
    rowBytes <= fp.rowPitch &&
    RowOffset(fp.height, rowBytes) <= bitmapLength &&
    (fp.height == 0 || RowOffset(fp.height - 1, fp.rowPitch) + rowBytes <= uploadLength)
  }

  /** Row `row` of the upload buffer, payload bytes only, lies inside it. */
  lemma RowInsideUpload(uploadLength: nat, bitmapLength: nat, rowBytes: nat, fp: Footprint,
                        row: nat)
    requires Fits(uploadLength, bitmapLength, rowBytes, fp)
    requires row < fp.height
    ensures RowOffset(row, fp.rowPitch) + rowBytes <= uploadLength
  {
    if row < fp.height - 1 {
      EarlierRowEndsBefore(row, fp.height - 1, fp.rowPitch);
    }
  }

  /** Row `src` of a packed bitmap of `height` rows lies inside the bitmap. */
  lemma BitmapRowInside(src: nat, rowBytes: nat, height: nat)
    requires src < height
    ensures RowOffset(src, rowBytes) + rowBytes <= RowOffset(height, rowBytes)
  {
    EarlierRowEndsBefore(src, height, rowBytes);
  }

  /** The upload buffer once the first `rows` rows are copied: row r's copy is one memcpy
      of rowBytes bytes from bitmap row SourceRow(r) to offset r * rowPitch. */
  function Staged(before: seq<byte>, bitmap: seq<byte>, rowBytes: nat, fp: Footprint,
                  rows: nat, flipped: bool): (after: seq<byte>)
    requires rows <= fp.height && Fits(|before|, |bitmap|, rowBytes, fp)
    ensures |after| == |before|
    decreases rows
  {
    if rows == 0 then before
    else
      var row := rows - 1;
      var src := SourceRow(row, fp.height, flipped);
      RowInsideUpload(|before|, |bitmap|, rowBytes, fp, row);
      BitmapRowInside(src, rowBytes, fp.height);
      Overwritten(Staged(before, bitmap, rowBytes, fp, row, flipped),
                  RowOffset(row, fp.rowPitch), bitmap, RowOffset(src, rowBytes), rowBytes)
  }

  /** One more row: the copy of row rows - 1 lands inside both buffers and is applied on
      top of the first rows - 1 copies. */
  lemma StagedStep(before: seq<byte>, bitmap: seq<byte>, rowBytes: nat, fp: Footprint,
                   rows: nat, flipped: bool)
    requires 0 < rows <= fp.height && Fits(|before|, |bitmap|, rowBytes, fp)
    ensures RowOffset(rows - 1, fp.rowPitch) + rowBytes <= |before|
    ensures RowOffset(SourceRow(rows - 1, fp.height, flipped), rowBytes) + rowBytes <= |bitmap|
    ensures Staged(before, bitmap, rowBytes, fp, rows, flipped)
            == Overwritten(Staged(before, bitmap, rowBytes, fp, rows - 1, flipped),
                           RowOffset(rows - 1, fp.rowPitch), bitmap,
                           RowOffset(SourceRow(rows - 1, fp.height, flipped), rowBytes), rowBytes)
  {
    RowInsideUpload(|before|, |bitmap|, rowBytes, fp, rows - 1);
    BitmapRowInside(SourceRow(rows - 1, fp.height, flipped), rowBytes, fp.height);
  }

  /** Row i of the staged buffer, at offset i * rowPitch, holds the rowBytes bytes of
      bitmap row SourceRow(i): row i unflipped, row height - 1 - i flipped. */
  lemma {:induction false} StagedRowHoldsBitmapRow(before: seq<byte>, bitmap: seq<byte>,
                                rowBytes: nat, fp: Footprint, rows: nat, flipped: bool,
                                i: nat, j: nat)
    requires rows <= fp.height && Fits(|before|, |bitmap|, rowBytes, fp)
    requires i < rows && j < rowBytes
    ensures RowOffset(i, fp.rowPitch) + j < |before|
    ensures RowOffset(SourceRow(i, fp.height, flipped), rowBytes) + j < |bitmap|
    ensures Staged(before, bitmap, rowBytes, fp, rows, flipped)[RowOffset(i, fp.rowPitch) + j]
            == bitmap[RowOffset(SourceRow(i, fp.height, flipped), rowBytes) + j]
    decreases rows
  {
    RowInsideUpload(|before|, |bitmap|, rowBytes, fp, i);
    BitmapRowInside(SourceRow(i, fp.height, flipped), rowBytes, fp.height);
    var r := rows - 1;
    var start := RowOffset(r, fp.rowPitch);
    var from := RowOffset(SourceRow(r, fp.height, flipped), rowBytes);
    var k := RowOffset(i, fp.rowPitch) + j;
    var prev := Staged(before, bitmap, rowBytes, fp, r, flipped);
    var after := Staged(before, bitmap, rowBytes, fp, rows, flipped);
    StagedStep(before, bitmap, rowBytes, fp, rows, flipped);
    assert after == Overwritten(prev, start, bitmap, from, rowBytes);
    OverwrittenAt(prev, start, bitmap, from, rowBytes, k);
    if i < r {
      EarlierRowEndsBefore(i, r, fp.rowPitch);
      assert k < start;
      StagedRowHoldsBitmapRow(before, bitmap, rowBytes, fp, r, flipped, i, j);
      assert after[k] == prev[k];
    } else {
      assert i == r && k - start == j;
      assert after[k] == bitmap[from + j];
    }
  }

  /** The padding between rowBytes and rowPitch in each row is never written. */
  lemma {:induction false} StagedPaddingUntouched(before: seq<byte>, bitmap: seq<byte>,
                               rowBytes: nat, fp: Footprint, rows: nat, flipped: bool,
                               i: nat, j: nat)
    requires rows <= fp.height && Fits(|before|, |bitmap|, rowBytes, fp)
    requires rowBytes <= j < fp.rowPitch && RowOffset(i, fp.rowPitch) + j < |before|
    ensures Staged(before, bitmap, rowBytes, fp, rows, flipped)[RowOffset(i, fp.rowPitch) + j]
            == before[RowOffset(i, fp.rowPitch) + j]
    decreases rows
  {
    if rows > 0 {
      var r := rows - 1;
      var start := RowOffset(r, fp.rowPitch);
      var from := RowOffset(SourceRow(r, fp.height, flipped), rowBytes);
      var k := RowOffset(i, fp.rowPitch) + j;
      var prev := Staged(before, bitmap, rowBytes, fp, r, flipped);
      StagedStep(before, bitmap, rowBytes, fp, rows, flipped);
      OverwrittenAt(prev, start, bitmap, from, rowBytes, k);
      if i < r {
        EarlierRowEndsBefore(i, r, fp.rowPitch);
      } else if r < i {
        EarlierRowEndsBefore(r, i, fp.rowPitch);
      }
      StagedPaddingUntouched(before, bitmap, rowBytes, fp, r, flipped, i, j);
    }
  }

  /** Bytes at or after the start of row `rows` are not written. */
  lemma {:induction false} StagedBeyondRowsUntouched(before: seq<byte>, bitmap: seq<byte>,
                                  rowBytes: nat, fp: Footprint, rows: nat, flipped: bool,
                                  k: nat)
    requires rows <= fp.height && Fits(|before|, |bitmap|, rowBytes, fp)
    requires RowOffset(rows, fp.rowPitch) <= k < |before|
    ensures Staged(before, bitmap, rowBytes, fp, rows, flipped)[k] == before[k]
    decreases rows
  {
    if rows > 0 {
      var r := rows - 1;
      StagedStep(before, bitmap, rowBytes, fp, rows, flipped);
      OverwrittenAt(Staged(before, bitmap, rowBytes, fp, r, flipped), RowOffset(r, fp.rowPitch),
                    bitmap, RowOffset(SourceRow(r, fp.height, flipped), rowBytes), rowBytes, k);
      EarlierRowEndsBefore(rows - 1, rows, fp.rowPitch);
      StagedBeyondRowsUntouched(before, bitmap, rowBytes, fp, rows - 1, flipped, k);
    }
  }

  /** Upload row i holds, in its first rowBytes bytes, bitmap row SourceRow(i), byte for
      byte. */
  predicate RowHolds(buf: seq<byte>, bitmap: seq<byte>, rowBytes: nat, fp: Footprint,
                     flipped: bool, i: nat)
    requires i < fp.height
  {
    var dst := RowOffset(i, fp.rowPitch);
    var src := RowOffset(SourceRow(i, fp.height, flipped), rowBytes);
    dst + rowBytes <= |buf| && src + rowBytes <= |bitmap| &&
    forall k :: dst <= k < dst + rowBytes ==> buf[k] == bitmap[src + (k - dst)]
  }

  /** The padding of upload row i, from rowBytes up to rowPitch (or the buffer's end),
      is as it was in `before`. */
  predicate PaddingKept(buf: seq<byte>, before: seq<byte>, rowBytes: nat, fp: Footprint, i: nat)
  {
    var lo := RowOffset(i, fp.rowPitch) + rowBytes;
    var hi := RowOffset(i, fp.rowPitch) + fp.rowPitch;
    |buf| == |before| && forall k :: lo <= k < hi && k < |buf| ==> buf[k] == before[k]
  }

  /** Row i, once copied, holds its whole bitmap row. */
  lemma StagedRowHolds(before: seq<byte>, bitmap: seq<byte>, rowBytes: nat, fp: Footprint,
                       rows: nat, flipped: bool, i: nat)
    requires rows <= fp.height && Fits(|before|, |bitmap|, rowBytes, fp)
    requires i < rows
    ensures RowHolds(Staged(before, bitmap, rowBytes, fp, rows, flipped), bitmap, rowBytes, fp,
                     flipped, i)
  {
    RowInsideUpload(|before|, |bitmap|, rowBytes, fp, i);
    BitmapRowInside(SourceRow(i, fp.height, flipped), rowBytes, fp.height);
    StagedRowBytes(before, bitmap, rowBytes, fp, rows, flipped, i, RowOffset(i, fp.rowPitch),
                   RowOffset(SourceRow(i, fp.height, flipped), rowBytes));
  }

  /** Every payload byte of row i, at dst + j, is bitmap byte src + j. */
  lemma StagedRowBytes(before: seq<byte>, bitmap: seq<byte>, rowBytes: nat, fp: Footprint,
                       rows: nat, flipped: bool, i: nat, dst: nat, src: nat)
    requires rows <= fp.height && Fits(|before|, |bitmap|, rowBytes, fp)
    requires i < rows
    requires dst == RowOffset(i, fp.rowPitch) && dst + rowBytes <= |before|
    requires src == RowOffset(SourceRow(i, fp.height, flipped), rowBytes)
    requires src + rowBytes <= |bitmap|
    ensures forall k :: dst <= k < dst + rowBytes ==>
              Staged(before, bitmap, rowBytes, fp, rows, flipped)[k] == bitmap[src + (k - dst)]
  {
    forall k | dst <= k < dst + rowBytes
      ensures Staged(before, bitmap, rowBytes, fp, rows, flipped)[k] == bitmap[src + (k - dst)]
    {
      StagedRowHoldsBitmapRow(before, bitmap, rowBytes, fp, rows, flipped, i, k - dst);
    }
  }

  /** Row i's padding is never written, however many rows are copied. */
  lemma StagedPaddingKept(before: seq<byte>, bitmap: seq<byte>, rowBytes: nat, fp: Footprint,
                          rows: nat, flipped: bool, i: nat)
    requires rows <= fp.height && Fits(|before|, |bitmap|, rowBytes, fp)
    ensures PaddingKept(Staged(before, bitmap, rowBytes, fp, rows, flipped), before, rowBytes,
                        fp, i)
  {
    var after := Staged(before, bitmap, rowBytes, fp, rows, flipped);
    var row := RowOffset(i, fp.rowPitch);
    forall k | row + rowBytes <= k < row + fp.rowPitch && k < |after|
      ensures after[k] == before[k]
    {
      StagedPaddingUntouched(before, bitmap, rowBytes, fp, rows, flipped, i, k - row);
    }
  }

  /** Once all `height` rows are copied, every row holds its bitmap row and every row's
      padding is untouched. */
  lemma StagedLayout(before: seq<byte>, bitmap: seq<byte>, rowBytes: nat, fp: Footprint,
                     flipped: bool)
    requires Fits(|before|, |bitmap|, rowBytes, fp)
    ensures forall i :: 0 <= i < fp.height ==>
              RowHolds(Staged(before, bitmap, rowBytes, fp, fp.height, flipped), bitmap,
                       rowBytes, fp, flipped, i)
    ensures forall i :: 0 <= i < fp.height ==>
              PaddingKept(Staged(before, bitmap, rowBytes, fp, fp.height, flipped), before,
                          rowBytes, fp, i)
  {
    forall i | 0 <= i < fp.height
      ensures RowHolds(Staged(before, bitmap, rowBytes, fp, fp.height, flipped), bitmap,
                       rowBytes, fp, flipped, i)
      ensures PaddingKept(Staged(before, bitmap, rowBytes, fp, fp.height, flipped), before,
                          rowBytes, fp, i)
    {
      StagedRowHolds(before, bitmap, rowBytes, fp, fp.height, flipped, i);
      StagedPaddingKept(before, bitmap, rowBytes, fp, fp.height, flipped, i);
    }
  }
}
