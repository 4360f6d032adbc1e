/** The payload of a Raw rectangle: rows of pixels, and how many bytes they take. */
module RfbPixels {
  import opened RfbBytes

  /** A rectangle's pixels, row by row, each pixel in its bytes. */
  type Raster = seq<seq<seq<byte>>>

  predicate HasShape(rows: Raster, width: nat, height: nat, bytesPerPixel: nat) {
    |rows| == height
    && forall i | 0 <= i < height :: |rows[i]| == width && forall j | 0 <= j < width :: |rows[i][j]| == bytesPerPixel
  }

  function PixelBytes(rows: Raster): seq<byte> {
    if rows == [] then [] else Flatten(rows[0]) + PixelBytes(rows[1..])
  }

  /** The bytes of `count` pieces of one size. */
  function Total(count: nat, size: nat): nat {
    if count == 0 then 0 else size + Total(count - 1, size)
  }

  /** The bytes of that many rows of that many pixels. */
  function Area(width: nat, height: nat, bytesPerPixel: nat): nat {
    Total(height, Total(width, bytesPerPixel))
  }

  lemma {:induction false} TotalIsProduct(count: nat, size: nat)
    ensures Total(count, size) == count * size
  {
    if count > 0 {
      TotalIsProduct(count - 1, size);
    }
  }

  /** The product the filter computes from a rectangle's header. */
  lemma AreaIsProduct(width: nat, height: nat, bytesPerPixel: nat)
    ensures Area(width, height, bytesPerPixel) == width * height * bytesPerPixel
  {
    TotalIsProduct(width, bytesPerPixel);
    TotalIsProduct(height, width * bytesPerPixel);
  }

  lemma {:induction false} RowLength(row: seq<seq<byte>>, bytesPerPixel: nat)
    requires forall j | 0 <= j < |row| :: |row[j]| == bytesPerPixel
    ensures |Flatten(row)| == Total(|row|, bytesPerPixel)
  {
    if row != [] {
      RowLength(row[1..], bytesPerPixel);
    }
  }

  /** That length is exactly what the pixels take. */
  lemma {:induction false} RasterLength(rows: Raster, width: nat, height: nat, bytesPerPixel: nat)
    requires HasShape(rows, width, height, bytesPerPixel)
    ensures |PixelBytes(rows)| == Area(width, height, bytesPerPixel)
  {
    if rows != [] {
      RowLength(rows[0], bytesPerPixel);
      RasterLength(rows[1..], width, height - 1, bytesPerPixel);
    }
  }

  function ReadRow(b: seq<byte>, width: nat, bytesPerPixel: nat): (row: seq<seq<byte>>)
    requires |b| == Total(width, bytesPerPixel)
    ensures |row| == width && forall j | 0 <= j < width :: |row[j]| == bytesPerPixel
  {
    if width == 0 then [] else [b[..bytesPerPixel]] + ReadRow(b[bytesPerPixel..], width - 1, bytesPerPixel)
  }

  lemma {:induction false} FlattenOfReadRow(b: seq<byte>, width: nat, bytesPerPixel: nat)
    requires |b| == Total(width, bytesPerPixel)
    ensures Flatten(ReadRow(b, width, bytesPerPixel)) == b
  {
    if width > 0 {
      FlattenOfReadRow(b[bytesPerPixel..], width - 1, bytesPerPixel);
      var row := ReadRow(b, width, bytesPerPixel);
      assert row[1..] == ReadRow(b[bytesPerPixel..], width - 1, bytesPerPixel);
    }
  }

  function ReadRaster(b: seq<byte>, width: nat, height: nat, bytesPerPixel: nat): (rows: Raster)
    requires |b| == Area(width, height, bytesPerPixel)
    ensures HasShape(rows, width, height, bytesPerPixel)
    decreases height
  {
    if height == 0 then [] else
    var n := Total(width, bytesPerPixel);
    [ReadRow(b[..n], width, bytesPerPixel)] + ReadRaster(b[n..], width, height - 1, bytesPerPixel)
  }

  /** Every payload of that length is such a raster, read back byte for byte. */
  lemma {:induction false} PixelBytesOfReadRaster(b: seq<byte>, width: nat, height: nat, bytesPerPixel: nat)
    requires |b| == Area(width, height, bytesPerPixel)
    ensures PixelBytes(ReadRaster(b, width, height, bytesPerPixel)) == b
    decreases height
  {
    if height > 0 {
      var n := Total(width, bytesPerPixel);
      FlattenOfReadRow(b[..n], width, bytesPerPixel);
      PixelBytesOfReadRaster(b[n..], width, height - 1, bytesPerPixel);
      var rows := ReadRaster(b, width, height, bytesPerPixel);
      assert rows[1..] == ReadRaster(b[n..], width, height - 1, bytesPerPixel);
      assert b == b[..n] + b[n..];
    }
  }
}
