/**
  The preprocessing step of the Predict function: a decoded RGB image of
  height H and width W becomes a dense float tensor of shape [1, H, W, 3]
  (batch, row, column, channel; channel varies fastest), each cell holding
  (channel - 127) / 128.

  The tensor's flat buffer is an array<real>. Every value the builder writes
  is an integer in [-127, 128] divided by 128, a power of two, so binary32
  holds it exactly and `real` loses nothing (see NormalizeIsExactBinary32).
*/
module Tensor {

  /** An 8-bit unsigned channel value. */
  type Byte = v: int | 0 <= v < 256

  /** A pixel in the 24-bit RGB format the image is decoded into. */
  datatype Rgb24 = Rgb24(r: Byte, g: Byte, b: Byte)

  /** Number of channels per pixel, the innermost tensor dimension. */
  const CHANNELS: nat := 3

  /** Channel c of a pixel: 0 is red, 1 is green, 2 is blue. */
  function Channel(p: Rgb24, c: nat): Byte
    requires c < CHANNELS
  {
    if c == 0 then p.r else if c == 1 then p.g else p.b
  }

  /** A decoded image: `height` pixel rows, top row first, each `width` pixels long. */
  datatype Image = Image(height: nat, width: nat, rows: seq<seq<Rgb24>>)
  {
    /** The pixel grid is rectangular and matches the reported dimensions. */
    predicate Valid() {
      |rows| == height && Uniform(rows, width)
    }
  }

  // ---------------------------------------------------------------------------
  // Normalisation of one channel value

  /** Centre a channel value on 127 and scale it by 1/128. */
  function Normalize(v: Byte): (t: real)
    ensures -127.0 / 128.0 <= t <= 1.0
    ensures t == 0.0 <==> v == 127
  {
    (v - 127) as real / 128.0
  }

  /** The inverse of Normalize: v = 128 * t + 127. */
  function Denormalize(t: real): int
  {
    (128.0 * t + 127.0).Floor
  }

  lemma DenormalizeNormalize(v: Byte)
    ensures Denormalize(Normalize(v)) == v
    ensures 128.0 * Normalize(v) + 127.0 == v as real
  {
  }

  /** Equal tensor cells come from equal channel bytes. */
  lemma NormalizeInjective(a: Byte, b: Byte)
    ensures Normalize(a) == Normalize(b) <==> a == b
  {
    DenormalizeNormalize(a);
    DenormalizeNormalize(b);
  }

  /**
    Normalize(v) is m / 2^7 for an integer m with |m| <= 128 < 2^24, a value
    that a binary32 float (24-bit significand) represents exactly; so the
    float division of the source computes this real without rounding.
  */
  lemma NormalizeIsExactBinary32(v: Byte)
    ensures var m := (128.0 * Normalize(v)).Floor;
      m as real == 128.0 * Normalize(v) && -127 <= m <= 128
  {
  }

  // ---------------------------------------------------------------------------
  // Shape and row-major (NHWC) layout of the tensor

  /** The shape the builder gives the tensor: [1, H, W, 3]. */
  function Shape(img: Image): seq<nat>
  {
    [1, img.height, img.width, CHANNELS]
  }

  /** Number of elements of a dense tensor with the given dimensions. */
  function ElementCount(dims: seq<nat>): nat
  {
    if dims == [] then 1 else dims[0] * ElementCount(dims[1..])
  }

  /**
    Flat position of element [n, y, x, c] in a dense row-major tensor with
    four dimensions: the first index varies slowest, the last fastest. Every
    valid index lands inside the buffer.
  */
  function NhwcOffset(dims: seq<nat>, n: nat, y: nat, x: nat, c: nat): (o: nat)
    requires |dims| == 4
    ensures InShape(dims, n, y, x, c) ==> o < ElementCount(dims)
  {
    if InShape(dims, n, y, x, c) then OffsetBound(dims, n, y, x, c); RowMajor(dims, n, y, x, c)
    else RowMajor(dims, n, y, x, c)
  }

  /** The row-major offset formula itself. */
  function RowMajor(dims: seq<nat>, n: nat, y: nat, x: nat, c: nat): nat
    requires |dims| == 4
  {
    ((n * dims[1] + y) * dims[2] + x) * dims[3] + c
  }

  /** Proof step for NhwcOffset: the offset formula stays below the element count. */
  lemma OffsetBound(dims: seq<nat>, n: nat, y: nat, x: nat, c: nat)
    requires |dims| == 4 && InShape(dims, n, y, x, c)
    ensures RowMajor(dims, n, y, x, c) < ElementCount(dims)
  {
    MulAddBound(n, y, dims[1], dims[0]);
    MulAddBound(n * dims[1] + y, x, dims[2], dims[0] * dims[1]);
    MulAddBound((n * dims[1] + y) * dims[2] + x, c, dims[3], (dims[0] * dims[1]) * dims[2]);
    ElementCount4(dims);
  }

  /** Whether [n, y, x, c] is a valid index of a tensor with dimensions dims. */
  predicate InShape(dims: seq<nat>, n: nat, y: nat, x: nat, c: nat)
    requires |dims| == 4
  {
    n < dims[0] && y < dims[1] && x < dims[2] && c < dims[3]
  }

  lemma ElementCount4(dims: seq<nat>)
    requires |dims| == 4
    ensures ElementCount(dims) == ((dims[0] * dims[1]) * dims[2]) * dims[3]
  {
    assert dims[1..][1..][1..][1..] == [];
    assert ElementCount(dims[3..]) == dims[3];
    assert ElementCount(dims[2..]) == dims[2] * dims[3];
    assert ElementCount(dims[1..]) == dims[1] * (dims[2] * dims[3]);
    MulAssoc(dims[0], dims[1], dims[2] * dims[3]);
    MulAssoc(dims[0] * dims[1], dims[2], dims[3]);
  }

  /** Proof step for ElementCount4: regrouping a product of three factors. */
  lemma MulAssoc(a: int, b: int, c: int)
    ensures a * (b * c) == (a * b) * c
  {
  }

  /** q * d + r with 0 <= r < d stays below bound * d whenever q < bound. */
  lemma MulAddBound(q: int, r: nat, d: nat, bound: int)
    requires q < bound && r < d
    ensures q * d + r < bound * d
  {
    assert q * d + d == (q + 1) * d;
    assert (q + 1) * d <= bound * d;
  }

  /** Quotient and remainder of q * d + r (0 <= r < d) are unique. */
  lemma MulAddUnique(q1: int, r1: nat, q2: int, r2: nat, d: nat)
    requires r1 < d && r2 < d && q1 * d + r1 == q2 * d + r2
    ensures q1 == q2 && r1 == r2
  {
    if q1 < q2 {
      MulAddBound(q1, r1, d, q2);
      assert false;
    } else if q2 < q1 {
      MulAddBound(q2, r2, d, q1);
      assert false;
    }
  }

  /** Distinct valid indices have distinct offsets: no cell is written twice. */
  lemma NhwcOffsetInjective(dims: seq<nat>, n1: nat, y1: nat, x1: nat, c1: nat,
                            n2: nat, y2: nat, x2: nat, c2: nat)
    requires |dims| == 4 && InShape(dims, n1, y1, x1, c1) && InShape(dims, n2, y2, x2, c2)
    requires NhwcOffset(dims, n1, y1, x1, c1) == NhwcOffset(dims, n2, y2, x2, c2)
    ensures n1 == n2 && y1 == y2 && x1 == x2 && c1 == c2
  {
    var p1: int, p2: int := n1 * dims[1] + y1, n2 * dims[1] + y2;
    var q1: int, q2: int := p1 * dims[2] + x1, p2 * dims[2] + x2;
    MulAddUnique(q1, c1, q2, c2, dims[3]);
    MulAddUnique(p1, x1, p2, x2, dims[2]);
    MulAddUnique(n1, y1, n2, y2, dims[1]);
  }

  /** Proof step for Unflatten: i splits into quotient i / d and remainder i % d below d. */
  lemma DivModOf(i: nat, d: nat)
    requires d > 0
    ensures i == (i / d) * d + i % d && i % d < d
  {
  }

  lemma DivBound(i: nat, d: nat, bound: nat)
    requires d > 0 && i < bound * d
    ensures i / d < bound
  {
    DivModOf(i, d);
  }

  /**
    The index [n, y, x, c] stored at flat position i: every position of the
    buffer belongs to some valid index, so the index map is onto.
  */
  function Unflatten(dims: seq<nat>, i: nat): (idx: (nat, nat, nat, nat))
    requires |dims| == 4 && i < ElementCount(dims)
    ensures InShape(dims, idx.0, idx.1, idx.2, idx.3)
    ensures NhwcOffset(dims, idx.0, idx.1, idx.2, idx.3) == i
  {
    ElementCount4(dims);
    var d1, d2, d3 := dims[1], dims[2], dims[3];
    assert d3 > 0 && d2 > 0 && d1 > 0;
    var q3 := i / d3;
    DivModOf(i, d3);
    DivBound(i, d3, (dims[0] * d1) * d2);
    var q2 := q3 / d2;
    DivModOf(q3, d2);
    DivBound(q3, d2, dims[0] * d1);
    var q1 := q2 / d1;
    DivModOf(q2, d1);
    DivBound(q2, d1, dims[0]);
    (q1, q2 % d1, q3 % d2, i % d3)
  }

  // ---------------------------------------------------------------------------
  // Expected tensor contents: the image flattened row by row, pixel by pixel

  /** The three normalised channels of one pixel, in R, G, B order, each in [-127/128, 1]. */
  function PixelValues(p: Rgb24): (vs: seq<real>)
    ensures |vs| == CHANNELS
    ensures forall i :: 0 <= i < |vs| ==> -127.0 / 128.0 <= vs[i] <= 1.0
  {
    [Normalize(p.r), Normalize(p.g), Normalize(p.b)]
  }

  /** The normalised channels of a pixel row, left to right, each in [-127/128, 1]. */
  function RowValues(row: seq<Rgb24>): (vs: seq<real>)
    ensures |vs| == CHANNELS * |row|
    ensures forall i :: 0 <= i < |vs| ==> -127.0 / 128.0 <= vs[i] <= 1.0
  {
    if row == [] then [] else RowValues(row[..|row| - 1]) + PixelValues(row[|row| - 1])
  }

  /** The normalised channels of a pixel grid, top row first, each in [-127/128, 1]. */
  function GridValues(rows: seq<seq<Rgb24>>): (vs: seq<real>)
    ensures forall i :: 0 <= i < |vs| ==> -127.0 / 128.0 <= vs[i] <= 1.0
  {
    if rows == [] then [] else GridValues(rows[..|rows| - 1]) + RowValues(rows[|rows| - 1])
  }

  /** Every row of the grid is `width` pixels long. */
  predicate Uniform(rows: seq<seq<Rgb24>>, width: nat)
  {
    forall y :: 0 <= y < |rows| ==> |rows[y]| == width
  }

  lemma {:induction false} GridValuesLength(rows: seq<seq<Rgb24>>, width: nat)
    requires Uniform(rows, width)
    ensures |GridValues(rows)| == (|rows| * width) * CHANNELS
  {
    if rows != [] {
      var k := |rows| - 1;
      GridValuesLength(rows[..k], width);
      assert (k * width) * CHANNELS + CHANNELS * width == ((k + 1) * width) * CHANNELS;
    }
  }

  lemma {:induction false} RowValuesAt(row: seq<Rgb24>, x: nat, c: nat)
    requires x < |row| && c < CHANNELS
    ensures CHANNELS * x + c < |RowValues(row)|
    ensures RowValues(row)[CHANNELS * x + c] == Normalize(Channel(row[x], c))
  {
    var k := |row| - 1;
    if x < k {
      RowValuesAt(row[..k], x, c);
    }
  }

  lemma {:induction false} GridValuesAt(rows: seq<seq<Rgb24>>, width: nat, y: nat, x: nat, c: nat)
    requires Uniform(rows, width) && y < |rows| && x < width && c < CHANNELS
    ensures (y * width + x) * CHANNELS + c < |GridValues(rows)|
    ensures GridValues(rows)[(y * width + x) * CHANNELS + c] == Normalize(Channel(rows[y][x], c))
  {
    var k := |rows| - 1;
    GridValuesLength(rows[..k], width);
    RowValuesAt(rows[k], x, c);
    MulAddBound(y, x, width, k + 1);
    if y < k {
      GridValuesAt(rows[..k], width, y, x, c);
      MulAddBound(y, x, width, k);
    } else {
      assert (y * width + x) * CHANNELS + c == (k * width) * CHANNELS + (CHANNELS * x + c);
    }
  }

  /**
    Layout of the tensor the builder produces: it has ElementCount([1, H, W, 3])
    cells, cell [0, y, x, c] holds channel c of the pixel in row y, column x,
    normalised, and every cell lies in [-127/128, 1].
  */
  lemma InputLayout(img: Image, y: nat, x: nat, c: nat)
    requires img.Valid() && y < img.height && x < img.width && c < CHANNELS
    ensures |GridValues(img.rows)| == ElementCount(Shape(img))
    ensures NhwcOffset(Shape(img), 0, y, x, c) < |GridValues(img.rows)|
    ensures GridValues(img.rows)[NhwcOffset(Shape(img), 0, y, x, c)]
         == Normalize(Channel(img.rows[y][x], c))
  {
    GridValuesLength(img.rows, img.width);
    ElementCount4(Shape(img));
    GridValuesAt(img.rows, img.width, y, x, c);
  }

  /** For the 224 x 224 image the resize step produces, the tensor holds 150528 cells. */
  lemma ResizedInputSize(img: Image)
    requires img.Valid() && img.height == 224 && img.width == 224
    ensures |GridValues(img.rows)| == ElementCount(Shape(img)) == 150528
  {
    GridValuesLength(img.rows, img.width);
    ElementCount4(Shape(img));
  }

  // ---------------------------------------------------------------------------
  // The builder

  /** Writing the three channels of a pixel at k extends the filled prefix by PixelValues. */
  lemma StorePixelPrefix(before: seq<real>, after: seq<real>, k: nat, p: Rgb24)
    requires k + 3 <= |before|
    requires after == before[k := Normalize(p.r)][k + 1 := Normalize(p.g)][k + 2 := Normalize(p.b)]
    ensures after[..k + 3] == before[..k] + PixelValues(p)
  {
  }

  lemma NhwcChannelOffsets(dims: seq<nat>, n: nat, y: nat, x: nat)
    requires |dims| == 4
    ensures NhwcOffset(dims, n, y, x, 1) == NhwcOffset(dims, n, y, x, 0) + 1
    ensures NhwcOffset(dims, n, y, x, 2) == NhwcOffset(dims, n, y, x, 0) + 2
  {
  }

  /** The next pixel of a row starts dims[3] cells further on. */
  lemma NhwcNextPixel(dims: seq<nat>, n: nat, y: nat, x: nat)
    requires |dims| == 4
    ensures NhwcOffset(dims, n, y, x + 1, 0) == NhwcOffset(dims, n, y, x, 0) + dims[3]
  {
  }

  /** The next row starts where the last pixel of this row ends. */
  lemma NhwcNextRow(dims: seq<nat>, n: nat, y: nat)
    requires |dims| == 4
    ensures NhwcOffset(dims, n, y + 1, 0, 0) == NhwcOffset(dims, n, y, dims[2], 0)
  {
  }

  lemma RowValuesSnoc(row: seq<Rgb24>, x: nat)
    requires x < |row|
    ensures RowValues(row[..x + 1]) == RowValues(row[..x]) + PixelValues(row[x])
  {
    assert row[..x + 1][..x] == row[..x];
  }

  /**
    Allocate a zeroed [1, H, W, 3] tensor and fill it row by row, top row
    first (the outer loop over y).
  */
  method BuildInput(img: Image) returns (input: array<real>)
    requires img.Valid()
    ensures fresh(input)
    ensures input.Length == ElementCount(Shape(img))
    ensures input[..] == GridValues(img.rows)
  {
    var dims := Shape(img);
    var h := img.height;
    ElementCount4(dims);
    input := new real[(h * img.width) * 3](_ => 0.0);
    var y := 0;
    while y < h
      invariant 0 <= y <= h
      invariant input.Length == ElementCount(dims)
      invariant NhwcOffset(dims, 0, y, 0, 0) <= input.Length
      invariant input[..NhwcOffset(dims, 0, y, 0, 0)] == GridValues(img.rows[..y])
    {
      FillRow(img, dims, input, y);
      assert img.rows[..y + 1][..y] == img.rows[..y];
      NhwcNextRow(dims, 0, y);
      y := y + 1;
    }
    assert img.rows[..h] == img.rows;
    assert input[..] == input[..NhwcOffset(dims, 0, h, 0, 0)];
  }

  /**
    The body of the outer loop: walk pixel row y left to right and write the
    normalised R, G and B values of pixel (x, y) into cells [0, y, x, 0],
    [0, y, x, 1] and [0, y, x, 2]. Cells before and after the row are left as
    they are.
  */
  method FillRow(img: Image, dims: seq<nat>, input: array<real>, y: nat)
    requires img.Valid() && dims == Shape(img) && y < img.height
    requires input.Length == ElementCount(dims)
    requires NhwcOffset(dims, 0, y, 0, 0) <= input.Length
    modifies input
    ensures NhwcOffset(dims, 0, y, img.width, 0) <= input.Length
    ensures input[..NhwcOffset(dims, 0, y, img.width, 0)]
         == old(input[..NhwcOffset(dims, 0, y, 0, 0)]) + RowValues(img.rows[y])
    ensures forall i :: NhwcOffset(dims, 0, y, img.width, 0) <= i < input.Length ==>
      input[i] == old(input[i])
  {
    var pixelRow := img.rows[y];
    ghost var done := input[..NhwcOffset(dims, 0, y, 0, 0)];
    var x := 0;
    while x < img.width
      invariant 0 <= x <= img.width
      invariant NhwcOffset(dims, 0, y, x, 0) <= input.Length
      invariant input[..NhwcOffset(dims, 0, y, x, 0)] == done + RowValues(pixelRow[..x])
      invariant NhwcOffset(dims, 0, y, img.width, 0)
             == NhwcOffset(dims, 0, y, x, 0) + (img.width - x) * CHANNELS
      invariant forall i :: NhwcOffset(dims, 0, y, img.width, 0) <= i < input.Length ==>
        input[i] == old(input[i])
    {
      var pixel := pixelRow[x];
      ghost var k := NhwcOffset(dims, 0, y, x, 0);
      NhwcChannelOffsets(dims, 0, y, x);
      ghost var before := input[..];
      input[NhwcOffset(dims, 0, y, x, 0)] := Normalize(pixel.r);
      input[NhwcOffset(dims, 0, y, x, 1)] := Normalize(pixel.g);
      input[NhwcOffset(dims, 0, y, x, 2)] := Normalize(pixel.b);
      StorePixelPrefix(before, input[..], k, pixel);
      RowValuesSnoc(pixelRow, x);
      NhwcNextPixel(dims, 0, y, x);
      x := x + 1;
    }
    assert pixelRow[..img.width] == pixelRow;
  }
}
