/**
 * The static-partition renderer: every rank computes a fixed band of
 * `height / size` consecutive rows into a local buffer, the root gathers
 * all buffers into one table of `width * height` shades and paints the
 * image from it, reading the shade of pixel (x, y) at `y * width + x`.
 *
 * The arbitrary-precision coordinate arithmetic is abstracted by the same
 * escape oracle as the row-protocol renderer; only the integer structure
 * (band sizes, the fill counter, the gather layout, the assembly index) is
 * modelled.
 */
module StaticPartition {
  import opened Pixels
  import opened Escape
  import opened ArbColours
  import Colours

  /** `imgy = height / size`: the rows of one band; all bands together cover at most the image. */
  function BandHeight(height: nat, size: nat): (h: nat)
    requires size >= 1
    ensures size * h <= height < size * (h + 1)
  {
    height / size
  }

  /** The shades of `rows` consecutive image rows starting at row `first`, row after row. */
  function Band(inside: Orbit, iterations: nat, width: nat, first: nat, rows: nat): seq<u8>
  {
    if rows == 0 then []
    else Band(inside, iterations, width, first, rows - 1) + Row(inside, iterations, width, first + rows - 1)
  }

  lemma {:induction false} BandLength(inside: Orbit, iterations: nat, width: nat, first: nat, rows: nat)
    ensures |Band(inside, iterations, width, first, rows)| == rows * width
  {
    if rows > 0 {
      BandLength(inside, iterations, width, first, rows - 1);
      MulSucc(rows - 1, width);
    }
  }

  /** A band grows by one row at a time and never past its full height. */
  lemma {:induction false} BandGrows(inside: Orbit, iterations: nat, width: nat, first: nat, y: nat, rows: nat)
    requires y < rows
    ensures |Band(inside, iterations, width, first, y)| + width <= |Band(inside, iterations, width, first, rows)|
  {
    if y < rows - 1 {
      BandGrows(inside, iterations, width, first, y, rows - 1);
    }
  }

  lemma MulSucc(a: nat, b: nat)
    ensures (a + 1) * b == a * b + b
  {
  }

  lemma {:induction false} MulLe(a: nat, b: nat, c: nat)
    requires a <= b
    ensures a * c <= b * c
  {
    assert b * c == a * c + (b - a) * c;
  }

  lemma DivMod(a: nat, d: nat)
    requires d >= 1
    ensures a == d * (a / d) + a % d && 0 <= a % d < d
  {
  }

  lemma DivLower(a: nat, b: nat, d: nat)
    requires d >= 1 && d * a <= b
    ensures a <= b / d
  {
    var q := b / d;
    DivMod(b, d);
    if a > q {
      MulSucc(q, d);
      MulLe(q + 1, a, d);
    }
  }

  lemma MulDivCancel(d: nat, q: nat)
    requires d >= 1
    ensures (d * q) / d == q
  {
    DivMod(d * q, d);
    var r := (d * q) / d;
    if r < q {
      MulSucc(r, d);
      MulLe(r + 1, q, d);
    }
    if r > q {
      MulSucc(q, d);
      MulLe(q + 1, r, d);
    }
  }

  lemma RowMajorBound(x: nat, y: nat, width: nat, rows: nat)
    requires x < width && y < rows
    ensures y * width + x < rows * width
  {
    MulSucc(y, width);
    MulLe(y + 1, rows, width);
  }

  /**
   * Row-major layout: local pixel (x, y) of a band sits at `y * width + x`
   * and holds the shade of image pixel (x, first + y).
   */
  lemma {:induction false} BandPixel(inside: Orbit, iterations: nat, width: nat, first: nat, rows: nat, x: nat, y: nat)
    requires x < width && y < rows
    ensures y * width + x < rows * width == |Band(inside, iterations, width, first, rows)|
    ensures Band(inside, iterations, width, first, rows)[y * width + x] ==
      Shade(EscapeTime(inside, x, first + y, iterations))
  {
    RowMajorBound(x, y, width, rows);
    BandLength(inside, iterations, width, first, rows);
    var prefix := Band(inside, iterations, width, first, rows - 1);
    if y == rows - 1 {
      BandLength(inside, iterations, width, first, rows - 1);
    } else {
      BandPixel(inside, iterations, width, first, rows - 1, x, y);
      RowMajorBound(x, y, width, rows - 1);
    }
  }

  /**
   * One rank's fill loop: for every local row y and column x it counts the
   * escape time of image pixel (x, rank * imgy + y) and stores its shade at
   * the running position `p`, which advances by one per pixel.
   */
  method RenderBand(width: nat, imgy: nat, rank: nat, iterations: nat, inside: Orbit) returns (data: array<u8>)
    ensures fresh(data)
    ensures data.Length == width * imgy
    ensures data[..] == Band(inside, iterations, width, rank * imgy, imgy)
  {
    data := new u8[width * imgy](_ => 0);
    BandLength(inside, iterations, width, rank * imgy, imgy);
    FillBand(data, width, rank * imgy, imgy, iterations, inside);
  }

  /** The `for y` loop over a buffer sized for the band, with the running position `p`. */
  method FillBand(data: array<u8>, width: nat, first: nat, rows: nat, iterations: nat, inside: Orbit)
    requires data.Length == |Band(inside, iterations, width, first, rows)|
    modifies data
    ensures data[..] == Band(inside, iterations, width, first, rows)
  {
    var p: nat := 0;
    for y := 0 to rows
      invariant p <= data.Length
      invariant data[..p] == Band(inside, iterations, width, first, y)
    {
      BandGrows(inside, iterations, width, first, y, rows);
      p := FillRow(data, p, width, first + y, iterations, inside);
    }
    assert data[..] == data[..p];
  }

  /** The inner `for x` loop: row y's shades written at `p`, `p + 1`, ...; returns the advanced `p`. */
  method FillRow(data: array<u8>, p: nat, width: nat, y: nat, iterations: nat, inside: Orbit) returns (next: nat)
    requires p + width <= data.Length
    modifies data
    ensures next == p + width
    ensures data[..next] == old(data[..p]) + Row(inside, iterations, width, y)
    ensures data[next..] == old(data[next..])
  {
    ghost var done := data[..p];
    ghost var row := Row(inside, iterations, width, y);
    next := p;
    for x := 0 to width
      invariant next == p + x
      invariant data[..p] == done
      invariant forall k | p <= k < next :: data[k] == row[k - p]
      invariant data[p + width..] == old(data[p + width..])
    {
      var i := EscapeCount(inside, x, y, iterations);
      data[next] := Shade(i);
      next := next + 1;
    }
    assert data[..next] == done + row;
  }

  /**
   * The root's receive buffer after the gather: block r, `stride` entries
   * long and starting at `r * stride`, begins with rank r's buffer; the
   * rest of the block keeps its initial zeros.
   */
  function Blocks(bands: seq<seq<u8>>, stride: nat): (t: seq<u8>)
    requires forall r | 0 <= r < |bands| :: |bands[r]| <= stride
    ensures |t| == |bands| * stride
  {
    if bands == [] then []
    else
      var n := |bands| - 1;
      Blocks(bands[..n], stride) + bands[n] + Zeros(stride - |bands[n]|)
  }

  lemma {:induction false} BlocksPlace(bands: seq<seq<u8>>, stride: nat, r: nat, j: nat)
    requires forall q | 0 <= q < |bands| :: |bands[q]| <= stride
    requires r < |bands| && j < stride
    ensures r * stride + j < |bands| * stride
    ensures Blocks(bands, stride)[r * stride + j] == if j < |bands[r]| then bands[r][j] else 0
  {
    RowMajorBound(j, r, stride, |bands|);
    var n := |bands| - 1;
    var prefix := Blocks(bands[..n], stride);
    if r < n {
      BlocksPlace(bands[..n], stride, r, j);
      RowMajorBound(j, r, stride, n);
    } else {
      assert |prefix| == r * stride;
    }
  }

  /**
   * The gather into the root's table of `total` zeros: each rank sends its
   * whole buffer, and the root receives `total / size` entries per rank,
   * so rank r's buffer lands at `r * (total / size)`.
   */
  function Gather(bands: seq<seq<u8>>, total: nat): (t: seq<u8>)
    requires |bands| >= 1
    requires forall r | 0 <= r < |bands| :: |bands[r]| <= total / |bands|
    ensures |t| == total
  {
    var stride := total / |bands|;
    DivMod(total, |bands|);
    Blocks(bands, stride) + Zeros(total - |bands| * stride)
  }

  /**
   * Where each shade lands in the gathered table: entry j of rank r's
   * buffer at `r * (total / size) + j`, zeros in the unfilled part of each
   * block and after the last block.
   */
  lemma GatherPlaces(bands: seq<seq<u8>>, total: nat, r: nat, j: nat)
    requires |bands| >= 1
    requires forall q | 0 <= q < |bands| :: |bands[q]| <= total / |bands|
    requires r < |bands| && j < total / |bands|
    ensures r * (total / |bands|) + j < total
    ensures Gather(bands, total)[r * (total / |bands|) + j] == if j < |bands[r]| then bands[r][j] else 0
  {
    var stride := total / |bands|;
    DivMod(total, |bands|);
    BlocksPlace(bands, stride, r, j);
    var blocks := Blocks(bands, stride);
    assert Gather(bands, total) == blocks + Zeros(total - |bands| * stride);
    assert r * stride + j < |blocks|;
  }

  lemma GatherTail(bands: seq<seq<u8>>, total: nat, k: nat)
    requires |bands| >= 1
    requires forall q | 0 <= q < |bands| :: |bands[q]| <= total / |bands|
    requires |bands| * (total / |bands|) <= k < total
    ensures Gather(bands, total)[k] == 0
  {
    var stride := total / |bands|;
    DivMod(total, |bands|);
    assert Gather(bands, total) == Blocks(bands, stride) + Zeros(total - |bands| * stride);
  }

  /** A band of `height / size` rows of `width` shades fits a block of `width * height / size` entries. */
  lemma BandFitsBlock(width: nat, height: nat, size: nat)
    requires size >= 1
    ensures width * BandHeight(height, size) <= width * height / size
  {
    var h := BandHeight(height, size);
    MulLe(size * h, height, width);
    assert size * (width * h) == (size * h) * width;
    DivLower(width * h, width * height, size);
  }

  /** Every rank's buffer: rank r computes image rows `r * imgy` to `r * imgy + imgy - 1`. */
  function Bands(width: nat, height: nat, size: nat, iterations: nat, inside: Orbit): (bands: seq<seq<u8>>)
    requires size >= 1
    ensures |bands| == size
    ensures forall r | 0 <= r < size :: |bands[r]| == width * BandHeight(height, size)
    ensures forall r | 0 <= r < size :: |bands[r]| <= width * height / size
  {
    var imgy := BandHeight(height, size);
    BandFitsBlock(width, height, size);
    var bands := seq(size, (r: nat) => Band(inside, iterations, width, r * imgy, imgy));
    assert forall r | 0 <= r < size :: |bands[r]| == width * imgy by {
      forall r | 0 <= r < size ensures |bands[r]| == width * imgy {
        BandLength(inside, iterations, width, r * imgy, imgy);
      }
    }
    bands
  }

  /**
   * When the ranks divide the height evenly, the gathered table holds the
   * shade of pixel (x, y) at `y * width + x`, for every pixel of the image.
   */
  lemma GatheredPixel(width: nat, height: nat, size: nat, iterations: nat, inside: Orbit, x: nat, y: nat)
    requires size >= 1 && height % size == 0
    requires x < width && y < height
    ensures y * width + x < width * height
    ensures Gather(Bands(width, height, size, iterations, inside), width * height)[y * width + x] ==
      Shade(EscapeTime(inside, x, y, iterations))
  {
    RowMajorBound(x, y, width, height);
    var imgy := BandHeight(height, size);
    var r, first, yl, j := SplitRow(width, height, size, x, y);
    GatherPlaces(Bands(width, height, size, iterations, inside), width * height, r, j);
    BandPixel(inside, iterations, width, first, imgy, x, yl);
  }

  /**
   * With `imgy = height / size` dividing the height exactly, image row y is
   * local row `y % imgy` of rank `y / imgy`, and its entries sit in that
   * rank's block of the gathered table.
   */
  lemma SplitRow(width: nat, height: nat, size: nat, x: nat, y: nat) returns (r: nat, first: nat, yl: nat, j: nat)
    requires size >= 1 && height % size == 0
    requires x < width && y < height
    ensures r < size && first == r * BandHeight(height, size)
    ensures yl < BandHeight(height, size) && y == first + yl
    ensures width * height / size == width * BandHeight(height, size)
    ensures j == yl * width + x && j < width * height / size
    ensures y * width + x == r * (width * height / size) + j
  {
    var imgy := BandHeight(height, size);
    DivMod(height, size);
    var stride := width * imgy;
    assert width * height == size * stride by {
      assert height == size * imgy;
    }
    MulDivCancel(size, stride);
    r := y / imgy;
    yl := y % imgy;
    DivMod(y, imgy);
    assert r < size by {
      if r >= size {
        MulLe(size, r, imgy);
      }
    }
    RowMajorBound(x, yl, width, imgy);
    first := r * imgy;
    j := yl * width + x;
    assert y * width == r * stride + yl * width by {
      assert y * width == (r * imgy) * width + yl * width;
      assert (r * imgy) * width == r * stride;
    }
  }

  /**
   * When `size` does not divide the height the gather's blocks are longer
   * than the bands, so assembly reads later rows from shifted positions.
   * With width 2, height 3 and 2 ranks (one row each, blocks of 3 entries),
   * entry `1 * 2 + 1`, which assembly reads for pixel (1, 1), holds the
   * shade of pixel (0, 1); entry `1 * 2 + 0`, read for pixel (0, 1), is block
   * padding, which the tables as written do not even render black.
   */
  lemma ShiftedGatherExample(iterations: nat, inside: Orbit)
    ensures var t := Gather(Bands(2, 3, 2, iterations, inside), 6);
      && t[1 * 2 + 1] == Shade(EscapeTime(inside, 0, 1, iterations))
      && t[1 * 2 + 0] == 0
    ensures ArbColours.Colour(0) == Rgb(66, 30, 15) != Black
  {
    var bands := Bands(2, 3, 2, iterations, inside);
    assert BandHeight(3, 2) == 1;
    assert 6 / |bands| == 3;
    GatherPlaces(bands, 6, 1, 0);
    GatherPlaces(bands, 6, 0, 2);
    BandPixel(inside, iterations, 2, 1, 1, 0, 0);
  }

  /**
   * The gather with each rank's whole band received in turn, `stride`
   * entries per rank (a receive count equal to the send count), then the
   * table's remaining entries left at zero.
   */
  function ContiguousGather(bands: seq<seq<u8>>, stride: nat, total: nat): (t: seq<u8>)
    requires forall r | 0 <= r < |bands| :: |bands[r]| <= stride
    requires |bands| * stride <= total
    ensures |t| == total
  {
    Blocks(bands, stride) + Zeros(total - |bands| * stride)
  }

  /**
   * With the bands gathered back to back, for any number of ranks, every
   * pixel of a computed row (the first `size * imgy`) is read by assembly at
   * `y * width + x` with its own shade.
   */
  lemma ContiguousGatheredPixel(width: nat, height: nat, size: nat, iterations: nat, inside: Orbit, x: nat, y: nat)
    requires size >= 1 && x < width && y < size * BandHeight(height, size)
    ensures size * (width * BandHeight(height, size)) <= width * height
    ensures y * width + x < width * height
    ensures ContiguousGather(Bands(width, height, size, iterations, inside), width * BandHeight(height, size), width * height)[y * width + x]
      == Shade(EscapeTime(inside, x, y, iterations))
  {
    var imgy := BandHeight(height, size);
    var stride := width * imgy;
    var bands := Bands(width, height, size, iterations, inside);
    assert size * stride <= width * height by {
      MulLe(size * imgy, height, width);
      assert size * stride == (size * imgy) * width;
    }
    RowMajorBound(x, y, width, size * imgy);
    MulLe(size * imgy, height, width);
    var r := y / imgy;
    var yl := y % imgy;
    DivMod(y, imgy);
    assert r < size by {
      if r >= size {
        MulLe(size, r, imgy);
      }
    }
    RowMajorBound(x, yl, width, imgy);
    var j := yl * width + x;
    assert y * width + x == r * stride + j by {
      assert y * width == (r * imgy) * width + yl * width;
      assert (r * imgy) * width == r * stride;
    }
    BlocksPlace(bands, stride, r, j);
    BandPixel(inside, iterations, width, r * imgy, imgy, x, yl);
    assert |Blocks(bands, stride)| == size * stride;
  }

  /**
   * The root's assembly loop over `data`, the gathered table: pixel (x, y)
   * of a fresh black `width` by `height` image becomes `colour` of the
   * shade at `y * width + x`.
   */
  method Assemble(data: seq<u8>, width: nat, height: nat, colour: u8 -> Rgb) returns (image: array2<Rgb>)
    requires |data| == width * height
    ensures fresh(image)
    ensures image.Length0 == width && image.Length1 == height
    ensures forall x, y | 0 <= x < width && 0 <= y < height ::
      y * width + x < |data| && image[x, y] == colour(data[y * width + x])
  {
    image := new Rgb[width, height]((x, y) => Black);
    for y := 0 to height
      invariant forall i, k | 0 <= i < width && 0 <= k < y :: image[i, k] == Shown(data, width, colour, i, k)
    {
      AssembleRow(image, data, y, colour);
    }
    forall x: nat, y: nat | x < width && y < height
      ensures y * width + x < |data| && image[x, y] == colour(data[y * width + x])
    {
      RowMajorBound(x, y, width, height);
    }
  }

  /** The inner `for x` loop of the assembly: row y of the image from the table, other rows untouched. */
  method AssembleRow(image: array2<Rgb>, data: seq<u8>, y: nat, colour: u8 -> Rgb)
    requires y < image.Length1
    modifies image
    ensures forall i, k | 0 <= i < image.Length0 && 0 <= k < image.Length1 ::
      image[i, k] == if k == y then Shown(data, image.Length0, colour, i, k) else old(image[i, k])
  {
    for x := 0 to image.Length0
      invariant forall i, k | 0 <= i < image.Length0 && 0 <= k < image.Length1 ::
        image[i, k] == if k == y && i < x then Shown(data, image.Length0, colour, i, k) else old(image[i, k])
    {
      image[x, y] := Shown(data, image.Length0, colour, x, y);
    }
  }

  /** The colour of the shade at `y * width + x`, where the table has one. */
  function Shown(data: seq<u8>, width: nat, colour: u8 -> Rgb, x: nat, y: nat): Rgb
  {
    if y * width + x < |data| then colour(data[y * width + x]) else Black
  }

  /**
   * The whole static-partition run: `size` ranks each render their band,
   * the root gathers the bands and paints the image with `colour` (the
   * source passes its nested tables, `ArbColours.Colour`). Every pixel
   * shows the colour of its entry `y * width + x` of the gathered table;
   * with the height a multiple of `size` that entry is the pixel's own
   * escape time modulo 16.
   */
  method RenderStatic(width: nat, height: nat, size: nat, iterations: nat, inside: Orbit, colour: u8 -> Rgb)
    returns (image: array2<Rgb>)
    requires size >= 1
    ensures fresh(image)
    ensures image.Length0 == width && image.Length1 == height
    ensures forall x, y | 0 <= x < width && 0 <= y < height ::
      y * width + x < width * height &&
      image[x, y] == colour(Gather(Bands(width, height, size, iterations, inside), width * height)[y * width + x])
    ensures height % size == 0 ==> forall x, y | 0 <= x < width && 0 <= y < height ::
      image[x, y] == colour(Shade(EscapeTime(inside, x, y, iterations)))
  {
    var imgy := BandHeight(height, size);
    var bands: seq<seq<u8>> := [];
    for r := 0 to size
      invariant |bands| == r
      invariant forall q | 0 <= q < r :: bands[q] == Band(inside, iterations, width, q * imgy, imgy)
    {
      var data := RenderBand(width, imgy, r, iterations, inside);
      bands := bands + [data[..]];
    }
    assert bands == Bands(width, height, size, iterations, inside);
    var table := Gather(bands, width * height);
    image := Assemble(table, width, height, colour);
    if height % size == 0 {
      forall x: nat, y: nat | x < width && y < height
        ensures image[x, y] == colour(Shade(EscapeTime(inside, x, y, iterations)))
      {
        GatheredPixel(width, height, size, iterations, inside, x, y);
      }
    }
  }

  /**
   * With the tables' keys corrected, the static renderer colours every
   * pixel by the 16-entry palette at its escape time modulo 16, as the
   * dynamic renderer's tables would for the shade one higher.
   */
  lemma FixedRenderIsPalette(iterations: nat, inside: Orbit, x: nat, y: nat)
    ensures FixedColour(Shade(EscapeTime(inside, x, y, iterations))) ==
      Colours.Palette[EscapeTime(inside, x, y, iterations) % 16]
  {
  }

  /**
   * With the tables as written, a pixel whose escape time modulo 16 is 7 or
   * more renders black.
   */
  lemma WrittenRenderBlackens(iterations: nat, inside: Orbit, x: nat, y: nat)
    requires EscapeTime(inside, x, y, iterations) % 16 >= 7
    ensures ArbColours.Colour(Shade(EscapeTime(inside, x, y, iterations))) == Black
  {
  }
}
