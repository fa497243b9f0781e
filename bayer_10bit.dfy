/** The 10-bit interpolator of dec_bayer.c: `interpol_r`, `interpol_g` and
    `interpol_b` derive one channel of one pixel of a BGGR frame of 10-bit
    samples (stored in 16-bit words), and `fswc_add_image_10bitsbayer`
    writes the pixels of all rows but the last into a buffer of 16-bit
    words, three per pixel. A site of the wanted colour gives its own
    sample; any other site copies the sample of a nearby site of that
    colour, except in a border band (the first two and the last column and
    row), where the channel is 0.
    Every value is rescaled from the 10-bit range to a byte. */
module Bayer10Bit {
  import opened BayerTile

  /** The largest 10-bit sample, `(1 << 10) - 1`. */
  const RANGE_MAX: nat := 1023

  /** `clip(255. * v / range_max)`: the sample scaled to the byte range,
      rounded down, and saturated at 255 for samples above the 10-bit
      range. The floating-point quotient 85v/341 never lies within
      rounding distance below an integer for a 16-bit v, so truncating
      the float gives the integer quotient. */
  function Rescale(v: u16): (b: byte)
    ensures b == 255 <==> v as int >= RANGE_MAX
    ensures v as int <= RANGE_MAX ==> b as int * RANGE_MAX <= 255 * v as int < (b as int + 1) * RANGE_MAX
  {
    var q := 255 * v as int / RANGE_MAX;
    if q > 255 then 255 else q as byte
  }

  /** A brighter sample never rescales to a darker byte. */
  lemma RescaleMonotone(a: u16, b: u16)
    requires a <= b
    ensures Rescale(a) <= Rescale(b)
  {
    DivMonotone(255 * a as int, 255 * b as int, RANGE_MAX);
  }

  lemma DivMonotone(a: nat, b: nat, d: nat)
    requires a <= b && 0 < d
    ensures a / d <= b / d
  {
    if a / d > b / d {
      MulMonotone(b / d + 1, a / d, d);
      assert false;
    }
  }

  /** `n | 1` for an unsigned n: the odd number of the pair {2m, 2m+1}
      that holds n. */
  function SetLowBit(n: nat): (r: nat)
    ensures r % 2 == 1 && (r == n || r == n + 1)
  {
    if n % 2 == 0 then n + 1 else n
  }

  /** `n & ~1` for an unsigned n: the even number of that pair. */
  function ClearLowBit(n: nat): (r: nat)
    ensures r % 2 == 0 && (r == n || r + 1 == n)
  {
    n - n % 2
  }

  /** The frame is BGGR: the colour of site (x, y) is the SBGGR8 tile's. */
  function Filter(x: nat, y: nat): Colour
  {
    TileColour(SBGGR8, x, y)
  }

  /** The border band in which a channel the site does not carry is not
      interpolated: the first two and the last column and row. */
  predicate InBorderBand(width: nat, height: nat, x: nat, y: nat): (b: bool)
    ensures !b <==> 2 <= x && 2 <= y && x + 2 <= width && y + 2 <= height
    ensures width < 4 || height < 4 ==> b
  {
    x < 2 || x + 1 >= width || y < 2 || y + 1 >= height
  }

  /** The site whose sample stands in for colour `col` at (x, y): for red
      the odd column and odd row of `((x - 2) | 1, (y - 2) | 1)`, for green
      the site to the left, for blue the even column and row of
      `(x & ~1, y & ~1)`. */
  function Substitute(col: Colour, x: nat, y: nat): (s: (nat, nat))
    requires 2 <= x && 2 <= y
    ensures s.0 <= x <= s.0 + 2 && s.1 <= y <= s.1 + 2
    ensures col != Green || Filter(x, y) != Green ==> Filter(s.0, s.1) == col
  {
    match col
    case Red => (SetLowBit(x - 2), SetLowBit(y - 2))
    case Green => (x - 1, y)
    case Blue => (ClearLowBit(x), ClearLowBit(y))
  }

  /** Outside the border band, the substitute of a colour the site does
      not carry is a site of that colour, inside the frame, different from
      (x, y) and at most two columns to the left and two rows up. */
  lemma SubstituteSite(width: nat, height: nat, col: Colour, x: nat, y: nat)
    requires x < width && y < height && !InBorderBand(width, height, x, y)
    requires Filter(x, y) != col
    ensures var (sx, sy) := Substitute(col, x, y);
            Filter(sx, sy) == col && sx < width && sy < height &&
            sx <= x <= sx + 2 && sy <= y <= sy + 2 && (sx, sy) != (x, y)
  {
    var (sx, sy) := Substitute(col, x, y);
    assert (x - 1) % 2 == 1 - x % 2;
    assert (x - 2) % 2 == x % 2 && (y - 2) % 2 == y % 2;
  }

  /** The reference for one channel of the pixel at (x, y): the rescaled
      own sample where the site carries `col`, 0 in the border band, and
      the rescaled sample of the substitute site otherwise. */
  function Interpolate(samples: seq<u16>, width: nat, height: nat, col: Colour, x: nat, y: nat): (v: byte)
    requires x < width && y < height && width * height <= |samples|
    ensures Index(width, x, y) < |samples| &&
              (Filter(x, y) == col ==> v == Rescale(samples[Index(width, x, y)]))
    ensures Filter(x, y) != col && InBorderBand(width, height, x, y) ==> v == 0
    ensures Filter(x, y) == col || !InBorderBand(width, height, x, y) ==>
              exists sx: nat, sy: nat :: sx <= x <= sx + 2 && sy <= y <= sy + 2 &&
                Index(width, sx, sy) < width * height && Filter(sx, sy) == col &&
                v == Rescale(samples[Index(width, sx, sy)])
  {
    IndexInFrame(width, height, x, y);
    if Filter(x, y) == col then Rescale(samples[Index(width, x, y)])
    else if InBorderBand(width, height, x, y) then 0
    else
      SubstituteSite(width, height, col, x, y);
      var (sx, sy) := Substitute(col, x, y);
      IndexInFrame(width, height, sx, sy);
      Rescale(samples[Index(width, sx, sy)])
  }

  /** interpol_r: red sites are those with an odd column and an odd row. */
  function InterpolR(samples: seq<u16>, width: nat, height: nat, x: nat, y: nat): (r: byte)
    requires x < width && y < height && width * height <= |samples|
    ensures r == Interpolate(samples, width, height, Red, x, y)
  {
    IndexInFrame(width, height, x, y);
    if x % 2 == 1 && y % 2 == 1 then Rescale(samples[Index(width, x, y)])
    else if x < 2 || x >= width - 1 then 0
    else if y < 2 || y >= height - 1 then 0
    else
      var xp, yp := SetLowBit(x - 2), SetLowBit(y - 2);
      IndexInFrame(width, height, xp, yp);
      Rescale(samples[Index(width, xp, yp)])
  }

  /** interpol_g: green sites are those whose column and row differ in
      parity. */
  function InterpolG(samples: seq<u16>, width: nat, height: nat, x: nat, y: nat): (g: byte)
    requires x < width && y < height && width * height <= |samples|
    ensures g == Interpolate(samples, width, height, Green, x, y)
  {
    IndexInFrame(width, height, x, y);
    if (x % 2 == 1 && y % 2 == 0) || (x % 2 == 0 && y % 2 == 1) then Rescale(samples[Index(width, x, y)])
    else if x < 2 || x >= width - 1 then 0
    else if y < 2 || y >= height - 1 then 0
    else
      var xp, yp := x - 1, y;
      IndexInFrame(width, height, xp, yp);
      Rescale(samples[Index(width, xp, yp)])
  }

  /** interpol_b: blue sites are those with an even column and an even row. */
  function InterpolB(samples: seq<u16>, width: nat, height: nat, x: nat, y: nat): (b: byte)
    requires x < width && y < height && width * height <= |samples|
    ensures b == Interpolate(samples, width, height, Blue, x, y)
  {
    IndexInFrame(width, height, x, y);
    if x % 2 == 0 && y % 2 == 0 then Rescale(samples[Index(width, x, y)])
    else if x < 2 || x >= width - 1 then 0
    else if y < 2 || y >= height - 1 then 0
    else
      var xp, yp := ClearLowBit(x), ClearLowBit(y);
      IndexInFrame(width, height, xp, yp);
      Rescale(samples[Index(width, xp, yp)])
  }

  /** The pixel the driver writes for site (x, y). */
  function Pixel(samples: seq<u16>, width: nat, height: nat, x: nat, y: nat): (p: Rgb)
    requires x < width && y < height && width * height <= |samples|
    ensures forall col :: ColourChannel(p, col) == Interpolate(samples, width, height, col, x, y)
  {
    Rgb(InterpolR(samples, width, height, x, y),
        InterpolG(samples, width, height, x, y),
        InterpolB(samples, width, height, x, y))
  }

  /** The number of rows the driver fills: `height - 1`, which wraps to
      the largest `unsigned int` for a zero height. */
  function FilledRows(height: nat): (r: nat)
    ensures height < UINT32_LIMIT ==> r < UINT32_LIMIT && (r + 1) % UINT32_LIMIT == height
  {
    if height == 0 then UINT32_LIMIT - 1 else height - 1
  }

  /** The pixels of row `y`, left to right. */
  function PixelRow(samples: seq<u16>, width: nat, height: nat, y: nat): (r: seq<Rgb>)
    requires y < height && width * height <= |samples|
    ensures |r| == width
  {
    seq(width, x requires 0 <= x < width => Pixel(samples, width, height, x, y))
  }

  /** The rows 0 .. n-1, top to bottom. */
  function PixelRows(samples: seq<u16>, width: nat, height: nat, n: nat): (rows: seq<seq<Rgb>>)
    requires n <= height && width * height <= |samples|
    ensures |rows| == n && Rectangular(rows, width)
  {
    seq(n, y requires 0 <= y < n => PixelRow(samples, width, height, y))
  }

  /** The pixels the driver produces: every row but the last (none for a
      frame with no columns). */
  function Interpolation(samples: seq<u16>, width: nat, height: nat): (f: seq<Rgb>)
    requires width * height <= |samples|
    ensures |f| == if width == 0 || height == 0 then 0 else width * (height - 1)
  {
    if width == 0 || height == 0 then []
    else
      FlattenAt(PixelRows(samples, width, height, height - 1), width, 0, 0);
      RowStartIsProduct(width, height - 1);
      Flatten(PixelRows(samples, width, height, height - 1))
  }

  /** Every site above the last row lands at its row-major offset. */
  lemma InterpolationAt(samples: seq<u16>, width: nat, height: nat, x: nat, y: nat)
    requires width * height <= |samples| && x < width && y + 1 < height
    ensures Index(width, x, y) < |Interpolation(samples, width, height)|
    ensures Interpolation(samples, width, height)[Index(width, x, y)] == Pixel(samples, width, height, x, y)
  {
    FlattenAt(PixelRows(samples, width, height, height - 1), width, x, y);
  }

  /** The pixel stored for a site above the last row holds, channel by
      channel, the reference interpolation of red, green and blue. */
  lemma InterpolationChannels(samples: seq<u16>, width: nat, height: nat, x: nat, y: nat)
    requires width * height <= |samples| && x < width && y + 1 < height
    ensures Index(width, x, y) < |Interpolation(samples, width, height)|
    ensures var p := Interpolation(samples, width, height)[Index(width, x, y)];
            p.r == Interpolate(samples, width, height, Red, x, y) &&
            p.g == Interpolate(samples, width, height, Green, x, y) &&
            p.b == Interpolate(samples, width, height, Blue, x, y)
  {
    InterpolationAt(samples, width, height, x, y);
  }

  /** The output buffer `out` with the pixels of `f` written, three words
      per pixel, over its first 3*|f| words. */
  function Painted(out: seq<u16>, f: seq<Rgb>): seq<u16>
  {
    seq(|out|, j requires 0 <= j < |out| => if j < 3 * |f| then Channel(f[j / 3], j % 3) as u16 else out[j])
  }

  /** Word by word: word 3*i + c holds channel c of pixel i, and the words
      past the frame keep their old values. */
  lemma PaintedSlots(out: seq<u16>, f: seq<Rgb>, i: nat, c: nat)
    requires 3 * |f| <= |out| && i < |f| && c < 3
    ensures |Painted(out, f)| == |out|
    ensures Painted(out, f)[3 * i + c] == Channel(f[i], c) as u16
    ensures forall j :: 3 * |f| <= j < |out| ==> Painted(out, f)[j] == out[j]
  {
    assert (3 * i + c) / 3 == i && (3 * i + c) % 3 == c;
  }

  /** `out` agrees with `Painted(out0, f)` on the first n words and with
      `out0` on the rest. */
  ghost predicate PaintedThrough(out0: seq<u16>, out: seq<u16>, f: seq<Rgb>, n: nat)
  {
    |out| == |out0| && 3 * |f| <= |out0| &&
    (forall j :: 0 <= j < n && j < |out| ==> out[j] == Painted(out0, f)[j]) &&
    (forall j :: n <= j < |out| ==> out[j] == out0[j])
  }

  /** Writing pixel k's three words extends the finished prefix by three. */
  lemma PaintedThroughStep(out0: seq<u16>, out: seq<u16>, f: seq<Rgb>, k: nat)
    requires k < |f| && PaintedThrough(out0, out, f, 3 * k)
    ensures PaintedThrough(out0, out[3 * k := f[k].r as u16][3 * k + 1 := f[k].g as u16][3 * k + 2 := f[k].b as u16], f, 3 * k + 3)
  {
    forall c | 0 <= c < 3
      ensures Painted(out0, f)[3 * k + c] == Channel(f[k], c) as u16
    {
      PaintedSlots(out0, f, k, c);
    }
  }

  /** When the whole frame is written, the buffer is the painted one. */
  lemma PaintedThroughAll(out0: seq<u16>, out: seq<u16>, f: seq<Rgb>)
    requires PaintedThrough(out0, out, f, 3 * |f|)
    ensures out == Painted(out0, f)
  {
  }

  /** One pass of the inner loop: the three helpers evaluated at (x, y)
      and their values stored at word `p` and the two after it. */
  method WritePixel(rgb: array<u16>, p: nat, samples: seq<u16>, width: nat, height: nat, x: nat, y: nat,
                    ghost out0: seq<u16>, ghost f: seq<Rgb>, ghost k: nat)
    requires width * height <= |samples| && x < width && y + 1 < height
    requires f == Interpolation(samples, width, height) && k == Index(width, x, y) && p == 3 * k
    requires PaintedThrough(out0, rgb[..], f, p)
    modifies rgb
    ensures PaintedThrough(out0, rgb[..], f, p + 3)
  {
    InterpolationAt(samples, width, height, x, y);
    var r := InterpolR(samples, width, height, x, y);
    var g := InterpolG(samples, width, height, x, y);
    var b := InterpolB(samples, width, height, x, y);
    ghost var before := rgb[..];
    StorePixel(rgb, p, r, g, b);
    PaintedThroughStep(out0, before, f, k);
  }

  /** The three stores `*pixels++ = r; *pixels++ = g; *pixels++ = b;`. */
  method StorePixel(rgb: array<u16>, p: nat, r: byte, g: byte, b: byte)
    requires p + 3 <= rgb.Length
    modifies rgb
    ensures rgb[..] == old(rgb[..])[p := r as u16][p + 1 := g as u16][p + 2 := b as u16]
  {
    rgb[p] := r as u16;
    rgb[p + 1] := g as u16;
    rgb[p + 2] := b as u16;
  }

  /** The row start of the row after the last filled one is the frame's
      pixel count. */
  lemma RowsFilled(width: nat, height: nat)
    requires 1 <= height
    ensures RowStart(width, height - 1) == width * (height - 1)
  {
    RowStartIsProduct(width, height - 1);
  }

  /** fswc_add_image_10bitsbayer: for y from 0 while y < height - 1 and x
      from 0 while x < width, stores the red, green and blue values of
      (x, y) at the next three words of `rgb`. The buffer ends up holding
      the interpolated frame in its first 3*width*(height - 1) words and
      its old contents after them. */
  method AddImage10BitBayer(samples: seq<u16>, rgb: array<u16>, width: nat, height: nat)
    requires width * height <= |samples| && width * height < UINT32_LIMIT
    requires width == 0 || 1 <= height
    requires 3 * |Interpolation(samples, width, height)| <= rgb.Length
    modifies rgb
    ensures rgb[..] == Painted(old(rgb[..]), Interpolation(samples, width, height))
  {
    ghost var f := Interpolation(samples, width, height);
    var rows := FilledRows(height);
    var p: nat := 0;
    var y := 0;
    while y < rows
      invariant y <= rows
      invariant width == 0 || y < height
      invariant p == 3 * RowStart(width, y)
      invariant PaintedThrough(old(rgb[..]), rgb[..], f, p)
    {
      var x := 0;
      while x < width
        invariant x <= width && y < rows
        invariant p == 3 * Index(width, x, y)
        invariant PaintedThrough(old(rgb[..]), rgb[..], f, p)
      {
        WritePixel(rgb, p, samples, width, height, x, y, old(rgb[..]), f, Index(width, x, y));
        p := p + 3;
        x := x + 1;
      }
      y := y + 1;
    }
    if width != 0 {
      RowsFilled(width, height);
    }
    PaintedThroughAll(old(rgb[..]), rgb[..], f);
  }

  // Properties of the interpolator.

  /** A channel depends only on the samples of its own colour: two frames
      that agree on every site of colour `col` give the same channel
      everywhere. */
  lemma InterpolateReadsOwnColour(s1: seq<u16>, s2: seq<u16>, width: nat, height: nat, col: Colour, x: nat, y: nat)
    requires x < width && y < height && width * height <= |s1| && width * height <= |s2|
    requires forall k :: 0 <= k < width * height && Filter(k % width, k / width) == col ==> s1[k] == s2[k]
    ensures Interpolate(s1, width, height, col, x, y) == Interpolate(s2, width, height, col, x, y)
  {
    IndexInFrame(width, height, x, y);
    if Filter(x, y) == col {
      IndexCoordinates(width, x, y);
    } else if !InBorderBand(width, height, x, y) {
      SubstituteSite(width, height, col, x, y);
      var (sx, sy) := Substitute(col, x, y);
      IndexInFrame(width, height, sx, sy);
      IndexCoordinates(width, sx, sy);
    }
  }

  /** In a frame whose samples are all `v`, a channel is the rescaled `v`
      wherever the site carries it or lies outside the border band, and 0
      elsewhere. */
  lemma UniformInterpolation(samples: seq<u16>, width: nat, height: nat, col: Colour, x: nat, y: nat, v: u16)
    requires x < width && y < height && width * height <= |samples|
    requires forall i :: 0 <= i < width * height ==> samples[i] == v
    ensures Interpolate(samples, width, height, col, x, y) ==
            if Filter(x, y) == col || !InBorderBand(width, height, x, y) then Rescale(v) else 0
  {
    IndexInFrame(width, height, x, y);
    if Filter(x, y) != col && !InBorderBand(width, height, x, y) {
      var (sx, sy) := Substitute(col, x, y);
      SubstituteSite(width, height, col, x, y);
      IndexInFrame(width, height, sx, sy);
    }
  }

  /** The top-left site is blue; its red and green channels fall in the
      border band and are 0. */
  lemma TopLeftPixel(samples: seq<u16>, width: nat, height: nat)
    requires 1 <= width && 1 <= height && width * height <= |samples|
    ensures Pixel(samples, width, height, 0, 0) == Rgb(0, 0, Rescale(samples[0]))
  {
  }

  /** A 4 by 4 frame at full scale: the top-left pixel is pure blue, and
      only the one site outside the border band, (2, 2), is white. */
  lemma FullScaleFrame(samples: seq<u16>)
    requires |samples| == 16 && forall i :: 0 <= i < 16 ==> samples[i] == 1023
    ensures Pixel(samples, 4, 4, 0, 0) == Rgb(0, 0, 255)
    ensures Pixel(samples, 4, 4, 2, 2) == Rgb(255, 255, 255)
    ensures Pixel(samples, 4, 4, 1, 1) == Rgb(255, 0, 0)
  {
    assert RowStart(4, 1) == 4 && RowStart(4, 2) == 8;
    UniformInterpolation(samples, 4, 4, Red, 2, 2, 1023);
    UniformInterpolation(samples, 4, 4, Green, 2, 2, 1023);
    UniformInterpolation(samples, 4, 4, Blue, 2, 2, 1023);
  }

  /** The driver never writes the words of the last row: every word from
      3*width*(height - 1) on keeps its value. */
  lemma LastRowUntouched(samples: seq<u16>, out: seq<u16>, width: nat, height: nat)
    requires width * height <= |samples| && 1 <= height
    requires 3 * |Interpolation(samples, width, height)| <= |out|
    ensures forall j :: 3 * (width * (height - 1)) <= j < |out| ==>
              Painted(out, Interpolation(samples, width, height))[j] == out[j]
  {
  }
}
