# Bayer demosaicing of fswebcam (dec_bayer.c), modelled in Dafny

fswebcam turns raw single-channel Bayer sensor frames into RGB in two
independent ways, both in `dec_bayer.c`:

- **The 8-bit accumulator `fswc_add_image_bayer`.** It walks the `w*h` samples
  of a frame in row-major order. For each sample it:
  - finds the eight neighbours, mirroring them back inside the frame at the
    borders;
  - takes truncating horizontal, vertical and diagonal averages;
  - classifies the site as red, green or blue from the parity of its
    coordinates and the palette tag, exchanging red and blue for SGRBG8 and
    SRGGB8;
  - **adds** the resulting red, green and blue into three slots of a
    running-sum buffer.

  It returns -1 and writes nothing when fewer than `w*h` samples are supplied.
- **The 10-bit interpolator.** `interpol_r`, `interpol_g` and `interpol_b` each
  derive one channel of one pixel of a BGGR frame of 10-bit samples. Each
  helper:
  - reads the site's own sample where the site carries that colour;
  - returns 0 in a border band: the first two and the last column and row;
  - otherwise copies a fixed nearby site of that colour.

  The value is rescaled with `clip(255*v/1023)`. The driver
  `fswc_add_image_10bitsbayer` stores the three channels of every pixel of
  rows `0 .. height-2` into a buffer of 16-bit words. The last row is never
  produced.

The project has three modules, one file each:

- `BayerTile` (`bayer_tile.dfy`) holds what both parts share:
  - the byte and 16-bit word types and the RGB pixel;
  - the palette tags;
  - the 2x2 tile table `Tile`/`TileColour`, the reference the parity tests
    of both parts are proved against;
  - row-major offsets, `Index(w, x, y)` = `y*w + x`, and `Flatten`, which lays
    rows end to end in that order.
- `BayerAccumulate` (`bayer_accumulate.dfy`) models the accumulator. The loop
  is the method `AddImageBayer` over an `array<nat>`. It is proved against
  the functional specification `Accumulate`, which adds the demosaiced frame
  `Demosaic` into the buffer. The pointer juggling is the method
  `NeighbourPointers`. It is proved equal to a coordinate mirror, `Reflect`.
- `Bayer10Bit` (`bayer_10bit.dfy`) models the interpolator:
  - `Rescale` is `clip`;
  - `InterpolR`, `InterpolG` and `InterpolB` are the helpers, each proved
    equal to one generic rule `Interpolate`, stated with the BGGR tile;
  - the driver is the method `AddImage10BitBayer`, with two nested loops over
    an `array<u16>`. It is proved to leave the buffer equal to
    `Painted(old buffer, Interpolation(...))`.

Design points:

- **Floating point in `clip`.** `clip(255. * v / range_max)` is computed in
  floating point. It is modelled exactly on integers: the floored quotient
  `255*v / 1023`, saturated at 255. The quotient `85v/341` is never closer than
  1/341 below an integer. For a 16-bit `v` that is well beyond float
  rounding, so truncating the float gives the integer quotient.
- **Bit operations.** `(n - 2) | 1` and `n & ~1` on unsigned values are
  `SetLowBit` and `ClearLowBit`. They are written as arithmetic on the low bit.
- **Palette tags.** `SRC_PAL_*` is an `int` compared with named constants. It
  is modelled as the datatype `Palette`. Its case `Other` stands for every tag
  the code does not name, and takes the else branches. Those branches behave
  as SGBRG8.
- **Pointer walks.** The walks `img++`, `dst++` and `pixels++` are offsets into
  the buffers. Row starts are built one row at a time (`RowStart`). A lemma
  proves them equal to the product `y*w` that the C code computes.

## Model

| member | source | states |
|---|---|---|
| `BayerTile.TileIsBayer` | dec_bayer.c:24-45 | every palette's tile is a Bayer tile: green sites form a checkerboard, the two other sites of a tile carry opposite colours, and the pattern repeats every two sites |
| `BayerTile.IndexInFrame` | dec_bayer.c:47 | a site inside a `w` by `h` frame has its sample among the first `w*h` samples |
| `BayerTile.IndexCoordinates` | dec_bayer.c:106 | row and column of a sample offset are recovered by division and remainder by the row width, so the counters `x`, `y` track the offset |
| `BayerTile.OffsetInFrame` | dec_bayer.c:47 | every offset `i` below `w*h` is the offset of the in-frame site `(i % w, i / w)` and of no other site |
| `BayerTile.RowStartIsProduct` | dec_bayer.c:55-62 | the row-by-row offset of a row is the product `y*w` |
| `BayerTile.FlattenAt` | dec_bayer.c:101-106 | rows of `w` items laid end to end hold `n*w` items, and item `x` of row `y` sits at offset `y*w+x` |
| `BayerAccumulate.Reflect` | dec_bayer.c:65-68 | a coordinate one step outside the frame is mirrored inside: -1 becomes 1, n becomes n-2, coordinates inside stay |
| `BayerAccumulate.ReflectParity` | dec_bayer.c:65-68 | mirroring keeps a coordinate's parity |
| `BayerAccumulate.NeighbourColour` | dec_bayer.c:65-68 | a mirrored neighbour is covered by the same colour filter as the out-of-frame site it replaces |
| `BayerAccumulate.Neighbour` | dec_bayer.c:55-68 | for `w, h >= 2` the mirrored neighbour `j` of a site lies in `img[0 .. w*h)` |
| `BayerAccumulate.RowPointers` | dec_bayer.c:55-66 | after the row juggle the pointers sit on the mirrored rows above and below, one column left, centre and right |
| `BayerAccumulate.ReflectedRows` | dec_bayer.c:65-66 | the mirrored row above row 0 is row 1, the mirrored row below the last row is the one above it, and otherwise the neighbouring rows start one width earlier or later |
| `BayerAccumulate.NeighbourPointers` | dec_bayer.c:55-68 | the eight juggled pointers are exactly the offsets of the eight mirrored neighbour sites |
| `BayerAccumulate.CornerNeighbours` | dec_bayer.c:65-68 | at each of the four corners the four diagonal pointers collapse onto the one diagonal site inside the frame, both vertical ones onto the site in the neighbouring row and both horizontal ones onto the site in the neighbouring column; at the top-left corner these are `img+w+1`, `img+w` and `img+1` |
| `BayerAccumulate.Mean2` | dec_bayer.c:71-72 | the truncating average of two samples is the floor of their sum over two, and lies between them |
| `BayerAccumulate.Mean4` | dec_bayer.c:73 | the truncating average of four samples is the floor of their sum over four |
| `BayerAccumulate.Mode` | dec_bayer.c:76-82 | `mode` is 0 or 1, and is 1 exactly at the green sites of the palette's tile |
| `BayerAccumulate.ExchangesRedBlue` | dec_bayer.c:93-94 | the palettes that exchange red and blue are exactly those whose tile has red sites on the even rows |
| `BayerAccumulate.SwapRedBlue` | dec_bayer.c:93-99 | the exchange moves each colour's value to the channel of the opposite colour and keeps green |
| `BayerAccumulate.Classify` | dec_bayer.c:76-99 | the own sample lands in the channel of the site's tile colour, whatever the palette |
| `BayerAccumulate.PixelRgb` | dec_bayer.c:55-99 | the site's own sample is in the frame and lands in the channel of the site's tile colour |
| `BayerAccumulate.ClassifyFollowsTile` | dec_bayer.c:76-99 | for every palette, the own sample goes to the channel of the site's tile colour; at green sites the horizontal and vertical averages go to the colours of the horizontal and vertical neighbours; at red or blue sites green is the average of the two averages and the opposite colour gets the diagonal average |
| `BayerAccumulate.PaletteRelations` | dec_bayer.c:76-99 | BAYER classifies as SBGGR8, unnamed tags as SGBRG8, SRGGB8 as SBGGR8 with red and blue exchanged, SGRBG8 as SGBRG8 with red and blue exchanged |
| `BayerAccumulate.DemosaicSite` | dec_bayer.c:55-99 | the pointers, averages and classification of one loop turn compute the pixel `PixelRgb` of that site |
| `BayerAccumulate.DemosaicRow` | dec_bayer.c:47-107 | one row of the demosaiced frame has `w` pixels |
| `BayerAccumulate.DemosaicRows` | dec_bayer.c:47-107 | the demosaiced frame splits into `h` rows of `w` pixels each |
| `BayerAccumulate.Demosaic` | dec_bayer.c:47-107 | the demosaiced frame holds one pixel per sample, `w*h` in all |
| `BayerAccumulate.DemosaicAt` | dec_bayer.c:47-107 | pixel `y*w+x` of the demosaiced frame is the pixel derived for site `(x, y)` |
| `BayerAccumulate.AccumulateBayerIsSBGGR8` | dec_bayer.c:76-79 | a frame tagged BAYER accumulates exactly like one tagged SBGGR8 |
| `BayerAccumulate.DemosaicExchanged` | dec_bayer.c:93-99 | pixel by pixel, SRGGB8 output is SBGGR8 output with red and blue exchanged, and SGRBG8 output is SGBRG8 output with red and blue exchanged |
| `BayerAccumulate.UniformPixelIsGrey` | dec_bayer.c:71-91 | in a frame of equal samples `v` every pixel is `(v, v, v)` |
| `BayerAccumulate.UniformFrameIsGrey` | dec_bayer.c:47-107 | a frame of equal samples `v` demosaics to grey `v` at every site |
| `BayerAccumulate.BlackFrameAddsNothing` | dec_bayer.c:101-103 | an all-zero frame leaves the buffer unchanged (a zeroed buffer stays zero) |
| `BayerAccumulate.AddFrameSlots` | dec_bayer.c:101-103 | slot `3i+c` grows by exactly channel `c` of pixel `i`, and slots from `3*w*h` on are untouched |
| `BayerAccumulate.AddFrameCommutes` | dec_bayer.c:101-103 | adding two frames in either order gives the same buffer |
| `BayerAccumulate.AddFrameTwice` | dec_bayer.c:101-103 | adding a frame twice into a zeroed buffer gives twice the result of adding it once |
| `BayerAccumulate.AddedThroughStep` | dec_bayer.c:101-103 | adding one pixel's three channels extends the finished part of the buffer by three slots |
| `BayerAccumulate.AddedThroughAll` | dec_bayer.c:47-110 | once every slot of the frame is finished the buffer is the whole frame added in |
| `BayerAccumulate.AddPixel` | dec_bayer.c:101-103 | the three `+=` add red, green and blue to slot `s` and the two after it and change nothing else |
| `BayerAccumulate.AddSite` | dec_bayer.c:55-103 | one loop turn adds the pixel of its site and extends the finished part by three slots |
| `BayerAccumulate.CounterInFrame` | dec_bayer.c:47-106 | while the offset is inside the frame the row counter stays below `h` |
| `BayerAccumulate.AddImageBayer` | dec_bayer.c:18-111 | returns -1 and leaves `dst` unchanged when `length < w*h`; otherwise returns 0 and leaves `dst` equal to the old buffer with the demosaiced frame added |
| `Bayer10Bit.Rescale` | dec_bayer.c:113-119 | `clip(255*v/1023)`: 255 exactly when `v >= 1023`; for 10-bit `v` the largest byte `b` with `1023*b <= 255*v` |
| `Bayer10Bit.RescaleMonotone` | dec_bayer.c:113-119 | a larger sample never rescales to a smaller byte |
| `Bayer10Bit.SetLowBit` | dec_bayer.c:139-140 | `n | 1` is odd and is `n` or `n+1` |
| `Bayer10Bit.ClearLowBit` | dec_bayer.c:199-200 | `n & ~1` is even and is `n` or `n-1` |
| `Bayer10Bit.InBorderBand` | dec_bayer.c:134-137 | a site lies outside the band exactly when two columns and two rows lie before it and one after it; a frame narrower or lower than 4 lies wholly in the band |
| `Bayer10Bit.Substitute` | dec_bayer.c:139-140 | the substitute site is at most two columns left and two rows up, and is of the wanted colour unless green is wanted at a green site |
| `Bayer10Bit.SubstituteSite` | dec_bayer.c:139-145 | outside the border band the substitute of a colour the site lacks is a site of that colour inside the frame, other than the site, at most two columns left and two rows up |
| `Bayer10Bit.InterpolR` | dec_bayer.c:121-149 | interpol_r equals the generic channel rule for red: own sample at odd/odd sites, 0 in the border band, substitute `((x-2)|1, (y-2)|1)` otherwise, all rescaled |
| `Bayer10Bit.InterpolG` | dec_bayer.c:151-179 | interpol_g equals the generic rule for green: own sample where exactly one coordinate is odd, 0 in the border band, the site to the left otherwise |
| `Bayer10Bit.InterpolB` | dec_bayer.c:181-209 | interpol_b equals the generic rule for blue: own sample at even/even sites, 0 in the border band, `(x & ~1, y & ~1)` otherwise |
| `Bayer10Bit.Interpolate` | dec_bayer.c:121-209 | where the site carries the wanted colour the channel is the site's own rescaled sample; a missing channel is 0 in the border band; otherwise the channel is the rescaled sample of some site of the wanted colour inside the frame, at most two columns left and two rows up |
| `Bayer10Bit.Pixel` | dec_bayer.c:223-225 | each channel of the pixel is the generic rule for that colour |
| `Bayer10Bit.FilledRows` | dec_bayer.c:220 | the row count is `height - 1` in 32-bit unsigned arithmetic |
| `Bayer10Bit.InterpolateReadsOwnColour` | dec_bayer.c:121-209 | a channel depends only on the samples of sites of its own colour |
| `Bayer10Bit.UniformInterpolation` | dec_bayer.c:121-209 | in a frame of equal samples `v` a channel is the rescaled `v` where the site carries it or lies outside the border band, and 0 elsewhere |
| `Bayer10Bit.TopLeftPixel` | dec_bayer.c:121-209 | the top-left pixel is `(0, 0, rescaled own sample)` |
| `Bayer10Bit.FullScaleFrame` | dec_bayer.c:121-235 | in a 4x4 frame of samples 1023 the pixel at (0, 0) is `(0, 0, 255)`, at (1, 1) `(255, 0, 0)` and at (2, 2) `(255, 255, 255)` |
| `Bayer10Bit.PixelRow` | dec_bayer.c:221-230 | one produced row holds `width` pixels |
| `Bayer10Bit.PixelRows` | dec_bayer.c:220-234 | the first `n` produced rows, each of `width` pixels |
| `Bayer10Bit.Interpolation` | dec_bayer.c:220-234 | the driver produces `width*(height-1)` pixels |
| `Bayer10Bit.InterpolationAt` | dec_bayer.c:220-230 | the pixel produced at offset `y*width+x`, for `y < height-1`, is that site's pixel |
| `Bayer10Bit.InterpolationChannels` | dec_bayer.c:223-230 | the words of pixel `y*width+x` hold the red, green and blue helper values at `(x, y)` |
| `Bayer10Bit.PaintedSlots` | dec_bayer.c:228-230 | word `3i+k` holds channel `k` of pixel `i`, and words past the produced pixels keep their values |
| `Bayer10Bit.PaintedThroughStep` | dec_bayer.c:228-230 | storing one pixel extends the finished part of the buffer by three words |
| `Bayer10Bit.PaintedThroughAll` | dec_bayer.c:220-234 | once every produced word is stored the buffer is the painted one |
| `Bayer10Bit.StorePixel` | dec_bayer.c:228-230 | the three stores set word `p` and the two after it and change nothing else |
| `Bayer10Bit.WritePixel` | dec_bayer.c:223-230 | one inner-loop turn stores the three helper values of its site and extends the finished part by three words |
| `Bayer10Bit.LastRowUntouched` | dec_bayer.c:220 | the words from `3*width*(height-1)` on are never written, so the last row is never produced |
| `Bayer10Bit.AddImage10BitBayer` | dec_bayer.c:211-235 | the buffer ends up with the interpolated frame in its first `3*width*(height-1)` words and its old contents after them |

## Left out

- Floating point: `clip`, `value` and `range_max` are floats in the source. They are modelled by the exact integer rescaling described above.
- Dead code is not modelled:
  - the unused `xn`/`yn` of the three helpers;
  - the unused `samples++`, `range_max` and initial `r = g = b = 0` of the driver.
- Degenerate frames of the accumulator: a frame one sample wide or high would read outside the frame after the juggling. `AddImageBayer` requires `w, h >= 2` whenever the length check passes and the frame is not empty.
- Degenerate frames of the interpolator: a zero `height` with a non-zero `width` makes `height - 1` wrap and the driver read past the frame. `AddImage10BitBayer` requires `width == 0 || height >= 1`. With a zero width the wrapped row count is modelled (`FilledRows`) and nothing is written.
- `uint32_t`/`unsigned int` overflow of `w*h` and `y*width`: both drivers require the pixel count to be below 2^32, so the C products do not wrap.
- The helpers are defined for any `x < width`, `y < height`. They require the sample buffer to hold the `width*height` samples they may read.
- Output buffer length: `dst` must hold `3*w*h` slots and `rgb_data` must hold `3*width*(height-1)` words. The source does not check either.
- The accumulator element type `avgbmp_t` and the `SRC_PAL_*` values are defined in headers (fswebcam.h, src.h). Those headers are not part of this model. The buffer is modelled as unbounded naturals, so overflow across many accumulated frames is not modelled.
- Pointer identity is not modelled. `img`, `dst` and `pixels` are buffers indexed by offsets, and the pointer array `p[8]` is a sequence of offsets. Reads before the start of the buffer, which the juggling removes, are negative offsets.
- The surrounding pipeline is not part of this model: capture, the division of the running sums, scaling and encoding.
- Row trim: the driver loops `y < height - 1`, so the last row of the frame is never produced. This is modelled as written (`Interpolation`, `LastRowUntouched`).
- Border band: for a frame of all-1023 samples the border sites do not come out white. Their missing channels are 0 (`FullScaleFrame`), following the code.
