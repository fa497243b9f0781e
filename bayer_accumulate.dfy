/** The 8-bit Bayer accumulator `fswc_add_image_bayer` of dec_bayer.c: every
    sample of a raw frame is demosaiced from its eight neighbours (mirrored
    back inside the frame at the borders) and the resulting red, green and
    blue values are ADDED to a running-sum buffer, so that a caller can sum
    several frames and divide afterwards. */
module BayerAccumulate {
  import opened BayerTile

  /** The pixel with red and blue exchanged: every colour's channel
      now holds what the opposite colour's channel held. */
  function SwapRedBlue(c: Rgb): (r: Rgb)
    ensures forall col :: ColourChannel(r, col) == ColourChannel(c, Opposite(col))
  {
    Rgb(c.b, c.g, c.r)
  }

  /** Frame shapes for which the neighbour reflection stays inside the
      frame: an empty frame (nothing is read), or one at least two samples
      wide and two high. With a single row or column the reflected
      neighbour of a border sample is itself outside the frame. */
  predicate Demosaicable(w: nat, h: nat)
  {
    w * h == 0 || (2 <= w && 2 <= h)
  }

  /** Mirror a coordinate that is one step outside [0, n) back inside:
      -1 becomes 1 and n becomes n - 2. The mirror image keeps the parity,
      hence the tile colour, of the coordinate it replaces. */
  function Reflect(c: int, n: nat): (r: nat)
    requires 2 <= n && -1 <= c <= n
    ensures r < n
    ensures 0 <= c < n ==> r == c
    ensures c < 0 ==> r == c + 2
    ensures c == n ==> r == c - 2
  {
    if c < 0 then -c else if c >= n then 2 * (n - 1) - c else c
  }

  /** Column and row steps to the eight neighbours, in the order of the
      pointer array of the source: north-west, north, north-east, west,
      east, south-west, south, south-east. */
  function DX(j: nat): int
  {
    if j == 0 || j == 3 || j == 5 then -1 else if j == 1 || j == 6 then 0 else 1
  }

  function DY(j: nat): int
  {
    if j < 3 then -1 else if j < 5 then 0 else 1
  }

  /** Buffer offset of neighbour `j` of site (x, y), each coordinate
      mirrored back inside the frame independently; once mirrored, every
      neighbour is a sample of the frame. */
  function Neighbour(w: nat, h: nat, x: nat, y: nat, j: nat): (i: nat)
    requires 2 <= w && 2 <= h && x < w && y < h && j < 8
    ensures i < w * h
  {
    IndexInFrame(w, h, Reflect(x + DX(j), w), Reflect(y + DY(j), h));
    Index(w, Reflect(x + DX(j), w), Reflect(y + DY(j), h))
  }

  /** The eight neighbour pointers of the sample at offset `k`, set up one
      row above and below and one column left and right, then juggled at
      the top or bottom row and afterwards at the left or right column.
      The result is the mirror-reflection lookup `Neighbour`, so every
      pointer lands inside the frame. */
  method NeighbourPointers(k: nat, w: nat, h: nat, x: nat, y: nat) returns (p: seq<int>)
    requires 2 <= w && 2 <= h && x < w && y < h && k == Index(w, x, y)
    ensures |p| == 8
    ensures p[0] == Neighbour(w, h, x, y, 0) && p[1] == Neighbour(w, h, x, y, 1)
    ensures p[2] == Neighbour(w, h, x, y, 2) && p[3] == Neighbour(w, h, x, y, 3)
    ensures p[4] == Neighbour(w, h, x, y, 4) && p[5] == Neighbour(w, h, x, y, 5)
    ensures p[6] == Neighbour(w, h, x, y, 6) && p[7] == Neighbour(w, h, x, y, 7)
  {
    p := RowPointers(k, w, h, x, y);
    ghost var north, south := RowStart(w, Reflect(y - 1, h)), RowStart(w, Reflect(y + 1, h));
    if x == 0 {
      p := p[0 := p[2]][3 := p[4]][5 := p[7]];
    } else if x == w - 1 {
      p := p[2 := p[0]][4 := p[3]][7 := p[5]];
    }
    ghost var west, east := Reflect(x - 1, w), Reflect(x + 1, w);
    assert p[0] == north + west && p[1] == north + x && p[2] == north + east;
    assert p[3] == k - x + west && p[4] == k - x + east;
    assert p[5] == south + west && p[6] == south + x && p[7] == south + east;
  }

  /** The pointers after the first juggle: the rows above and below are
      mirrored, the columns are not yet. */
  method RowPointers(k: nat, w: nat, h: nat, x: nat, y: nat) returns (p: seq<int>)
    requires 2 <= w && 2 <= h && x < w && y < h && k == Index(w, x, y)
    ensures |p| == 8
    ensures p[0] + 1 == p[1] == p[2] - 1 == RowStart(w, Reflect(y - 1, h)) + x
    ensures p[3] + 1 == k == p[4] - 1
    ensures p[5] + 1 == p[6] == p[7] - 1 == RowStart(w, Reflect(y + 1, h)) + x
  {
    p := [k - w - 1, k - w, k - w + 1, k - 1, k + 1, k + w - 1, k + w, k + w + 1];
    if y == 0 {
      p := p[0 := p[5]][1 := p[6]][2 := p[7]];
    } else if y == h - 1 {
      p := p[5 := p[0]][6 := p[1]][7 := p[2]];
    }
    ReflectedRows(w, h, y);
  }

  /** The rows above and below a row, mirrored, start one row width before
      or after it. */
  lemma ReflectedRows(w: nat, h: nat, y: nat)
    requires 2 <= h && y < h
    ensures RowStart(w, Reflect(y - 1, h)) == (if y == 0 then w else RowStart(w, y) - w)
    ensures RowStart(w, Reflect(y + 1, h)) == (if y == h - 1 then RowStart(w, y) - w else RowStart(w, y) + w)
  {
    assert RowStart(w, 1) == w;
  }

  /** Truncating average of two samples, as the `uint8_t` arithmetic of
      the source computes it. */
  function Mean2(a: byte, b: byte): (m: byte)
    ensures 2 * m as int <= a as int + b as int < 2 * m as int + 2
    ensures a <= b ==> a <= m <= b
    ensures b <= a ==> b <= m <= a
  {
    ((a as int + b as int) / 2) as byte
  }

  /** Truncating average of four samples. */
  function Mean4(a: byte, b: byte, c: byte, d: byte): (m: byte)
    ensures m as int * 4 <= a as int + b as int + c as int + d as int < m as int * 4 + 4
  {
    ((a as int + b as int + c as int + d as int) / 4) as byte
  }

  /** 1 where the sample under (x, y) is green: the parity of x + y for
      SBGGR8, SRGGB8 and the generic Bayer tag, its complement otherwise. */
  function Mode(pal: Palette, x: nat, y: nat): (m: nat)
    ensures m < 2 && (m == 1 <==> TileColour(pal, x, y) == Green)
  {
    assert (x + y) % 2 == (if x % 2 == y % 2 then 0 else 1);
    if pal == SBGGR8 || pal == SRGGB8 || pal == Bayer then (x + y) % 2 else 1 - (x + y) % 2
  }

  /** The orders whose red and blue are exchanged after classification:
      those with red sites on the even rows. */
  predicate ExchangesRedBlue(pal: Palette): (e: bool)
    ensures e <==> TileColour(pal, 0, 0) == Red || TileColour(pal, 1, 0) == Red
  {
    pal == SGRBG8 || pal == SRGGB8
  }

  /** Classify a site and build its pixel from its own sample and the
      horizontal, vertical and diagonal neighbour averages. */
  function Classify(pal: Palette, x: nat, y: nat, own: byte, hn: byte, vn: byte, di: byte): (r: Rgb)
    ensures ColourChannel(r, TileColour(pal, x, y)) == own
  {
    assert (x + y) % 2 == (if x % 2 == y % 2 then 0 else 1);
    var c :=
      if Mode(pal, x, y) == 1 then
        (if y % 2 == 1 then Rgb(hn, own, vn) else Rgb(vn, own, hn))
      else if y % 2 == 1 then Rgb(own, Mean2(vn, hn), di)
      else Rgb(di, Mean2(vn, hn), own);
    if ExchangesRedBlue(pal) then SwapRedBlue(c) else c
  }

  /** Neighbour `j` of site (x, y), read from the frame. */
  function NeighbourSample(img: seq<byte>, w: nat, h: nat, x: nat, y: nat, j: nat): byte
    requires 2 <= w && 2 <= h && x < w && y < h && w * h <= |img| && j < 8
  {
    img[Neighbour(w, h, x, y, j)]
  }

  /** The pixel the accumulator derives for site (x, y) of the frame. */
  function PixelRgb(img: seq<byte>, w: nat, h: nat, x: nat, y: nat, pal: Palette): (c: Rgb)
    requires 2 <= w && 2 <= h && x < w && y < h && w * h <= |img|
    ensures Index(w, x, y) < |img| && ColourChannel(c, TileColour(pal, x, y)) == img[Index(w, x, y)]
  {
    IndexInFrame(w, h, x, y);
    Classify(pal, x, y, img[Index(w, x, y)],
             Mean2(NeighbourSample(img, w, h, x, y, 3), NeighbourSample(img, w, h, x, y, 4)),
             Mean2(NeighbourSample(img, w, h, x, y, 1), NeighbourSample(img, w, h, x, y, 6)),
             Mean4(NeighbourSample(img, w, h, x, y, 0), NeighbourSample(img, w, h, x, y, 2),
                   NeighbourSample(img, w, h, x, y, 5), NeighbourSample(img, w, h, x, y, 7)))
  }

  /** The pixels of row `y` of the frame, left to right. */
  function DemosaicRow(img: seq<byte>, w: nat, h: nat, pal: Palette, y: nat): (r: seq<Rgb>)
    requires 2 <= w && 2 <= h && y < h && w * h <= |img|
    ensures |r| == w
  {
    seq(w, x requires 0 <= x < w => PixelRgb(img, w, h, x, y, pal))
  }

  /** The rows of the frame, top to bottom. */
  function DemosaicRows(img: seq<byte>, w: nat, h: nat, pal: Palette): (rows: seq<seq<Rgb>>)
    requires 2 <= w && 2 <= h && w * h <= |img|
    ensures |rows| == h && Rectangular(rows, w)
  {
    seq(h, y requires 0 <= y < h => DemosaicRow(img, w, h, pal, y))
  }

  /** The pixels of the whole frame, in row-major order (empty for an
      empty frame). */
  function Demosaic(img: seq<byte>, w: nat, h: nat, pal: Palette): (f: seq<Rgb>)
    requires w * h <= |img| && Demosaicable(w, h)
    ensures |f| == w * h
  {
    if w * h == 0 then []
    else
      FlattenAt(DemosaicRows(img, w, h, pal), w, 0, 0);
      RowStartIsProduct(w, h);
      Flatten(DemosaicRows(img, w, h, pal))
  }

  /** Every site of the frame lands at its row-major offset. */
  lemma DemosaicAt(img: seq<byte>, w: nat, h: nat, pal: Palette, x: nat, y: nat)
    requires w * h <= |img| && Demosaicable(w, h) && x < w && y < h
    ensures 2 <= w && 2 <= h && Index(w, x, y) < w * h
    ensures Demosaic(img, w, h, pal)[Index(w, x, y)] == PixelRgb(img, w, h, x, y, pal)
  {
    IndexInFrame(w, h, x, y);
    FlattenAt(DemosaicRows(img, w, h, pal), w, x, y);
  }

  /** What one call adds to slot `j` of the output buffer: channel j % 3
      of pixel j / 3 for the 3*w*h slots of the frame, nothing beyond. */
  function Contribution(f: seq<Rgb>, j: nat): nat
  {
    if j < 3 * |f| then Channel(f[j / 3], j % 3) as nat else 0
  }

  /** The buffer `acc` with every pixel of `f` added into its slots. */
  function AddFrame(acc: seq<nat>, f: seq<Rgb>): seq<nat>
  {
    seq(|acc|, j requires 0 <= j < |acc| => acc[j] + Contribution(f, j))
  }

  /** The output buffer after one successful call that started from `acc`. */
  function Accumulate(acc: seq<nat>, img: seq<byte>, w: nat, h: nat, pal: Palette): seq<nat>
    requires w * h <= |img| && Demosaicable(w, h)
  {
    AddFrame(acc, Demosaic(img, w, h, pal))
  }

  /** `acc` is `acc0` with the first `n` slots' contributions of `f` added
      and the remaining slots untouched. */
  ghost predicate AddedThrough(acc0: seq<nat>, acc: seq<nat>, f: seq<Rgb>, n: nat)
  {
    |acc| == |acc0| &&
    (forall j :: 0 <= j < n && j < |acc| ==> acc[j] == acc0[j] + Contribution(f, j)) &&
    (forall j :: n <= j < |acc| ==> acc[j] == acc0[j])
  }

  /** `acc` with the channels of `c` added to slot `s` and the two after it. */
  function AddedAt(acc: seq<nat>, s: nat, c: Rgb): seq<nat>
    requires s + 3 <= |acc|
  {
    acc[s := acc[s] + c.r as nat][s + 1 := acc[s + 1] + c.g as nat][s + 2 := acc[s + 2] + c.b as nat]
  }

  /** Adding pixel `k` of the frame to its three slots extends the prefix
      by three. */
  lemma AddedThroughStep(acc0: seq<nat>, acc: seq<nat>, f: seq<Rgb>, k: nat)
    requires k < |f| && 3 * k + 3 <= |acc|
    requires AddedThrough(acc0, acc, f, 3 * k)
    ensures AddedThrough(acc0, AddedAt(acc, 3 * k, f[k]), f, 3 * k + 3)
  {
    var next := AddedAt(acc, 3 * k, f[k]);
    forall j | 3 * k <= j < 3 * k + 3
      ensures next[j] == acc0[j] + Contribution(f, j)
    {
      assert j / 3 == k;
    }
  }

  /** Once every slot of the frame has received its contribution, the
      buffer is the whole frame added in. */
  lemma AddedThroughAll(acc0: seq<nat>, acc: seq<nat>, f: seq<Rgb>)
    requires 3 * |f| <= |acc0| && AddedThrough(acc0, acc, f, 3 * |f|)
    ensures acc == AddFrame(acc0, f)
  {
  }

  /** The three in-place additions of one pixel at slot `s` and the two
      slots after it. */
  method AddPixel(dst: array<nat>, s: nat, c: Rgb)
    requires s + 3 <= dst.Length
    modifies dst
    ensures dst[..] == AddedAt(old(dst[..]), s, c)
  {
    dst[s] := dst[s] + c.r as nat;
    dst[s + 1] := dst[s + 1] + c.g as nat;
    dst[s + 2] := dst[s + 2] + c.b as nat;
  }

  /** The body of the accumulator's loop up to the additions: neighbour
      pointers, the three averages and the classification of the site. */
  method DemosaicSite(img: seq<byte>, k: nat, w: nat, h: nat, x: nat, y: nat, palette: Palette)
    returns (c: Rgb)
    requires 2 <= w && 2 <= h && x < w && y < h && w * h <= |img| && k == Index(w, x, y)
    ensures c == PixelRgb(img, w, h, x, y, palette)
  {
    IndexInFrame(w, h, x, y);
    var p := NeighbourPointers(k, w, h, x, y);
    var hn := Mean2(img[p[3]], img[p[4]]);
    var vn := Mean2(img[p[1]], img[p[6]]);
    var di := Mean4(img[p[0]], img[p[2]], img[p[5]], img[p[7]]);
    c := Classify(palette, x, y, img[k], hn, vn, di);
  }

  /** One turn of the accumulator's loop: the pixel of site (x, y) added
      to its three slots, which extends the finished prefix of the buffer
      by those slots. */
  method AddSite(dst: array<nat>, img: seq<byte>, k: nat, w: nat, h: nat, x: nat, y: nat,
                 palette: Palette, ghost acc0: seq<nat>, ghost frame: seq<Rgb>)
    requires 2 <= w && 2 <= h && x < w && y < h && w * h <= |img| && k == Index(w, x, y)
    requires frame == Demosaic(img, w, h, palette) && 3 * (w * h) <= dst.Length
    requires AddedThrough(acc0, dst[..], frame, 3 * k)
    modifies dst
    ensures AddedThrough(acc0, dst[..], frame, 3 * k + 3)
  {
    var c := DemosaicSite(img, k, w, h, x, y, palette);
    DemosaicAt(img, w, h, palette, x, y);
    ghost var before := dst[..];
    AddPixel(dst, 3 * k, c);
    AddedThroughStep(acc0, before, frame, k);
  }

  /** The row counter stays below `h` while the sample offset is inside
      the frame. */
  lemma CounterInFrame(w: nat, h: nat, x: nat, y: nat)
    requires x < w && Index(w, x, y) < w * h
    ensures y < h
  {
    IndexCoordinates(w, x, y);
    OffsetInFrame(w, h, Index(w, x, y));
  }

  /** fswc_add_image_bayer: fails with -1, writing nothing, when fewer than
      w*h samples are supplied; otherwise adds every pixel of the frame into
      `dst` and returns 0. */
  method AddImageBayer(dst: array<nat>, img: seq<byte>, length: nat, w: nat, h: nat, palette: Palette)
    returns (status: int)
    requires length <= |img|
    requires w * h < UINT32_LIMIT
    requires length < w * h || (Demosaicable(w, h) && 3 * (w * h) <= dst.Length)
    modifies dst
    ensures status == (if length < w * h then -1 else 0)
    ensures status == -1 ==> dst[..] == old(dst[..])
    ensures status == 0 ==> dst[..] == Accumulate(old(dst[..]), img, w, h, palette)
  {
    var i: nat := w * h;
    if length < i {
      return -1;
    }
    ghost var frame := Demosaic(img, w, h, palette);
    var x, y, k := 0, 0, 0;
    while i > 0
      invariant k + i == w * h
      invariant k == Index(w, x, y)
      invariant x < w || w == 0
      invariant AddedThrough(old(dst[..]), dst[..], frame, 3 * k)
    {
      i := i - 1;
      CounterInFrame(w, h, x, y);
      AddSite(dst, img, k, w, h, x, y, palette, old(dst[..]), frame);
      x := x + 1;
      if x == w {
        x := 0;
        y := y + 1;
      }
      k := k + 1;
    }
    AddedThroughAll(old(dst[..]), dst[..], frame);
    return 0;
  }

  // Properties of the accumulator.

  /** Mirroring keeps the parity of a coordinate, so a mirrored neighbour
      carries the colour of the site it stands in for. */
  lemma ReflectParity(c: int, n: nat)
    requires 2 <= n && -1 <= c <= n
    ensures Reflect(c, n) % 2 == c % 2
  {
    assert (c + 2) % 2 == c % 2 && (c - 2) % 2 == c % 2;
  }

  /** Neighbour `j` of (x, y), after mirroring, is covered by the same
      colour filter as the site one step away in direction `j`. */
  lemma NeighbourColour(pal: Palette, w: nat, h: nat, x: nat, y: nat, j: nat)
    requires 2 <= w && 2 <= h && x < w && y < h && j < 8
    ensures TileColour(pal, Reflect(x + DX(j), w), Reflect(y + DY(j), h))
            == TileColour(pal, x + DX(j), y + DY(j))
  {
    ReflectParity(x + DX(j), w);
    ReflectParity(y + DY(j), h);
  }

  /** The classification agrees with the tile of every palette: the
      sample itself goes to the channel of its own filter colour; at a
      green site the colour of the horizontal neighbours gets their average
      and the colour of the vertical neighbours gets theirs; at a red or
      blue site green is the average of the two cross averages and the
      opposite colour, found on the diagonals, gets the diagonal average. */
  lemma ClassifyFollowsTile(pal: Palette, x: nat, y: nat, own: byte, hn: byte, vn: byte, di: byte)
    ensures var c, t := Classify(pal, x, y, own, hn, vn, di), TileColour(pal, x, y);
            ColourChannel(c, t) == own &&
            (t == Green ==>
               ColourChannel(c, TileColour(pal, x + 1, y)) == hn &&
               ColourChannel(c, TileColour(pal, x, y + 1)) == vn) &&
            (t != Green ==>
               c.g == Mean2(vn, hn) &&
               ColourChannel(c, Opposite(t)) == di &&
               TileColour(pal, x + 1, y + 1) == Opposite(t))
  {
    TileIsBayer(pal, x, y);
    assert (x + 1) % 2 == 1 - x % 2 && (y + 1) % 2 == 1 - y % 2;
    assert (x + y) % 2 == (if x % 2 == y % 2 then 0 else 1);
  }

  /** The generic Bayer tag is SBGGR8; the tags the code does not name
      behave as SGBRG8; SRGGB8 and SGRBG8 are SBGGR8 and SGBRG8 with red
      and blue exchanged. */
  lemma PaletteRelations(x: nat, y: nat, own: byte, hn: byte, vn: byte, di: byte)
    ensures Classify(Bayer, x, y, own, hn, vn, di) == Classify(SBGGR8, x, y, own, hn, vn, di)
    ensures Classify(Other, x, y, own, hn, vn, di) == Classify(SGBRG8, x, y, own, hn, vn, di)
    ensures Classify(SRGGB8, x, y, own, hn, vn, di) == SwapRedBlue(Classify(SBGGR8, x, y, own, hn, vn, di))
    ensures Classify(SGRBG8, x, y, own, hn, vn, di) == SwapRedBlue(Classify(SGBRG8, x, y, own, hn, vn, di))
  {
  }

  /** Around site (x, y), the four diagonal neighbours all read (cx, cy),
      the two vertical ones read (x, cy) and the two horizontal ones read
      (cx, y). */
  predicate CollapsesOnto(w: nat, h: nat, x: nat, y: nat, cx: nat, cy: nat)
    requires 2 <= w && 2 <= h && x < w && y < h
  {
    Neighbour(w, h, x, y, 0) == Neighbour(w, h, x, y, 2) == Neighbour(w, h, x, y, 5)
      == Neighbour(w, h, x, y, 7) == Index(w, cx, cy) &&
    Neighbour(w, h, x, y, 1) == Neighbour(w, h, x, y, 6) == Index(w, x, cy) &&
    Neighbour(w, h, x, y, 3) == Neighbour(w, h, x, y, 4) == Index(w, cx, y)
  }

  /** At each corner every pointer collapses onto the samples one step
      inwards: the four diagonals all read the inner diagonal sample (at
      the top-left, `img + w + 1`), both vertical neighbours read the
      sample one row inwards and both horizontal ones the sample one
      column inwards. */
  lemma CornerNeighbours(w: nat, h: nat)
    requires 2 <= w && 2 <= h
    ensures CollapsesOnto(w, h, 0, 0, 1, 1) && Index(w, 1, 1) == w + 1
    ensures CollapsesOnto(w, h, w - 1, 0, w - 2, 1)
    ensures CollapsesOnto(w, h, 0, h - 1, 1, h - 2)
    ensures CollapsesOnto(w, h, w - 1, h - 1, w - 2, h - 2)
  {
    assert RowStart(w, 1) == w;
  }

  /** A frame whose samples are all `v` demosaics to grey `v` everywhere:
      every average of equal samples is that sample. */
  lemma UniformPixelIsGrey(img: seq<byte>, w: nat, h: nat, x: nat, y: nat, pal: Palette, v: byte)
    requires 2 <= w && 2 <= h && x < w && y < h && w * h <= |img|
    requires forall i :: 0 <= i < w * h ==> img[i] == v
    ensures PixelRgb(img, w, h, x, y, pal) == Rgb(v, v, v)
  {
    IndexInFrame(w, h, x, y);
    assert forall j :: 0 <= j < 8 ==> NeighbourSample(img, w, h, x, y, j) == v;
  }

  lemma UniformFrameIsGrey(img: seq<byte>, w: nat, h: nat, pal: Palette, v: byte)
    requires w * h <= |img| && Demosaicable(w, h)
    requires forall i :: 0 <= i < w * h ==> img[i] == v
    ensures forall i :: 0 <= i < w * h ==> Demosaic(img, w, h, pal)[i] == Rgb(v, v, v)
  {
    forall i | 0 <= i < w * h
      ensures Demosaic(img, w, h, pal)[i] == Rgb(v, v, v)
    {
      OffsetInFrame(w, h, i);
      DemosaicAt(img, w, h, pal, i % w, i / w);
      UniformPixelIsGrey(img, w, h, i % w, i / w, pal, v);
    }
  }

  /** A black frame adds nothing: the buffer is left as it was. */
  lemma BlackFrameAddsNothing(acc: seq<nat>, img: seq<byte>, w: nat, h: nat, pal: Palette)
    requires w * h <= |img| && Demosaicable(w, h)
    requires forall i :: 0 <= i < w * h ==> img[i] == 0
    ensures Accumulate(acc, img, w, h, pal) == acc
  {
    UniformFrameIsGrey(img, w, h, pal, 0);
  }

  /** Slot by slot, one call adds channel `c` of pixel `i` to slot
      3*i + c and leaves every slot past the frame alone. */
  lemma AddFrameSlots(acc: seq<nat>, f: seq<Rgb>, i: nat, c: nat)
    requires 3 * |f| <= |acc| && i < |f| && c < 3
    ensures |AddFrame(acc, f)| == |acc|
    ensures AddFrame(acc, f)[3 * i + c] == acc[3 * i + c] + Channel(f[i], c) as nat
    ensures forall j :: 3 * |f| <= j < |acc| ==> AddFrame(acc, f)[j] == acc[j]
  {
    assert (3 * i + c) / 3 == i && (3 * i + c) % 3 == c;
  }

  /** Accumulation is a sum: the order in which two frames are added
      does not matter. */
  lemma AddFrameCommutes(acc: seq<nat>, f: seq<Rgb>, g: seq<Rgb>)
    ensures AddFrame(AddFrame(acc, f), g) == AddFrame(AddFrame(acc, g), f)
  {
  }

  /** Adding the same frame twice to a cleared buffer doubles every slot
      of adding it once. */
  lemma AddFrameTwice(n: nat, f: seq<Rgb>)
    ensures var once := AddFrame(seq(n, _ => 0), f);
            AddFrame(once, f) == seq(n, j requires 0 <= j < n => 2 * once[j])
  {
  }

  /** A frame tagged with the generic Bayer palette accumulates exactly
      as one tagged SBGGR8. */
  lemma AccumulateBayerIsSBGGR8(acc: seq<nat>, img: seq<byte>, w: nat, h: nat)
    requires w * h <= |img| && Demosaicable(w, h)
    ensures Accumulate(acc, img, w, h, Bayer) == Accumulate(acc, img, w, h, SBGGR8)
  {
    forall i | 0 <= i < w * h
      ensures Demosaic(img, w, h, Bayer)[i] == Demosaic(img, w, h, SBGGR8)[i]
    {
      OffsetInFrame(w, h, i);
      DemosaicAt(img, w, h, Bayer, i % w, i / w);
      DemosaicAt(img, w, h, SBGGR8, i % w, i / w);
    }
    assert Demosaic(img, w, h, Bayer) == Demosaic(img, w, h, SBGGR8);
  }

  /** The output of SRGGB8 is that of SBGGR8 with red and blue exchanged,
      pixel by pixel, and the output of SGRBG8 is that of SGBRG8 with red
      and blue exchanged. */
  lemma DemosaicExchanged(img: seq<byte>, w: nat, h: nat)
    requires w * h <= |img| && Demosaicable(w, h)
    ensures forall i :: 0 <= i < w * h ==>
              Demosaic(img, w, h, SRGGB8)[i] == SwapRedBlue(Demosaic(img, w, h, SBGGR8)[i])
    ensures forall i :: 0 <= i < w * h ==>
              Demosaic(img, w, h, SGRBG8)[i] == SwapRedBlue(Demosaic(img, w, h, SGBRG8)[i])
  {
    forall i | 0 <= i < w * h
      ensures Demosaic(img, w, h, SRGGB8)[i] == SwapRedBlue(Demosaic(img, w, h, SBGGR8)[i])
      ensures Demosaic(img, w, h, SGRBG8)[i] == SwapRedBlue(Demosaic(img, w, h, SGBRG8)[i])
    {
      OffsetInFrame(w, h, i);
      var x, y := i % w, i / w;
      DemosaicAt(img, w, h, SRGGB8, x, y);
      DemosaicAt(img, w, h, SBGGR8, x, y);
      DemosaicAt(img, w, h, SGRBG8, x, y);
      DemosaicAt(img, w, h, SGBRG8, x, y);
    }
  }
}
