/** Types shared by the two demosaicing routines of dec_bayer.c, and the
    Bayer tile classifier: which colour filter covers the sensor site
    (x, y) under each tile order. Both routines classify sites by the
    parity of their coordinates; the table below is the reference that
    their parity tests are proved against. */
module BayerTile {

  /** An 8-bit raw sample (`uint8_t`), also the type of one output channel. */
  newtype byte = b: int | 0 <= b < 0x100

  /** A 16-bit word (`uint16_t`): the container of a 10-bit raw sample and
      the element type of the interpolator's output buffer. */
  newtype u16 = v: int | 0 <= v < 0x1_0000

  /** The first value that no longer fits in a `uint32_t`/`unsigned int`. */
  const UINT32_LIMIT: nat := 0x1_0000_0000

  datatype Colour = Red | Green | Blue

  /** Red and blue exchanged; green stays. */
  function Opposite(c: Colour): (o: Colour)
    ensures (o == Green) == (c == Green)
    ensures c != Green ==> o != c
  {
    match c
    case Red => Blue
    case Green => Green
    case Blue => Red
  }

  /** One demosaiced pixel: a red, a green and a blue byte. */
  datatype Rgb = Rgb(r: byte, g: byte, b: byte)

  /** The value of channel `k` (0 red, 1 green, 2 blue): the order of the
      three slots a pixel occupies in the output buffer. */
  function Channel(c: Rgb, k: nat): byte
    requires k < 3
  {
    if k == 0 then c.r else if k == 1 then c.g else c.b
  }

  /** The channel that carries colour `col`. */
  function ColourChannel(c: Rgb, col: Colour): byte
  {
    match col
    case Red => c.r
    case Green => c.g
    case Blue => c.b
  }

  /** The palette tag handed to the 8-bit accumulator. The four named
      orders and the generic Bayer tag are the ones the code tests for;
      `Other` stands for every other tag value and takes the code's else
      branches. */
  datatype Palette = SBGGR8 | SGBRG8 | SGRBG8 | SRGGB8 | Bayer | Other

  /** The 2x2 tile of each order, rows then columns: SBGGR8 is
      B G / G R, SGBRG8 is G B / R G, SGRBG8 is G R / B G and SRGGB8 is
      R G / G B. The generic Bayer tag is SBGGR8, and every other tag
      behaves as SGBRG8. */
  function Tile(pal: Palette): seq<seq<Colour>>
  {
    match pal
    case SBGGR8 | Bayer => [[Blue, Green], [Green, Red]]
    case SGBRG8 | Other => [[Green, Blue], [Red, Green]]
    case SGRBG8 => [[Green, Red], [Blue, Green]]
    case SRGGB8 => [[Red, Green], [Green, Blue]]
  }

  /** The colour filter over site (x, y): the tile repeats every two
      sites in each direction (Euclidean parity, so it also extends to
      the coordinate -1 just outside the frame). */
  function TileColour(pal: Palette, x: int, y: int): Colour
  {
    Tile(pal)[y % 2][x % 2]
  }

  /** Every tile is a Bayer tile: green sites form a checkerboard, and
      the two non-green sites of a tile carry opposite colours. */
  lemma TileIsBayer(pal: Palette, x: int, y: int)
    ensures TileColour(pal, x, y) == Green <==> TileColour(pal, x + 1, y) != Green
    ensures TileColour(pal, x, y) == Green <==> TileColour(pal, x, y + 1) != Green
    ensures TileColour(pal, x, y) != Green ==>
              TileColour(pal, x + 1, y + 1) == Opposite(TileColour(pal, x, y))
    ensures TileColour(pal, x, y) == TileColour(pal, x + 2, y) == TileColour(pal, x, y + 2)
  {
    assert (x + 1) % 2 == 1 - x % 2 && (y + 1) % 2 == 1 - y % 2;
    assert (x + 2) % 2 == x % 2 && (y + 2) % 2 == y % 2;
  }

  /** Offset of the first sample of row `y` in a row-major buffer of rows
      `w` wide: `y * w`, built one row at a time so that stepping between
      neighbouring rows stays linear arithmetic. */
  function RowStart(w: nat, y: nat): nat
  {
    if y == 0 then 0 else RowStart(w, y - 1) + w
  }

  /** Offset of site (x, y) in a row-major buffer of rows `w` wide. */
  function Index(w: nat, x: nat, y: nat): nat
  {
    RowStart(w, y) + x
  }

  /** The row start is the product the C code computes. */
  lemma {:induction false} RowStartIsProduct(w: nat, y: nat)
    ensures RowStart(w, y) == y * w
  {
    if y > 0 {
      RowStartIsProduct(w, y - 1);
      assert (y - 1) * w + w == y * w;
    }
  }

  /** The rows of a frame laid end to end: its row-major buffer. */
  function Flatten<T>(rows: seq<seq<T>>): seq<T>
  {
    if rows == [] then [] else Flatten(rows[..|rows| - 1]) + rows[|rows| - 1]
  }

  /** Every row is `w` items long. */
  predicate Rectangular<T>(rows: seq<seq<T>>, w: nat)
  {
    forall y :: 0 <= y < |rows| ==> |rows[y]| == w
  }

  /** `n` rows of width `w` flatten to `n*w` items, and item x of row y
      lands at the row-major offset `Index(w, x, y)`. */
  lemma {:induction false} FlattenAt<T>(rows: seq<seq<T>>, w: nat, x: nat, y: nat)
    requires Rectangular(rows, w)
    ensures |Flatten(rows)| == RowStart(w, |rows|)
    ensures x < w && y < |rows| ==> Index(w, x, y) < |Flatten(rows)| && Flatten(rows)[Index(w, x, y)] == rows[y][x]
  {
    if rows != [] {
      var prev, row := rows[..|rows| - 1], rows[|rows| - 1];
      assert Flatten(rows) == Flatten(prev) + row;
      FlattenAt(prev, w, x, y);
      if x < w && y < |rows| {
        var i := Index(w, x, y);
        if y < |prev| {
          assert rows[y] == prev[y];
          assert (Flatten(prev) + row)[i] == Flatten(prev)[i];
        } else {
          assert (Flatten(prev) + row)[i] == row[x];
        }
      }
    }
  }

  /** A site inside a `w` by `h` frame has its sample inside the first
      `w*h` entries of the buffer. */
  lemma IndexInFrame(w: nat, h: nat, x: nat, y: nat)
    requires x < w && y < h
    ensures Index(w, x, y) < w * h
  {
    RowStartIsProduct(w, y);
    RowStartIsProduct(w, y + 1);
    MulMonotone(y + 1, h, w);
  }

  lemma {:induction false} MulMonotone(a: nat, b: nat, c: nat)
    requires a <= b
    ensures a * c <= b * c
  {
    if a < b {
      MulMonotone(a, b - 1, c);
      assert (b - 1) * c + c == b * c;
    }
  }

  /** The row and column of a buffer offset are recovered by division
      and remainder by the row width. */
  lemma IndexCoordinates(w: nat, x: nat, y: nat)
    requires x < w
    ensures Index(w, x, y) / w == y && Index(w, x, y) % w == x
  {
    RowStartIsProduct(w, y);
    var i := Index(w, x, y);
    var q, m := i / w, i % w;
    assert i == q * w + m && 0 <= m < w;
    if q < y {
      MulMonotone(q + 1, y, w);
      assert false;
    } else if q > y {
      MulMonotone(y + 1, q, w);
      assert false;
    }
  }

  /** The inverse direction: an offset below `w*h` names the site
      (i % w, i / w) of the frame, and no other site. */
  lemma OffsetInFrame(w: nat, h: nat, i: nat)
    requires i < w * h
    ensures w > 0 && i % w < w && i / w < h
    ensures Index(w, i % w, i / w) == i
    ensures forall x: nat, y: nat :: x < w && Index(w, x, y) == i ==> x == i % w && y == i / w
  {
    forall x: nat, y: nat | x < w && Index(w, x, y) == i
      ensures x == i % w && y == i / w
    {
      IndexCoordinates(w, x, y);
    }
    assert w > 0;
    RowStartIsProduct(w, i / w);
    if i / w >= h {
      MulMonotone(h, i / w, w);
      assert false;
    }
  }
}
