/** Texture upload of the GX driver (gfx/gx/gx_gfx.c, `convert_texture16`,
    `convert_texture16_conv`, `convert_texture32`): a row-major frame with a
    byte pitch is cropped to a multiple of 4 in each direction and rewritten
    in the GX 4x4-tile order. At 16 bpp the copy moves 32-bit words (two
    pixels); at 32 bpp it moves 16-bit halves and splits every tile into an
    alpha/red block followed by a green/blue block. */
module GxTexture {
  import opened Machine

  lemma MulMono(a: int, b: int, c: nat)
    requires a <= b
    ensures a * c <= b * c
  {
    assert b * c - a * c == (b - a) * c;
  }

  /** Quotient and remainder of a division by a non-constant divisor. */
  function DivMod(a: nat, b: nat): (r: (nat, nat))
    requires b > 0
    ensures a == r.0 * b + r.1 && r.1 < b
  {
    (a / b, a % b)
  }

  /** Quotient and remainder are determined by any decomposition `q * b + r`. */
  lemma DivModOf(a: nat, b: nat, q: nat, r: nat)
    requires 0 < b && r < b && a == q * b + r
    ensures DivMod(a, b) == (q, r)
  {
    var q0 := a / b;
    if q0 < q {
      MulMono(q0 + 1, q, b);
    } else if q < q0 {
      MulMono(q + 1, q0, b);
    }
  }

  /** A row-major index below `rows` lines of `width` lies on one of them. */
  lemma RowBelow(j: nat, y: nat, c: nat, width: nat, rows: nat)
    requires j == y * width + c && j < rows * width
    ensures y < rows
  {
    if y >= rows {
      MulMono(rows, y, width);
    }
  }

  /** Element `w` of tile (`ty`, `tx`) lies inside a texture of `rows4` tile
      rows of `tiles` tiles of `size` elements. */
  lemma TileBound(ty: nat, tx: nat, w: nat, rows4: nat, tiles: nat, size: nat)
    requires ty < rows4 && tx < tiles && w < size
    ensures (ty * tiles + tx) * size + w < rows4 * tiles * size
  {
    MulMono(ty + 1, rows4, tiles);
    assert (ty + 1) * tiles == ty * tiles + tiles;
    var t := ty * tiles + tx;
    MulMono(t + 1, rows4 * tiles, size);
    assert (t + 1) * size == t * size + size;
  }

  /** Line `y` starts `4 * (y / 4) * stride + (y % 4) * stride` words in. */
  lemma LineStart(y: nat, stride: nat)
    ensures y * stride == 4 * (y / 4) * stride + (y % 4) * stride
  {
    var q, r := y / 4, y % 4;
    assert y == 4 * q + r;
    assert (4 * q + r) * stride == 4 * q * stride + r * stride;
  }

  // ---------------------------------------------------------------- 16 bpp

  /** The cropped frame is `4 * rows4` lines of `4 * tiles` pixels; at 16 bpp a
      line is `2 * tiles` words and the source stride is `pitch / 4` words. The
      source must hold every cropped line. */
  predicate Fits16(srcLen: nat, tiles: nat, rows4: nat, stride: nat)
  {
    2 * tiles <= stride && (rows4 == 0 || (4 * rows4 - 1) * stride + 2 * tiles <= srcLen)
  }

  /** Source word of destination word `k`: tile `k / 8` in tile-row order,
      within the tile two words per line, four lines. */
  function Src16(k: nat, tiles: nat, stride: nat): nat
    requires tiles > 0
  {
    var (ty, tx) := DivMod(k / 8, tiles);
    var w := k % 8;
    4 * ty * stride + (w / 2) * stride + 2 * tx + w % 2
  }

  /** Where word `w` of tile (`ty`, `tx`) comes from. */
  lemma Src16Block(ty: nat, tx: nat, w: nat, tiles: nat, stride: nat)
    requires tx < tiles && w < 8
    ensures Src16((ty * tiles + tx) * 8 + w, tiles, stride) == 4 * ty * stride + (w / 2) * stride + 2 * tx + w % 2
  {
    var tile := ty * tiles + tx;
    Div8(tile, w);
    DivModOf(tile, tiles, ty, tx);
  }

  lemma Div8(m: nat, w: nat)
    requires w < 8
    ensures (m * 8 + w) / 8 == m && (m * 8 + w) % 8 == w
  {
  }

  lemma Src16InBounds(k: nat, srcLen: nat, tiles: nat, rows4: nat, stride: nat)
    requires tiles > 0 && Fits16(srcLen, tiles, rows4, stride)
    requires k < rows4 * tiles * 8
    ensures Src16(k, tiles, stride) < srcLen
  {
    var tile := k / 8;
    var (ty, tx) := DivMod(tile, tiles);
    assert tile < rows4 * tiles;
    if ty >= rows4 {
      MulMono(rows4, ty, tiles);
    }
    var r := (k % 8) / 2;
    assert 4 * ty + r <= 4 * rows4 - 1;
    MulMono(4 * ty + r, 4 * rows4 - 1, stride);
    assert (4 * ty + r) * stride == 4 * ty * stride + r * stride;
  }

  /** `convert_texture16`: the tiled copy of the cropped frame. */
  function Tile16(src: seq<bv32>, tiles: nat, rows4: nat, stride: nat): (dst: seq<bv32>)
    requires tiles > 0 && Fits16(|src|, tiles, rows4, stride)
    ensures |dst| == rows4 * tiles * 8
  {
    seq(rows4 * tiles * 8, k requires 0 <= k < rows4 * tiles * 8 =>
      Src16InBounds(k, |src|, tiles, rows4, stride);
      src[Src16(k, tiles, stride)])
  }

  /** The cropped frame in row-major order, `2 * tiles` words per line. */
  function Crop16(src: seq<bv32>, tiles: nat, rows4: nat, stride: nat): (img: seq<bv32>)
    requires tiles > 0 && Fits16(|src|, tiles, rows4, stride)
    ensures |img| == 4 * rows4 * (2 * tiles)
  {
    seq(4 * rows4 * (2 * tiles), j requires 0 <= j < 4 * rows4 * (2 * tiles) =>
      Crop16InBounds(j, |src|, tiles, rows4, stride);
      var (y, c) := DivMod(j, 2 * tiles);
      src[y * stride + c])
  }

  lemma Crop16InBounds(j: nat, srcLen: nat, tiles: nat, rows4: nat, stride: nat)
    requires tiles > 0 && Fits16(srcLen, tiles, rows4, stride)
    requires j < 4 * rows4 * (2 * tiles)
    ensures DivMod(j, 2 * tiles).0 * stride + DivMod(j, 2 * tiles).1 < srcLen
  {
    var (y, c) := DivMod(j, 2 * tiles);
    if y >= 4 * rows4 {
      MulMono(4 * rows4, y, 2 * tiles);
    }
    MulMono(y, 4 * rows4 - 1, stride);
  }

  /** Destination word of row-major word `j` of the cropped frame. */
  function Dst16(j: nat, tiles: nat): nat
    requires tiles > 0
  {
    var (y, c) := DivMod(j, 2 * tiles);
    ((y / 4) * tiles + c / 2) * 8 + (y % 4) * 2 + c % 2
  }

  lemma Dst16Source(j: nat, tiles: nat, stride: nat)
    requires tiles > 0
    ensures Src16(Dst16(j, tiles), tiles, stride) == DivMod(j, 2 * tiles).0 * stride + DivMod(j, 2 * tiles).1
  {
    var (y, c) := DivMod(j, 2 * tiles);
    Src16Block(y / 4, c / 2, (y % 4) * 2 + c % 2, tiles, stride);
    LineStart(y, stride);
  }

  lemma Dst16InBounds(j: nat, tiles: nat, rows4: nat)
    requires tiles > 0 && j < 4 * rows4 * (2 * tiles)
    ensures Dst16(j, tiles) < rows4 * tiles * 8
  {
    var (y, c) := DivMod(j, 2 * tiles);
    RowBelow(j, y, c, 2 * tiles, 4 * rows4);
    TileBound(y / 4, c / 2, (y % 4) * 2 + c % 2, rows4, tiles, 8);
  }

  /** Reading a tiled texture back in row-major order. */
  function Untile16(dst: seq<bv32>, tiles: nat, rows4: nat): (img: seq<bv32>)
    requires tiles > 0 && |dst| == rows4 * tiles * 8
    ensures |img| == 4 * rows4 * (2 * tiles)
  {
    seq(4 * rows4 * (2 * tiles), j requires 0 <= j < 4 * rows4 * (2 * tiles) =>
      Dst16InBounds(j, tiles, rows4);
      dst[Dst16(j, tiles)])
  }

  /** Tiling loses nothing: untiling the texture gives back exactly the
      cropped frame, word for word. */
  lemma Tile16RoundTrip(src: seq<bv32>, tiles: nat, rows4: nat, stride: nat)
    requires tiles > 0 && Fits16(|src|, tiles, rows4, stride)
    ensures Untile16(Tile16(src, tiles, rows4, stride), tiles, rows4) == Crop16(src, tiles, rows4, stride)
  {
    var t := Tile16(src, tiles, rows4, stride);
    var u := Untile16(t, tiles, rows4);
    var c := Crop16(src, tiles, rows4, stride);
    forall j | 0 <= j < |c|
      ensures u[j] == c[j]
    {
      Dst16InBounds(j, tiles, rows4);
      var k := Dst16(j, tiles);
      assert u[j] == t[k];
      Dst16Source(j, tiles, stride);
    }
  }

  /** Source positions of the eight words of tile (`ty`, `tx`): line
      `w / 2` of the tile, word `w % 2` of that line. */
  lemma Block16Indices(tiles: nat, stride: nat, ty: nat, tx: nat)
    requires tx < tiles
    ensures forall k :: (ty * tiles + tx) * 8 <= k < (ty * tiles + tx) * 8 + 8 ==>
              Src16(k, tiles, stride) ==
                4 * ty * stride + 2 * tx + ((k - (ty * tiles + tx) * 8) / 2) * stride + (k - (ty * tiles + tx) * 8) % 2
  {
    var start := (ty * tiles + tx) * 8;
    forall k | start <= k < start + 8
      ensures Src16(k, tiles, stride) == 4 * ty * stride + 2 * tx + ((k - start) / 2) * stride + (k - start) % 2
    {
      Src16Block(ty, tx, k - start, tiles, stride);
    }
  }

  /** Tile (`ty`, `tx`) lies inside the texture. */
  lemma TileInRange(ty: nat, tx: nat, tiles: nat, rows4: nat)
    requires ty < rows4 && tx < tiles
    ensures (ty * tiles + tx) * 8 + 8 <= rows4 * tiles * 8
  {
    MulMono(ty, rows4 - 1, tiles);
    assert (rows4 - 1) * tiles + tiles == rows4 * tiles;
  }

  /** The eight destination words starting at `start`, which the driver
      reads as two words from each of four lines `stride` words apart
      (`Block16Indices`). */
  function Block16(src: seq<bv32>, tiles: nat, stride: nat, start: nat): (b: seq<bv32>)
    requires tiles > 0
    requires forall k :: start <= k < start + 8 ==> Src16(k, tiles, stride) < |src|
    ensures |b| == 8
    ensures forall w :: 0 <= w < 8 ==> b[w] == src[Src16(start + w, tiles, stride)]
  {
    seq(8, w requires 0 <= w < 8 => src[Src16(start + w, tiles, stride)])
  }

  /** Every destination word has its source inside the frame. */
  predicate Covers16(srcLen: nat, tiles: nat, rows4: nat, stride: nat)
    requires tiles > 0
  {
    forall k :: 0 <= k < rows4 * tiles * 8 ==> Src16(k, tiles, stride) < srcLen
  }

  lemma FitsCovers16(srcLen: nat, tiles: nat, rows4: nat, stride: nat)
    requires tiles > 0 && Fits16(srcLen, tiles, rows4, stride)
    ensures Covers16(srcLen, tiles, rows4, stride)
  {
    forall k | 0 <= k < rows4 * tiles * 8
      ensures Src16(k, tiles, stride) < srcLen
    {
      Src16InBounds(k, srcLen, tiles, rows4, stride);
    }
  }

  /** `convert_texture16` as the driver runs it: tile by tile, four lines of
      two words each pushed through the write-gather pipe. */
  method ConvertTexture16(src: seq<bv32>, width: nat, height: nat, pitch: nat) returns (dst: seq<bv32>)
    requires Fits16(|src|, width / 4, height / 4, pitch / 4)
    ensures width < 4 ==> dst == []
    ensures width >= 4 ==> dst == Tile16(src, width / 4, height / 4, pitch / 4)
  {
    if width < 4 {
      return [];
    }
    FitsCovers16(|src|, width / 4, height / 4, pitch / 4);
    dst := TileLoop16(src, width / 4, height / 4, pitch / 4);
  }

  method TileLoop16(src: seq<bv32>, tiles: nat, rows4: nat, stride: nat) returns (dst: seq<bv32>)
    requires tiles > 0 && Covers16(|src|, tiles, rows4, stride)
    ensures |dst| == rows4 * tiles * 8
    ensures forall i :: 0 <= i < |dst| ==> dst[i] == src[Src16(i, tiles, stride)]
  {
    dst := [];
    var ty := 0;
    while ty < rows4
      invariant 0 <= ty <= rows4
      invariant |dst| == ty * tiles * 8 <= rows4 * tiles * 8
      invariant Gathered16(dst, src, tiles, stride)
    {
      dst := TileRow16(src, tiles, rows4, stride, ty, dst);
      assert (ty + 1) * tiles == ty * tiles + tiles;
      ty := ty + 1;
    }
  }

  /** Destination words gathered so far, each from its source word. */
  predicate Gathered16(dst: seq<bv32>, src: seq<bv32>, tiles: nat, stride: nat)
    requires tiles > 0
  {
    forall i :: 0 <= i < |dst| ==> Src16(i, tiles, stride) < |src| && dst[i] == src[Src16(i, tiles, stride)]
  }

  /** One row of tiles: the inner loop of `convert_texture16`. */
  method TileRow16(src: seq<bv32>, tiles: nat, rows4: nat, stride: nat, ty: nat, dst0: seq<bv32>)
    returns (dst: seq<bv32>)
    requires tiles > 0 && Covers16(|src|, tiles, rows4, stride) && ty < rows4
    requires |dst0| == ty * tiles * 8 && Gathered16(dst0, src, tiles, stride)
    ensures |dst| == (ty * tiles + tiles) * 8 && Gathered16(dst, src, tiles, stride)
  {
    dst := dst0;
    var tx := 0;
    while tx < tiles
      invariant 0 <= tx <= tiles
      invariant |dst| == (ty * tiles + tx) * 8
      invariant Gathered16(dst, src, tiles, stride)
    {
      TileInRange(ty, tx, tiles, rows4);
      AppendBlock16(dst, src, tiles, rows4, stride);
      dst := dst + Block16(src, tiles, stride, |dst|);
      tx := tx + 1;
    }
  }

  /** Appending the next block keeps every gathered word in place. */
  lemma AppendBlock16(prev: seq<bv32>, src: seq<bv32>, tiles: nat, rows4: nat, stride: nat)
    requires tiles > 0 && Covers16(|src|, tiles, rows4, stride)
    requires |prev| + 8 <= rows4 * tiles * 8 && Gathered16(prev, src, tiles, stride)
    ensures Gathered16(prev + Block16(src, tiles, stride, |prev|), src, tiles, stride)
  {
    var block := Block16(src, tiles, stride, |prev|);
    var d := prev + block;
    forall i | 0 <= i < |d|
      ensures Src16(i, tiles, stride) < |src| && d[i] == src[Src16(i, tiles, stride)]
    {
      if i < |prev| {
        assert d[i] == prev[i];
      } else {
        assert d[i] == block[i - |prev|];
      }
    }
  }

  // ------------------------------------------------------ 16 bpp converted

  /** `BLIT_LINE_16_CONV` on one pixel: RGB565 to the opaque form of RGB5A3
      (top bit set, then 5 bits each of red, green and blue). */
  function Rgb565ToRgb5a3(p: bv16): bv16
  {
    0x8000 | ((p & 0xFFC0) >> 1) | (p & 0x001F)
  }

  /** `BLIT_LINE_16_CONV` as written, on a word holding two pixels. */
  function ConvWord(x: bv32): (r: bv32)
    ensures r == ((Rgb565ToRgb5a3((x >> 16) as bv16) as bv32) << 16) | (Rgb565ToRgb5a3((x & 0xFFFF) as bv16) as bv32)
  {
    0x8000_8000 | ((x & 0xFFC0_FFC0) >> 1) | (x & 0x001F_001F)
  }

  function Red565(p: bv16): bv16 { (p >> 11) & 0x1F }
  function Green565(p: bv16): bv16 { (p >> 5) & 0x3F }
  function Blue565(p: bv16): bv16 { p & 0x1F }
  function Red555(p: bv16): bv16 { (p >> 10) & 0x1F }
  function Green555(p: bv16): bv16 { (p >> 5) & 0x1F }
  function Blue555(p: bv16): bv16 { p & 0x1F }

  /** The conversion marks the pixel opaque, keeps red and blue, and drops the
      lowest of the six green bits. */
  lemma Rgb5a3Channels(p: bv16)
    ensures Rgb565ToRgb5a3(p) & 0x8000 == 0x8000
    ensures Red555(Rgb565ToRgb5a3(p)) == Red565(p)
    ensures Green555(Rgb565ToRgb5a3(p)) == Green565(p) >> 1
    ensures Blue555(Rgb565ToRgb5a3(p)) == Blue565(p)
  {
  }

  /** `convert_texture16_conv`: the same tiling, each word converted. */
  function TileConv16(src: seq<bv32>, tiles: nat, rows4: nat, stride: nat): (dst: seq<bv32>)
    requires tiles > 0 && Fits16(|src|, tiles, rows4, stride)
    ensures |dst| == rows4 * tiles * 8
  {
    seq(rows4 * tiles * 8, k requires 0 <= k < rows4 * tiles * 8 =>
      Src16InBounds(k, |src|, tiles, rows4, stride);
      ConvWord(src[Src16(k, tiles, stride)]))
  }

  /** Untiling the converted texture gives the converted cropped frame. */
  lemma TileConv16RoundTrip(src: seq<bv32>, tiles: nat, rows4: nat, stride: nat)
    requires tiles > 0 && Fits16(|src|, tiles, rows4, stride)
    ensures var u := Untile16(TileConv16(src, tiles, rows4, stride), tiles, rows4);
            var c := Crop16(src, tiles, rows4, stride);
            |u| == |c| && forall j :: 0 <= j < |u| ==> u[j] == ConvWord(c[j])
  {
    var t := TileConv16(src, tiles, rows4, stride);
    var u := Untile16(t, tiles, rows4);
    var c := Crop16(src, tiles, rows4, stride);
    forall j | 0 <= j < |u|
      ensures u[j] == ConvWord(c[j])
    {
      Dst16InBounds(j, tiles, rows4);
      assert u[j] == t[Dst16(j, tiles)];
      Dst16Source(j, tiles, stride);
    }
  }

  // ---------------------------------------------------------------- 32 bpp

  /** At 32 bpp a cropped line is `8 * tiles` halfwords and the source stride
      is `pitch / 2` halfwords. */
  predicate Fits32(srcLen: nat, tiles: nat, rows4: nat, stride: nat)
  {
    8 * tiles <= stride && (rows4 == 0 || (4 * rows4 - 1) * stride + 8 * tiles <= srcLen)
  }

  /** Source halfword of destination halfword `k`: tile `k / 32`; in the tile,
      first the 16 alpha/red halves, then the 16 green/blue halves, each block
      four lines of four pixels. */
  function Src32(k: nat, tiles: nat, stride: nat): nat
    requires tiles > 0
  {
    var (ty, tx) := DivMod(k / 32, tiles);
    var w := k % 32;
    4 * ty * stride + ((w % 16) / 4) * stride + 8 * tx + 2 * (w % 4) + w / 16
  }

  lemma Div32(m: nat, w: nat)
    requires w < 32
    ensures (m * 32 + w) / 32 == m && (m * 32 + w) % 32 == w
  {
  }

  lemma Src32Block(ty: nat, tx: nat, w: nat, tiles: nat, stride: nat)
    requires tx < tiles && w < 32
    ensures Src32((ty * tiles + tx) * 32 + w, tiles, stride) ==
              4 * ty * stride + ((w % 16) / 4) * stride + 8 * tx + 2 * (w % 4) + w / 16
  {
    var tile := ty * tiles + tx;
    Div32(tile, w);
    DivModOf(tile, tiles, ty, tx);
  }

  lemma Src32InBounds(k: nat, srcLen: nat, tiles: nat, rows4: nat, stride: nat)
    requires tiles > 0 && Fits32(srcLen, tiles, rows4, stride)
    requires k < rows4 * tiles * 32
    ensures Src32(k, tiles, stride) < srcLen
  {
    var tile := k / 32;
    var (ty, tx) := DivMod(tile, tiles);
    assert tile < rows4 * tiles;
    if ty >= rows4 {
      MulMono(rows4, ty, tiles);
    }
    var r := (k % 32 % 16) / 4;
    assert 4 * ty + r <= 4 * rows4 - 1;
    MulMono(4 * ty + r, 4 * rows4 - 1, stride);
    assert (4 * ty + r) * stride == 4 * ty * stride + r * stride;
  }

  /** `convert_texture32`: the tiled copy, with the alpha byte of every
      alpha/red half forced to 0xFF. */
  function Tile32(src: seq<bv16>, tiles: nat, rows4: nat, stride: nat): (dst: seq<bv16>)
    requires tiles > 0 && Fits32(|src|, tiles, rows4, stride)
    ensures |dst| == rows4 * tiles * 32
  {
    seq(rows4 * tiles * 32, k requires 0 <= k < rows4 * tiles * 32 =>
      Src32InBounds(k, |src|, tiles, rows4, stride);
      var h := src[Src32(k, tiles, stride)];
      if k % 32 < 16 then h | 0xFF00 else h)
  }

  /** Destination halfword of row-major halfword `j` of the cropped frame. */
  function Dst32(j: nat, tiles: nat): nat
    requires tiles > 0
  {
    var (y, c) := DivMod(j, 8 * tiles);
    var x := c / 2;
    ((y / 4) * tiles + x / 4) * 32 + (c % 2) * 16 + (y % 4) * 4 + x % 4
  }

  /** The position of a pixel half inside its 32-half tile: the half
      (`a`), the line (`b`) and the pixel (`d`). */
  lemma HalfParts(a: nat, b: nat, d: nat)
    requires a < 2 && b < 4 && d < 4
    ensures var w := a * 16 + b * 4 + d;
            w < 32 && w % 16 / 4 == b && w % 4 == d && w / 16 == a
  {
  }

  /** The source position of half `c` of line `y`, written through its tile
      coordinates. */
  lemma Src32OfPixel(y: nat, c: nat, tiles: nat, stride: nat)
    requires tiles > 0 && c < 8 * tiles
    ensures var x := c / 2;
            var w := (c % 2) * 16 + (y % 4) * 4 + x % 4;
            Src32(((y / 4) * tiles + x / 4) * 32 + w, tiles, stride) == y * stride + c
  {
    var x := c / 2;
    var w := (c % 2) * 16 + (y % 4) * 4 + x % 4;
    HalfParts(c % 2, y % 4, x % 4);
    Src32Block(y / 4, x / 4, w, tiles, stride);
    assert 8 * (x / 4) + 2 * (x % 4) + c % 2 == c;
    LineStart(y, stride);
  }

  lemma Dst32Source(j: nat, tiles: nat, stride: nat)
    requires tiles > 0
    ensures Src32(Dst32(j, tiles), tiles, stride) == DivMod(j, 8 * tiles).0 * stride + DivMod(j, 8 * tiles).1
    ensures Dst32(j, tiles) % 32 < 16 <==> DivMod(j, 8 * tiles).1 % 2 == 0
  {
    var (y, c) := DivMod(j, 8 * tiles);
    var x := c / 2;
    var w := (c % 2) * 16 + (y % 4) * 4 + x % 4;
    var t := (y / 4) * tiles + x / 4;
    assert Dst32(j, tiles) == t * 32 + w;
    HalfParts(c % 2, y % 4, x % 4);
    Div32(t, w);
    Src32OfPixel(y, c, tiles, stride);
  }

  lemma Dst32InBounds(j: nat, tiles: nat, rows4: nat)
    requires tiles > 0 && j < 4 * rows4 * (8 * tiles)
    ensures Dst32(j, tiles) < rows4 * tiles * 32
  {
    var (y, c) := DivMod(j, 8 * tiles);
    var x := c / 2;
    RowBelow(j, y, c, 8 * tiles, 4 * rows4);
    TileBound(y / 4, x / 4, (c % 2) * 16 + (y % 4) * 4 + x % 4, rows4, tiles, 32);
  }

  function Untile32(dst: seq<bv16>, tiles: nat, rows4: nat): (img: seq<bv16>)
    requires tiles > 0 && |dst| == rows4 * tiles * 32
    ensures |img| == 4 * rows4 * (8 * tiles)
  {
    seq(4 * rows4 * (8 * tiles), j requires 0 <= j < 4 * rows4 * (8 * tiles) =>
      Dst32InBounds(j, tiles, rows4);
      dst[Dst32(j, tiles)])
  }

  lemma Crop32InBounds(j: nat, srcLen: nat, tiles: nat, rows4: nat, stride: nat)
    requires tiles > 0 && Fits32(srcLen, tiles, rows4, stride)
    requires j < 4 * rows4 * (8 * tiles)
    ensures DivMod(j, 8 * tiles).0 * stride + DivMod(j, 8 * tiles).1 < srcLen
  {
    var (y, c) := DivMod(j, 8 * tiles);
    if y >= 4 * rows4 {
      MulMono(4 * rows4, y, 8 * tiles);
    }
    MulMono(y, 4 * rows4 - 1, stride);
  }

  /** The cropped 32 bpp frame in row-major halfwords, with the alpha byte of
      every pixel made opaque. */
  function CropOpaque32(src: seq<bv16>, tiles: nat, rows4: nat, stride: nat): (img: seq<bv16>)
    requires tiles > 0 && Fits32(|src|, tiles, rows4, stride)
    ensures |img| == 4 * rows4 * (8 * tiles)
  {
    seq(4 * rows4 * (8 * tiles), j requires 0 <= j < 4 * rows4 * (8 * tiles) =>
      Crop32InBounds(j, |src|, tiles, rows4, stride);
      var (y, c) := DivMod(j, 8 * tiles);
      var h := src[y * stride + c];
      if c % 2 == 0 then h | 0xFF00 else h)
  }

  /** Untiling the 32 bpp texture gives back the cropped frame, every pixel
      made opaque and nothing else changed. */
  lemma Tile32RoundTrip(src: seq<bv16>, tiles: nat, rows4: nat, stride: nat)
    requires tiles > 0 && Fits32(|src|, tiles, rows4, stride)
    ensures Untile32(Tile32(src, tiles, rows4, stride), tiles, rows4) == CropOpaque32(src, tiles, rows4, stride)
  {
    var t := Tile32(src, tiles, rows4, stride);
    var u := Untile32(t, tiles, rows4);
    var c := CropOpaque32(src, tiles, rows4, stride);
    forall j | 0 <= j < |c|
      ensures u[j] == c[j]
    {
      Dst32InBounds(j, tiles, rows4);
      assert u[j] == t[Dst32(j, tiles)];
      Dst32Source(j, tiles, stride);
    }
  }
}
