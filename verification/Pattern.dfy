/** The clients that draw still pictures: one rectangle, and the n-by-n pattern of coloured rectangles. */
module Pattern {
  import opened Machine
  import opened VideoMemory
  import opened Graphics
  import opened Colors

  const DIRECT_COLOR := 0x06

  /** The drawing of `video_test_rectangle`, on a screen whose mode is set: each pixel written reads back as
      the colour cut to the bits of a pixel. */
  method VideoTestRectangle(screen: Screen, x: uint16, y: uint16, width: uint16, height: uint16, color: uint32)
    returns (status: int)
    requires screen.Valid() && (screen.mode.bitsPerPixel <= 30 || screen.mode.bitsPerPixel == 32)
    modifies screen.videoMem
    ensures status == if Drawable(screen.mode, Box(x, y, width, height)) then 0 else 1
    ensures forall px, py | screen.mode.OnScreen(px, py) ::
      PixelAt(screen.mode, screen.videoMem[..], px, py) ==
      if Written(screen.mode, Box(x, y, width, height), px, py) then color % Pow2(screen.mode.bitsPerPixel)
      else PixelAt(screen.mode, old(screen.videoMem[..]), px, py)
  {
    hide NormColor, Written, Stored, Drawable;
    NormColorIsStored(screen.mode, color);
    var nColor := NormColor(screen.mode, color);
    RemainderBelow(color, Pow2(screen.mode.bitsPerPixel));
    status := screen.DrawRectangle(x, y, width, height, nColor);
  }

  function PatternColor(mode: ModeInfo, col: uint32, row: uint32, step: uint8, first: uint32, noRectangles: uint8)
    : uint32
    requires PatternColorsDefined(mode)
  {
    if mode.memoryModel == DIRECT_COLOR then
      DirectColorIsWord(mode, col, row, step, first);
      DirMode(mode, col, row, step, first)
    else
      IndexedColorIsWord(mode, col, row, step, first, noRectangles);
      IdxMode(mode, col, row, step, first, noRectangles)
  }

  /** The shifts `1 << size` and `1 << BitsPerPixel` are taken in `int`, the others in 32 bits. */
  predicate PatternColorsDefined(mode: ModeInfo) {
    if mode.memoryModel == DIRECT_COLOR then
      ShiftsDefined(mode.red) && ShiftsDefined(mode.green) && ShiftsDefined(mode.blue)
    else
      mode.bitsPerPixel <= 30
  }

  lemma {:induction false} OrBelow(a: nat, b: nat, s: nat)
    requires a < Pow2(s) && b < Pow2(s)
    ensures BitOr(a, b) < Pow2(s)
  {
    if s > 0 {
      OrBelow(a / 2, b / 2, s - 1);
    }
  }

  lemma DirectColorIsWord(mode: ModeInfo, col: uint32, row: uint32, step: uint8, first: uint32)
    ensures DirMode(mode, col, row, step, first) < 0x1_0000_0000
  {
    var r := U32(ShiftLeft(Component(mode.red, first, col, step), mode.red.position));
    var g := U32(ShiftLeft(Component(mode.green, first, row, step), mode.green.position));
    var b := U32(ShiftLeft(Component(mode.blue, first, U32(col + row), step), mode.blue.position));
    Pow2At32();
    OrBelow(r, g, 32);
    OrBelow(BitOr(r, g), b, 32);
  }

  lemma IndexedColorIsWord(mode: ModeInfo, col: uint32, row: uint32, step: uint8, first: uint32, noRectangles: uint8)
    requires mode.bitsPerPixel <= 30
    ensures 0 <= IdxMode(mode, col, row, step, first, noRectangles) < 0x1_0000_0000
  {
    RemainderBelow(U32(first + U32(U32(U32(row * noRectangles) + col) * step)), Pow2(mode.bitsPerPixel));
    Pow2Monotone(mode.bitsPerPixel, 32);
    Pow2At32();
  }

  /** Pixel `(x, y)` lies in one of the first `rows` rows of tiles, or in the first `cols` tiles of the next. */
  predicate Tiled(h: nat, v: nat, n: nat, rows: nat, cols: nat, x: nat, y: nat) {
    h > 0 && v > 0 && x / h < n && (y / v < rows || (y / v == rows && x / h < cols))
  }

  /** What a pixel of the tiled area holds: the colour of tile `(x / h, y / v)`. */
  function TileColor(mode: ModeInfo, n: uint8, first: uint32, step: uint8, h: nat, v: nat, x: nat, y: nat): nat
    requires PatternColorsDefined(mode) && mode.OnScreen(x, y) && h > 0 && v > 0
  {
    TileOf(x, h, x);
    TileOf(y, v, y);
    Stored(mode, PatternColor(mode, x / h, y / v, step, first, n))
  }

  /** The picture after the first `rows` rows of tiles and `cols` tiles of the next. */
  ghost predicate TilesShown(mode: ModeInfo, before: seq<uint8>, n: uint8, first: uint32, step: uint8,
                             h: nat, v: nat, rows: nat, cols: nat, after: seq<uint8>)
    requires PatternColorsDefined(mode) && IsFrame(mode, before)
  {
    && IsFrame(mode, after)
    && forall x, y {:trigger PixelAt(mode, after, x, y)} | mode.OnScreen(x, y) ::
         PixelAt(mode, after, x, y) ==
         if Tiled(h, v, n, rows, cols, x, y) then TileColor(mode, n, first, step, h, v, x, y)
         else PixelAt(mode, before, x, y)
  }

  /** The finished pattern, with tiles of `h` by `v` pixels. */
  ghost predicate PatternShown(mode: ModeInfo, before: seq<uint8>, n: uint8, first: uint32, step: uint8,
                               h: nat, v: nat, after: seq<uint8>)
    requires PatternColorsDefined(mode) && IsFrame(mode, before)
  {
    && IsFrame(mode, after)
    && forall x, y {:trigger PixelAt(mode, after, x, y)} | mode.OnScreen(x, y) ::
         PixelAt(mode, after, x, y) ==
         if h > 0 && v > 0 && x < n * h && y < n * v then TileColor(mode, n, first, step, h, v, x, y)
         else PixelAt(mode, before, x, y)
  }

  /** Width or height of a tile. */
  function TileSize(resolution: uint16, n: uint8): uint16
    requires n > 0
  {
    TileOf(resolution, n, 0);
    resolution / n
  }

  lemma TileOf(x: nat, h: nat, j: nat)
    requires h > 0
    ensures 0 <= x / h <= x
    ensures j * h <= x < j * h + h <==> x / h == j
    ensures x < j * h <==> x / h < j
  {
    var q := x / h;
    assert q * h <= x < q * h + h by { assert x == q * h + x % h; }
    NextMultiple(q, h);
    NextMultiple(j, h);
    Monotone(j, q, h);
    Monotone(q + 1, j, h);
    Monotone(j + 1, q, h);
    Monotone(1, h, q);
  }

  lemma NextMultiple(j: nat, h: nat)
    ensures (j + 1) * h == j * h + h
  {
  }

  lemma TileFits(resolution: uint16, n: uint8, j: nat)
    requires j < n
    ensures 0 <= j * TileSize(resolution, n) <= resolution - TileSize(resolution, n)
  {
    var h := TileSize(resolution, n);
    assert n * h <= resolution by { assert resolution == n * h + resolution % n; }
    Monotone(j + 1, n, h);
    NextMultiple(j, h);
  }

  /** `n` tiles of this size fit, and none larger. */
  predicate LargestTile(size: nat, n: nat, resolution: nat) {
    n * size <= resolution < n * (size + 1)
  }

  lemma TileIsLargest(resolution: uint16, n: uint8, size: nat)
    requires n > 0
    ensures LargestTile(size, n, resolution) <==> size == TileSize(resolution, n)
    ensures LargestTile(size, n, resolution) ==> 0 <= resolution - n * size < n
  {
    hide TileSize;
    TileOf(resolution, n, size);
    NextMultiple(size, n);
    TileQuotient(resolution, n);
  }

  lemma TileQuotient(resolution: uint16, n: uint8)
    requires n > 0
    ensures TileSize(resolution, n) == resolution / n
  {
  }

  /** No coordinate of a tile is truncated, and the tile is on the screen. */
  lemma TileDrawable(mode: ModeInfo, n: uint8, i: nat, j: nat)
    requires i < n && j < n
    ensures var h, v := TileSize(mode.xRes, n), TileSize(mode.yRes, n);
            && U16(h) == h && U16(v) == v && U16(j * h) == j * h && U16(i * v) == i * v
            && 0 <= j * h <= mode.xRes - h && 0 <= i * v
            && Drawable(mode, Box(j * h, i * v, h, v))
  {
    TileFits(mode.xRes, n, j);
    TileFits(mode.yRes, n, i);
  }

  lemma TileWritten(mode: ModeInfo, h: nat, v: nat, i: nat, j: nat, x: nat, y: nat)
    requires h > 0 && v > 0 && mode.OnScreen(x, y) && 0 <= j * h <= mode.xRes - h && 0 <= i * v
    ensures Written(mode, Box(j * h, i * v, h, v), x, y) <==> x / h == j && y / v == i
  {
    TileOf(x, h, j);
    TileOf(y, v, i);
  }

  /** One more rectangle is one more tile. */
  lemma NextTile(mode: ModeInfo, start: seq<uint8>, n: uint8, first: uint32, step: uint8, h: nat, v: nat,
                 i: nat, j: nat, before: seq<uint8>, after: seq<uint8>)
    requires i < n && j < n && PatternColorsDefined(mode) && IsFrame(mode, start)
    requires 0 <= j * h <= mode.xRes - h && 0 <= i * v
    requires TilesShown(mode, start, n, first, step, h, v, i, j, before)
    requires Painted(mode, before, Box(j * h, i * v, h, v), Solid(PatternColor(mode, j, i, step, first, n)), after)
    ensures TilesShown(mode, start, n, first, step, h, v, i, j + 1, after)
  {
    hide PatternColor, PatternColorsDefined, Written, Stored;
    forall x, y | mode.OnScreen(x, y)
      ensures PixelAt(mode, after, x, y) ==
              if Tiled(h, v, n, i, j + 1, x, y) then TileColor(mode, n, first, step, h, v, x, y)
              else PixelAt(mode, start, x, y)
    {
      if h > 0 && v > 0 {
        TileWritten(mode, h, v, i, j, x, y);
      } else {
        EmptyNotWritten(mode, Box(j * h, i * v, h, v), x, y);
      }
    }
  }

  lemma EmptyNotWritten(mode: ModeInfo, box: Box, x: int, y: int)
    requires box.w == 0 || box.h == 0
    ensures !Written(mode, box, x, y)
  {
  }

  lemma NextTileRow(mode: ModeInfo, start: seq<uint8>, n: uint8, first: uint32, step: uint8, h: nat, v: nat,
                    i: nat, m: seq<uint8>)
    requires PatternColorsDefined(mode) && IsFrame(mode, start)
    requires TilesShown(mode, start, n, first, step, h, v, i, n, m)
    ensures TilesShown(mode, start, n, first, step, h, v, i + 1, 0, m)
  {
    hide PatternColorsDefined, TileColor;
  }

  lemma AllTiles(mode: ModeInfo, start: seq<uint8>, n: uint8, first: uint32, step: uint8, h: nat, v: nat,
                 m: seq<uint8>)
    requires PatternColorsDefined(mode) && IsFrame(mode, start)
    requires TilesShown(mode, start, n, first, step, h, v, n, 0, m)
    ensures PatternShown(mode, start, n, first, step, h, v, m)
  {
    hide PatternColorsDefined, TileColor;
    forall x, y | mode.OnScreen(x, y)
      ensures Tiled(h, v, n, n, 0, x, y) <==> h > 0 && v > 0 && x < n * h && y < n * v
    {
      if h > 0 && v > 0 {
        TileOf(x, h, n);
        TileOf(y, v, n);
      }
    }
  }

  lemma NoTiles(mode: ModeInfo, start: seq<uint8>, n: uint8, first: uint32, step: uint8, h: nat, v: nat)
    requires PatternColorsDefined(mode) && IsFrame(mode, start)
    ensures TilesShown(mode, start, n, first, step, h, v, 0, 0, start)
  {
    hide PatternColorsDefined, TileColor;
    forall x, y | mode.OnScreen(x, y)
      ensures !Tiled(h, v, n, 0, 0, x, y)
    {
      if h > 0 && v > 0 {
        TileOf(x, h, 0);
        TileOf(y, v, 0);
      }
    }
  }

  /** The drawing loops of `video_test_pattern`, on a screen whose mode is set. */
  method VideoTestPattern(screen: Screen, noRectangles: uint8, first: uint32, step: uint8) returns (status: int)
    requires screen.Valid() && noRectangles > 0 && PatternColorsDefined(screen.mode)
    modifies screen.videoMem
    ensures status == 0
    ensures forall h, v | LargestTile(h, noRectangles, screen.mode.xRes)
                          && LargestTile(v, noRectangles, screen.mode.yRes) ::
      PatternShown(screen.mode, old(screen.videoMem[..]), noRectangles, first, step, h, v, screen.videoMem[..])
  {
    ghost var start := screen.videoMem[..];
    hide Painted, TilesShown, PatternShown, PatternColor, PatternColorsDefined, TileSize, Drawable, U16,
      ModeInfo.Addressable, ModeInfo.FrameSize;
    var v := TileSize(screen.mode.yRes, noRectangles);
    var h := TileSize(screen.mode.xRes, noRectangles);
    NoTiles(screen.mode, start, noRectangles, first, step, h, v);
    for i := 0 to noRectangles
      invariant TilesShown(screen.mode, start, noRectangles, first, step, h, v, i, 0, screen.videoMem[..])
    {
      for j := 0 to noRectangles
        invariant TilesShown(screen.mode, start, noRectangles, first, step, h, v, i, j, screen.videoMem[..])
      {
        ghost var before := screen.videoMem[..];
        var color := PatternColor(screen.mode, j, i, step, first, noRectangles);
        TileDrawable(screen.mode, noRectangles, i, j);
        var failed := screen.DrawRectangle(U16(j * h), U16(i * v), U16(h), U16(v), color);
        if failed != 0 {
          return 1;
        }
        NextTile(screen.mode, start, noRectangles, first, step, h, v, i, j, before, screen.videoMem[..]);
      }
      NextTileRow(screen.mode, start, noRectangles, first, step, h, v, i, screen.videoMem[..]);
    }
    AllTiles(screen.mode, start, noRectangles, first, step, h, v, screen.videoMem[..]);
    forall size: nat
      ensures LargestTile(size, noRectangles, screen.mode.xRes) ==> size == h
      ensures LargestTile(size, noRectangles, screen.mode.yRes) ==> size == v
    {
      TileIsLargest(screen.mode.xRes, noRectangles, size);
      TileIsLargest(screen.mode.yRes, noRectangles, size);
    }
    return 0;
  }

  /** In an indexed mode the tiles count up from `first` in row-major order, modulo the number of colours. */
  lemma IndexedPattern(mode: ModeInfo, start: seq<uint8>, n: uint8, first: uint32, step: uint8, h: nat, v: nat,
                       m: seq<uint8>, x: nat, y: nat)
    requires mode.memoryModel != 0x06 && PatternColorsDefined(mode) && IsFrame(mode, start)
    requires PatternShown(mode, start, n, first, step, h, v, m)
    requires mode.OnScreen(x, y) && h > 0 && v > 0 && x < n * h && y < n * v
    ensures PixelAt(mode, m, x, y) == (first + (y / v * n + x / h) * step) % Pow2(mode.bitsPerPixel)
  {
    TileOf(x, h, 0);
    TileOf(y, v, 0);
    IdxModeCounts(mode, x / h, y / v, step, first, n);
    assert PixelAt(mode, m, x, y) == TileColor(mode, n, first, step, h, v, x, y);
  }

  predicate FieldsStored(mode: ModeInfo) {
    var bits := 8 * mode.BytesPerPixel();
    && mode.red.position + mode.red.size <= bits
    && mode.green.position + mode.green.size <= bits
    && mode.blue.position + mode.blue.size <= bits
  }

  lemma DirectColorStored(mode: ModeInfo, col: uint32, row: uint32, step: uint8, first: uint32)
    requires DirectFields(mode) && FieldsStored(mode)
    ensures Stored(mode, DirMode(mode, col, row, step, first)) == DirMode(mode, col, row, step, first)
  {
    var bits := 8 * mode.BytesPerPixel();
    var r := ComponentPlaced(mode.red, first, col, step, bits);
    var g := ComponentPlaced(mode.green, first, row, step, bits);
    var b := ComponentPlaced(mode.blue, first, U32(col + row), step, bits);
    OrBelow(r, g, bits);
    OrBelow(BitOr(r, g), b, bits);
    RemainderBelow(DirMode(mode, col, row, step, first), Pow2(bits));
  }

  lemma ComponentPlaced(f: ColorField, first: uint32, index: uint32, step: uint8, bits: nat) returns (placed: nat)
    requires FieldInRange(f) && f.position + f.size <= bits
    ensures placed == U32(ShiftLeft(Component(f, first, index, step), f.position)) < Pow2(bits)
  {
    var c := Component(f, first, index, step);
    RemainderBelow(U32(BitAnd(Pow2(f.size) - 1, ShiftRight(first, f.position)) + U32(index * step)), Pow2(f.size));
    PlacedFits(f, c);
    ShiftLeftBound(c, f.size, f.position);
    Pow2Monotone(f.position + f.size, bits);
    placed := ShiftLeft(c, f.position);
  }

  /** In a direct mode each field of a tile counts up from its value in `first`. */
  lemma DirectPattern(mode: ModeInfo, start: seq<uint8>, n: uint8, first: uint32, step: uint8, h: nat, v: nat,
                      m: seq<uint8>, x: nat, y: nat)
    requires mode.memoryModel == 0x06 && DirectFields(mode) && FieldsStored(mode) && IsFrame(mode, start)
    requires PatternShown(mode, start, n, first, step, h, v, m)
    requires mode.OnScreen(x, y) && h > 0 && v > 0 && x < n * h && y < n * v
    ensures 0 <= x / h && 0 <= y / v
    ensures DirectProgression(mode, first, step, x / h, y / v, PixelAt(mode, m, x, y))
  {
    hide DirMode, DirectProgression, Stored;
    TileOf(x, h, 0);
    TileOf(y, v, 0);
    DirModeFields(mode, x / h, y / v, step, first);
    DirectColorStored(mode, x / h, y / v, step, first);
    assert PixelAt(mode, m, x, y) == TileColor(mode, n, first, step, h, v, x, y);
  }
}
