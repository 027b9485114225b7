/** The linear frame buffer: how bytes of video memory hold pixels, and what one box of pixels written
    into it changes. Everything here is about values; `Graphics` holds the methods that write memory. */
module VideoMemory {
  import opened Machine

  datatype ColorField = ColorField(size: uint8, position: uint8)

  /** The fields of the VBE ModeInfoBlock (VBE 3.0, section 4.4) that the renderer reads. */
  datatype ModeInfo = ModeInfo(
    xRes: uint16,
    yRes: uint16,
    bitsPerPixel: uint8,
    memoryModel: uint8,
    red: ColorField,
    green: ColorField,
    blue: ColorField)
  {
    function BytesPerPixel(): nat {
      (bitsPerPixel + 7) / 8
    }

    function FrameSize(): nat {
      xRes * yRes * BytesPerPixel()
    }

    /** `xRes * yRes` is computed in `int`, the sizes derived from it in `unsigned`, and a pixel is
        copied out of a four-byte colour. */
    predicate Addressable() {
      && xRes * yRes < 0x8000_0000
      && FrameSize() < 0x1_0000_0000
      && BytesPerPixel() <= 4
    }

    predicate OnScreen(x: int, y: int) {
      0 <= x < xRes && 0 <= y < yRes
    }

    function Offset(x: int, y: int): int {
      (xRes * y + x) * BytesPerPixel()
    }
  }

  // ---------- Little-endian pixels ----------

  /** The first `n` bytes in memory of the number `c`. */
  function Bytes(c: nat, n: nat): (bs: seq<uint8>)
    ensures |bs| == n
  {
    if n == 0 then [] else [c % 0x100] + Bytes(c / 0x100, n - 1)
  }

  function Number(bs: seq<uint8>): nat {
    if bs == [] then 0 else bs[0] + 0x100 * Number(bs[1..])
  }

  lemma {:induction false} NumberOfBytes(c: nat, n: nat)
    ensures Number(Bytes(c, n)) == c % Pow2(8 * n)
  {
    if n > 0 {
      NumberOfBytes(c / 0x100, n - 1);
      assert Bytes(c, n)[1..] == Bytes(c / 0x100, n - 1);
      Pow2Add(8, 8 * (n - 1));
      assert Pow2(8) == 0x100;
      SplitRemainder(c, 0x100, Pow2(8 * (n - 1)));
    }
  }

  /** Dividing by `d * s` is dividing by `d` and then by `s`. */
  lemma SplitRemainder(c: nat, d: nat, s: nat)
    requires 0 < d && 0 < s
    ensures 0 < d * s && c % (d * s) == c % d + d * (c / d % s)
    ensures c / (d * s) == c / d / s
  {
    var q, r := c / d, c % d;
    var q', r' := q / s, q % s;
    assert c == q' * (d * s) + (r + d * r') by {
      assert d * q == d * (q' * s) + d * r';
      assert d * (q' * s) == q' * (d * s);
    }
    assert d * r' <= d * (s - 1);
    DivModUnique(c, d * s, q', r + d * r');
  }

  lemma {:induction false} BytesOfNumber(bs: seq<uint8>)
    ensures Bytes(Number(bs), |bs|) == bs
  {
    if bs != [] {
      BytesOfNumber(bs[1..]);
      DivModUnique(Number(bs), 0x100, Number(bs[1..]), bs[0]);
    }
  }

  /** The bytes in memory are the base-256 digits of the number, the lowest first. */
  lemma {:induction false} BytesAreDigits(c: nat, n: nat, k: nat)
    requires k < n
    ensures Bytes(c, n)[k] == c / Pow2(8 * k) % 0x100
  {
    if k > 0 {
      BytesAreDigits(c / 0x100, n - 1, k - 1);
      Pow2Add(8, 8 * (k - 1));
      assert Pow2(8) == 0x100;
      SplitRemainder(c, 0x100, Pow2(8 * (k - 1)));
    }
  }

  // ---------- Layout ----------

  /** `n` is the least number of whole bytes with room for `bits` bits. */
  predicate WholeBytes(n: nat, bits: nat) {
    8 * (n - 1) < bits <= 8 * n
  }

  lemma PixelInWholeBytes(mode: ModeInfo, n: nat)
    ensures WholeBytes(n, mode.bitsPerPixel) <==> n == mode.BytesPerPixel()
  {
  }

  /** `after` is `before` with the `n` bytes from `offset` on replaced by those of `color`, the lowest first. */
  ghost predicate ColorStored(before: seq<uint8>, offset: int, n: nat, color: nat, after: seq<uint8>) {
    && |after| == |before|
    && 0 <= offset <= offset + n <= |after|
    && (forall k | 0 <= k < n :: after[offset + k] == color / Pow2(8 * k) % 0x100)
    && (forall k | 0 <= k < |after| && !(offset <= k < offset + n) :: after[k] == before[k])
  }

  lemma Monotone(m: nat, n: nat, b: nat)
    ensures m <= n ==> m * b <= n * b
  {
  }

  lemma IndexInside(mode: ModeInfo, x: int, y: int)
    requires mode.OnScreen(x, y)
    ensures 0 <= mode.xRes * y + x < mode.xRes * mode.yRes
  {
    Monotone(y + 1, mode.yRes, mode.xRes);
    assert mode.xRes * y + mode.xRes == (y + 1) * mode.xRes;
  }

  lemma BlocksApart(p: int, q: int, b: nat)
    requires p < q
    ensures p * b + b <= q * b
  {
    assert (q - p - 1) * b >= 0;
    assert (q - p - 1) * b == q * b - p * b - b;
  }

  /** Every pixel on the screen owns bytes inside the frame, and two pixels share none. */
  lemma PixelBytesInside(mode: ModeInfo, x: int, y: int)
    requires mode.OnScreen(x, y)
    ensures 0 <= mode.Offset(x, y) <= mode.Offset(x, y) + mode.BytesPerPixel() <= mode.FrameSize()
  {
    IndexInside(mode, x, y);
    BlocksApart(mode.xRes * y + x, mode.xRes * mode.yRes, mode.BytesPerPixel());
    assert (mode.xRes * y + x) * mode.BytesPerPixel() >= 0;
  }

  lemma PixelBytesDisjoint(mode: ModeInfo, x: int, y: int, x': int, y': int)
    requires mode.OnScreen(x, y) && mode.OnScreen(x', y') && (x, y) != (x', y')
    ensures || mode.Offset(x, y) + mode.BytesPerPixel() <= mode.Offset(x', y')
            || mode.Offset(x', y') + mode.BytesPerPixel() <= mode.Offset(x, y)
  {
    var p, p' := mode.xRes * y + x, mode.xRes * y' + x';
    DivModUnique(p, mode.xRes, y, x);
    DivModUnique(p', mode.xRes, y', x');
    if p < p' {
      BlocksApart(p, p', mode.BytesPerPixel());
    } else {
      BlocksApart(p', p, mode.BytesPerPixel());
    }
  }

  lemma Quotient(k: nat, n: nat, b: nat) returns (q: nat)
    requires k < n * b
    ensures q < n && q * b <= k < q * b + b
  {
    assert 0 < b;
    q := k / b;
    assert k == q * b + k % b;
    Monotone(n, q, b);
  }

  /** Every byte of the frame belongs to a pixel on the screen. */
  lemma PixelBytesCover(mode: ModeInfo, k: nat) returns (x: int, y: int)
    requires k < mode.FrameSize()
    ensures mode.OnScreen(x, y)
    ensures mode.Offset(x, y) <= k < mode.Offset(x, y) + mode.BytesPerPixel()
  {
    var p := Quotient(k, mode.xRes * mode.yRes, mode.BytesPerPixel());
    assert p < mode.yRes * mode.xRes;
    y := Quotient(p, mode.yRes, mode.xRes);
    x := p - y * mode.xRes;
    assert mode.xRes * y + x == p;
  }

  /** The address `vg_draw_pixel` computes, in `unsigned` arithmetic. */
  function Address(mode: ModeInfo, x: int, y: int): uint32 {
    U32(mode.Offset(x, y))
  }

  /** `vram_size` wraps at 32 bits; every pixel stays inside the mapping exactly when it does not wrap. */
  lemma MappingHoldsFrameIff(mode: ModeInfo)
    requires mode.xRes * mode.yRes < 0x8000_0000 && mode.BytesPerPixel() <= 4
    ensures mode.Addressable() <==>
      forall x, y | mode.OnScreen(x, y) :: Address(mode, x, y) + mode.BytesPerPixel() <= U32(mode.FrameSize())
  {
    if mode.Addressable() {
      forall x, y | mode.OnScreen(x, y)
        ensures Address(mode, x, y) + mode.BytesPerPixel() <= U32(mode.FrameSize())
      {
        PixelBytesInside(mode, x, y);
      }
    } else {
      var x, y := PixelPastMapping(mode);
    }
  }

  lemma PixelPastMapping(mode: ModeInfo) returns (x: int, y: int)
    requires mode.xRes * mode.yRes < 0x8000_0000 && mode.BytesPerPixel() <= 4
    requires mode.FrameSize() >= 0x1_0000_0000
    ensures mode.OnScreen(x, y)
    ensures Address(mode, x, y) + mode.BytesPerPixel() > U32(mode.FrameSize())
  {
    AtMostFourTimes(mode.xRes * mode.yRes, mode.BytesPerPixel());
    var past := mode.FrameSize() - 0x1_0000_0000;
    x, y := PixelBytesCover(mode, past);
    PixelBytesInside(mode, x, y);
  }

  /** For example, a mode of 32768 by 32768 pixels of 32 bits: the size wraps to zero, and no pixel is inside. */
  lemma MappingOfNothing(mode: ModeInfo)
    requires mode.xRes == 0x8000 && mode.yRes == 0x8000 && mode.bitsPerPixel == 32
    ensures mode.xRes * mode.yRes < 0x8000_0000 && mode.BytesPerPixel() == 4
    ensures U32(mode.FrameSize()) == 0 && mode.OnScreen(0, 0) && Address(mode, 0, 0) + mode.BytesPerPixel() > 0
  {
  }

  lemma AtMostFourTimes(n: nat, b: nat)
    requires b <= 4
    ensures n * b <= 4 * n
  {
  }

  // ---------- The picture a memory shows ----------

  ghost predicate IsFrame(mode: ModeInfo, mem: seq<uint8>) {
    |mem| == mode.FrameSize()
  }

  ghost function PixelBytes(mode: ModeInfo, mem: seq<uint8>, x: int, y: int): (bs: seq<uint8>)
    requires IsFrame(mode, mem) && mode.OnScreen(x, y)
    ensures |bs| == mode.BytesPerPixel()
  {
    PixelBytesInside(mode, x, y);
    mem[mode.Offset(x, y)..mode.Offset(x, y) + mode.BytesPerPixel()]
  }

  ghost function PixelAt(mode: ModeInfo, mem: seq<uint8>, x: int, y: int): nat
    requires IsFrame(mode, mem) && mode.OnScreen(x, y)
  {
    Number(PixelBytes(mode, mem, x, y))
  }

  /** What a pixel keeps of a colour that is wider than the pixel. */
  function Stored(mode: ModeInfo, color: nat): nat {
    color % Pow2(8 * mode.BytesPerPixel())
  }

  /** The picture determines every byte, so a statement about all pixels frames the whole memory. */
  lemma PictureDeterminesMemory(mode: ModeInfo, a: seq<uint8>, b: seq<uint8>)
    requires IsFrame(mode, a) && IsFrame(mode, b)
    requires forall x, y | mode.OnScreen(x, y) :: PixelAt(mode, a, x, y) == PixelAt(mode, b, x, y)
    ensures a == b
  {
    forall k | 0 <= k < |a|
      ensures a[k] == b[k]
    {
      SamePictureSameByte(mode, a, b, k);
    }
  }

  lemma SamePictureSameByte(mode: ModeInfo, a: seq<uint8>, b: seq<uint8>, k: nat)
    requires IsFrame(mode, a) && IsFrame(mode, b) && k < |a|
    requires forall x, y | mode.OnScreen(x, y) :: PixelAt(mode, a, x, y) == PixelAt(mode, b, x, y)
    ensures a[k] == b[k]
  {
    var x, y := PixelBytesCover(mode, k);
    assert PixelAt(mode, a, x, y) == PixelAt(mode, b, x, y);
    var o, n := mode.Offset(x, y), mode.BytesPerPixel();
    PixelBytesInside(mode, x, y);
    BytesOfNumber(a[o..o + n]);
    BytesOfNumber(b[o..o + n]);
    assert a[k] == a[o..o + n][k - o] && b[k] == b[o..o + n][k - o];
  }

  // ---------- Boxes of pixels ----------

  datatype Box = Box(x: nat, y: nat, w: nat, h: nat)

  /** The colours of a box: one colour, or row-major image data anchored at a screen position. */
  datatype Ink =
    | Solid(color: nat)
    | Image(x: int, y: int, width: nat, data: seq<uint8>)
  {
    function At(px: int, py: int): nat {
      match this
      case Solid(c) => c
      case Image(x, y, width, data) =>
        var k := (py - y) * width + (px - x);
        if 0 <= k < |data| then data[k] else 0
    }
  }

  predicate Fits(mode: ModeInfo, box: Box) {
    box.x + box.w <= mode.xRes && box.y + box.h <= mode.yRes
  }

  /** Drawing row by row, left to right, meets no pixel off the screen. */
  predicate Drawable(mode: ModeInfo, box: Box) {
    box.w == 0 || box.h == 0 || Fits(mode, box)
  }

  /** The pixels that are written before the drawing stops: when the first row is too wide it is the
      part of that row on the screen, otherwise every row of the box on the screen. */
  predicate Written(mode: ModeInfo, box: Box, px: int, py: int) {
    && mode.OnScreen(px, py)
    && box.x <= px < box.x + box.w
    && box.y <= py < box.y + box.h
    && (box.x + box.w > mode.xRes ==> py == box.y)
  }

  ghost predicate Painted(mode: ModeInfo, before: seq<uint8>, box: Box, ink: Ink, after: seq<uint8>) {
    && IsFrame(mode, before)
    && IsFrame(mode, after)
    && forall x, y {:trigger PixelAt(mode, after, x, y)} | mode.OnScreen(x, y) ::
         PixelAt(mode, after, x, y) ==
         if Written(mode, box, x, y) then Stored(mode, ink.At(x, y)) else PixelAt(mode, before, x, y)
  }

  /** The pixel that column `i` of row `j` of a box lands on is on the screen. */
  predicate Lands(mode: ModeInfo, box: Box, i: int, j: int) {
    mode.OnScreen(box.x + i, box.y + j)
  }

  /** Independent reading of `Written`: exactly the pixels such that they and everything before them in
      row-major order are on the screen. */
  lemma WrittenIsRowMajorPrefix(mode: ModeInfo, box: Box, i: nat, j: nat)
    requires i < box.w && j < box.h
    ensures Written(mode, box, box.x + i, box.y + j) <==>
      forall i', j' | 0 <= i' < box.w && 0 <= j' < box.h && (j' < j || (j' == j && i' <= i)) ::
        Lands(mode, box, i', j')
  {
    if forall i', j' | 0 <= i' < box.w && 0 <= j' < box.h && (j' < j || (j' == j && i' <= i)) ::
        Lands(mode, box, i', j')
    {
      assert Lands(mode, box, i, j);
      if j > 0 {
        assert Lands(mode, box, box.w - 1, 0);
      }
    }
  }

  lemma DrawableIffAllLand(mode: ModeInfo, box: Box)
    ensures Drawable(mode, box) <==> forall i, j | 0 <= i < box.w && 0 <= j < box.h :: Lands(mode, box, i, j)
  {
    if box.w > 0 && box.h > 0 && !Fits(mode, box) {
      assert !Lands(mode, box, box.w - 1, box.h - 1);
    }
  }

  lemma PaintedNothing(mode: ModeInfo, m: seq<uint8>, box: Box, ink: Ink)
    requires IsFrame(mode, m)
    requires box.w == 0 || box.h == 0 || !mode.OnScreen(box.x, box.y)
    ensures Painted(mode, m, box, ink, m)
  {
  }

  /** The same write, byte by byte. */
  lemma OnePixelStored(mode: ModeInfo, before: seq<uint8>, x: nat, y: nat, color: nat, after: seq<uint8>)
    requires IsFrame(mode, before) && IsFrame(mode, after) && mode.OnScreen(x, y)
    requires PixelBytes(mode, after, x, y) == Bytes(color, mode.BytesPerPixel())
    requires forall k | 0 <= k < |before| && !(mode.Offset(x, y) <= k < mode.Offset(x, y) + mode.BytesPerPixel()) ::
      after[k] == before[k]
    ensures forall n | WholeBytes(n, mode.bitsPerPixel) ::
      ColorStored(before, (mode.xRes * y + x) * n, n, color, after)
  {
    PixelBytesInside(mode, x, y);
    var n, offset := mode.BytesPerPixel(), mode.Offset(x, y);
    forall k | 0 <= k < n
      ensures after[offset + k] == color / Pow2(8 * k) % 0x100
    {
      BytesAreDigits(color, n, k);
      assert after[offset + k] == PixelBytes(mode, after, x, y)[k];
    }
    assert ColorStored(before, offset, n, color, after);
    forall m | WholeBytes(m, mode.bitsPerPixel)
      ensures m == n
    {
      PixelInWholeBytes(mode, m);
    }
  }

  /** Replacing the bytes of one pixel changes that pixel and no other. */
  lemma OnePixelPainted(mode: ModeInfo, before: seq<uint8>, x: nat, y: nat, color: nat, after: seq<uint8>)
    requires IsFrame(mode, before) && IsFrame(mode, after) && mode.OnScreen(x, y)
    requires PixelBytes(mode, after, x, y) == Bytes(color, mode.BytesPerPixel())
    requires forall k | 0 <= k < |before| && !(mode.Offset(x, y) <= k < mode.Offset(x, y) + mode.BytesPerPixel()) ::
      after[k] == before[k]
    ensures Painted(mode, before, Box(x, y, 1, 1), Solid(color), after)
  {
    NumberOfBytes(color, mode.BytesPerPixel());
    forall px, py | mode.OnScreen(px, py) && (px, py) != (x, y)
      ensures PixelAt(mode, after, px, py) == PixelAt(mode, before, px, py)
    {
      PixelBytesDisjoint(mode, x, y, px, py);
      PixelBytesInside(mode, px, py);
      assert PixelBytes(mode, after, px, py) == PixelBytes(mode, before, px, py);
    }
  }
}
