/** The drawing primitives, as methods on the globals `mode_info`, `vram_size` and `video_mem`. */
module Graphics {
  import opened Machine
  import opened VideoMemory

  /** A loaded XPM image in an indexed mode: one byte per pixel, row by row. */
  datatype Sprite = Sprite(width: uint16, height: uint16, data: seq<uint8>) {
    predicate Loaded() {
      |data| == width * height
    }

    function RowStart(h: nat): nat {
      h * width
    }

    function InkAt(x: int, y: int): Ink {
      Image(x, y, width, data)
    }
  }

  datatype ModeQuery = NoMode | Mode(info: ModeInfo)

  class Screen {
    var mode: ModeInfo
    var vramSize: uint32
    var videoMem: array<uint8>

    ghost predicate Valid()
      reads this
    {
      mode.Addressable() && vramSize == mode.FrameSize() && videoMem.Length == vramSize
    }

    constructor ()
      ensures Valid() && fresh(videoMem)
    {
      mode := ModeInfo(0, 0, 0, 0, ColorField(0, 0), ColorField(0, 0), ColorField(0, 0));
      vramSize := 0;
      videoMem := new uint8[0];
    }

    /** Size arithmetic and mapping of `set_frame_buffer`; the answers of the BIOS and of the kernel are
        parameters. The mapping is as long as the wrapped size, so the object is usable exactly when the
        size did not wrap. */
    method SetFrameBuffer(query: ModeQuery, granted: bool) returns (status: int)
      requires query.Mode? ==> query.info.xRes * query.info.yRes < 0x8000_0000 && query.info.BytesPerPixel() <= 4
      modifies this
      ensures status == if query.Mode? && granted then 0 else 1
      ensures query.NoMode? ==>
        mode == ModeInfo(0, 0, 0, 0, ColorField(0, 0), ColorField(0, 0), ColorField(0, 0)) && vramSize == old(vramSize)
      ensures query.Mode? ==> mode == query.info && vramSize == U32(mode.FrameSize())
      ensures query.Mode? ==> forall n | WholeBytes(n, query.info.bitsPerPixel) ::
        vramSize == query.info.xRes * query.info.yRes * n % 0x1_0000_0000
      ensures status == 0 ==> fresh(videoMem) && videoMem.Length == vramSize
      ensures status == 0 ==> (Valid() <==> mode.FrameSize() < 0x1_0000_0000)
      ensures status != 0 ==> videoMem == old(videoMem)
    {
      mode := ModeInfo(0, 0, 0, 0, ColorField(0, 0), ColorField(0, 0), ColorField(0, 0));
      if query.NoMode? {
        return 1;
      }
      mode := query.info;
      forall n: nat
        ensures WholeBytes(n, mode.bitsPerPixel) ==> n == mode.BytesPerPixel()
      {
        PixelInWholeBytes(mode, n);
      }
      var bytesPerPixel := mode.BytesPerPixel();
      vramSize := U32(mode.xRes * mode.yRes * bytesPerPixel);
      if !granted {
        return 1;
      }
      videoMem := new uint8[vramSize];
      return 0;
    }

    method DrawPixel(x: uint16, y: uint16, color: uint32) returns (status: int)
      requires Valid()
      modifies videoMem
      ensures status == if x < mode.xRes && y < mode.yRes then 0 else 1
      ensures status == 1 ==> videoMem[..] == old(videoMem[..])
      ensures status == 0 ==> forall n | WholeBytes(n, mode.bitsPerPixel) ::
        ColorStored(old(videoMem[..]), (mode.xRes * y + x) * n, n, color, videoMem[..])
      ensures Painted(mode, old(videoMem[..]), Box(x, y, 1, 1), Solid(color), videoMem[..])
    {
      if x >= mode.xRes || y >= mode.yRes {
        PaintedNothing(mode, videoMem[..], Box(x, y, 1, 1), Solid(color));
        return 1;
      }
      var bytesPerPixel := mode.BytesPerPixel();
      var idx := U32((mode.xRes * y + x) * bytesPerPixel);
      PixelBytesInside(mode, x, y);
      assert idx == mode.Offset(x, y);
      var bytes := Bytes(color, bytesPerPixel);
      forall k | 0 <= k < bytesPerPixel {
        videoMem[idx + k] := bytes[k];
      }
      assert PixelBytes(mode, videoMem[..], x, y) == bytes;
      OnePixelPainted(mode, old(videoMem[..]), x, y, color, videoMem[..]);
      OnePixelStored(mode, old(videoMem[..]), x, y, color, videoMem[..]);
      return 0;
    }

    method DrawHLine(x: uint16, y: uint16, len: uint16, color: uint32) returns (status: int)
      requires Valid()
      modifies videoMem
      ensures status == if Drawable(mode, Box(x, y, len, 1)) then 0 else 1
      ensures Painted(mode, old(videoMem[..]), Box(x, y, len, 1), Solid(color), videoMem[..])
    {
      hide Painted, Written, Ink.At, ModeInfo.Addressable, ModeInfo.FrameSize;
      PaintedNothing(mode, videoMem[..], Box(x, y, 0, 1), Solid(color));
      for i := 0 to len
        invariant i > 0 ==> mode.OnScreen(x + i - 1, y)
        invariant Painted(mode, old(videoMem[..]), Box(x, y, i, 1), Solid(color), videoMem[..])
      {
        ghost var before := videoMem[..];
        var failed := DrawPixel(U16(x + i), y, color);
        NextPixel(mode, old(videoMem[..]), before, x, y, i, len, Solid(color), videoMem[..]);
        if failed != 0 {
          return 1;
        }
      }
      return 0;
    }

    method DrawRectangle(x: uint16, y: uint16, width: uint16, height: uint16, color: uint32) returns (status: int)
      requires Valid()
      modifies videoMem
      ensures status == if Drawable(mode, Box(x, y, width, height)) then 0 else 1
      ensures Painted(mode, old(videoMem[..]), Box(x, y, width, height), Solid(color), videoMem[..])
    {
      PaintedNothing(mode, videoMem[..], Box(x, y, width, 0), Solid(color));
      for i := 0 to height
        invariant i > 0 && width > 0 ==> Fits(mode, Box(x, y, width, i))
        invariant Painted(mode, old(videoMem[..]), Box(x, y, width, i), Solid(color), videoMem[..])
      {
        ghost var before := videoMem[..];
        var failed := DrawHLine(x, U16(y + i), width, color);
        NextRow(mode, old(videoMem[..]), before, x, y, width, i, height, Solid(color), videoMem[..]);
        if failed != 0 {
          return 1;
        }
      }
      return 0;
    }

    method PrintXpm(image: Sprite, x: uint16, y: uint16) returns (status: int)
      requires Valid() && image.Loaded()
      modifies videoMem
      ensures status == if Drawable(mode, Box(x, y, image.width, image.height)) then 0 else 1
      ensures Painted(mode, old(videoMem[..]), Box(x, y, image.width, image.height), image.InkAt(x, y), videoMem[..])
    {
      hide Painted, Written, Ink.At, ModeInfo.Addressable, ModeInfo.FrameSize, Sprite.Loaded,
        Sprite.RowStart;
      RowsFollow(image, 0);
      ghost var ink, start := image.InkAt(x, y), videoMem[..];
      var color := 0;
      PaintedNothing(mode, start, Box(x, y, image.width, 0), ink);
      for h := 0 to image.height
        invariant color == image.RowStart(h)
        invariant h > 0 && image.width > 0 ==> Fits(mode, Box(x, y, image.width, h))
        invariant Painted(mode, start, Box(x, y, image.width, h), ink, videoMem[..])
      {
        ghost var rowStart := videoMem[..];
        PaintedNothing(mode, rowStart, Box(x, y + h, 0, 1), ink);
        for w := 0 to image.width
          invariant color == image.RowStart(h) + w
          invariant w > 0 ==> mode.OnScreen(x + w - 1, y + h)
          invariant Painted(mode, rowStart, Box(x, y + h, w, 1), ink, videoMem[..])
        {
          ghost var before := videoMem[..];
          DataIndexInside(image, w, h);
          assert U16(w + x) == x + w && U16(h + y) == y + h;
          var failed := DrawPixel(U16(w + x), U16(h + y), image.data[color]);
          NextSpritePixel(mode, rowStart, before, image, x, y, w, h, videoMem[..]);
          if failed != 0 {
            NextRow(mode, start, rowStart, x, y, image.width, h, image.height, ink, videoMem[..]);
            return 1;
          }
          color := color + 1;
        }
        NextRow(mode, start, rowStart, x, y, image.width, h, image.height, ink, videoMem[..]);
        RowsFollow(image, h);
      }
      return 0;
    }
  }

  lemma DataIndexInside(image: Sprite, w: nat, h: nat)
    requires image.Loaded() && w < image.width && h < image.height
    ensures image.RowStart(h) + w < |image.data|
  {
    Monotone(h + 1, image.height, image.width);
    RowsFollow(image, h);
  }

  lemma RowsFollow(image: Sprite, h: nat)
    ensures image.RowStart(0) == 0 && image.RowStart(h + 1) == image.RowStart(h) + image.width
  {
  }

  /** Column `w` follows the first `w` columns of a row; if it is off the screen the row ends there. */
  lemma NextPixel(mode: ModeInfo, m0: seq<uint8>, m1: seq<uint8>, x: nat, y: nat, w: nat, width: nat, ink: Ink,
                  m2: seq<uint8>)
    requires w < width && (w > 0 ==> mode.OnScreen(x + w - 1, y))
    requires Painted(mode, m0, Box(x, y, w, 1), ink, m1) && Painted(mode, m1, Box(x + w, y, 1, 1), ink, m2)
    ensures Painted(mode, m0, Box(x, y, if mode.OnScreen(x + w, y) then w + 1 else width, 1), ink, m2)
  {
  }

  /** The same for a pixel painted with one byte of an image. */
  lemma NextSpritePixel(mode: ModeInfo, m0: seq<uint8>, m1: seq<uint8>, image: Sprite, x: nat, y: nat, w: nat, h: nat,
                        m2: seq<uint8>)
    requires w < image.width && (w > 0 ==> mode.OnScreen(x + w - 1, y + h))
    requires image.RowStart(h) + w < |image.data|
    requires Painted(mode, m0, Box(x, y + h, w, 1), image.InkAt(x, y), m1)
    requires Painted(mode, m1, Box(x + w, y + h, 1, 1), Solid(image.data[image.RowStart(h) + w]), m2)
    ensures Painted(mode, m0, Box(x, y + h, if mode.OnScreen(x + w, y + h) then w + 1 else image.width, 1),
                    image.InkAt(x, y), m2)
  {
    assert Painted(mode, m1, Box(x + w, y + h, 1, 1), image.InkAt(x, y), m2);
    NextPixel(mode, m0, m1, x, y + h, w, image.width, image.InkAt(x, y), m2);
  }

  /** Row `h` follows the first `h` rows; if it does not fit the box ends there. */
  lemma NextRow(mode: ModeInfo, m0: seq<uint8>, m1: seq<uint8>, x: nat, y: nat, w: nat, h: nat, height: nat, ink: Ink,
                m2: seq<uint8>)
    requires h < height && (h > 0 && w > 0 ==> Fits(mode, Box(x, y, w, h)))
    requires Painted(mode, m0, Box(x, y, w, h), ink, m1) && Painted(mode, m1, Box(x, y + h, w, 1), ink, m2)
    ensures Painted(mode, m0, Box(x, y, w, if Drawable(mode, Box(x, y + h, w, 1)) then h + 1 else height), ink, m2)
  {
  }
}
