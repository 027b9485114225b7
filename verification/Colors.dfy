/** Colour arithmetic of the renderer: normalisation, and the direct and indexed pattern colours. */
module Colors {
  import opened Machine
  import opened VideoMemory

  // ---------- Bitwise operators on unsigned numbers ----------

  function BitAnd(a: nat, b: nat): nat
    decreases a
  {
    if a == 0 then 0 else 2 * BitAnd(a / 2, b / 2) + (if a % 2 == 1 && b % 2 == 1 then 1 else 0)
  }

  function BitOr(a: nat, b: nat): nat
    decreases a + b
  {
    if a + b == 0 then 0 else 2 * BitOr(a / 2, b / 2) + (if a % 2 == 1 || b % 2 == 1 then 1 else 0)
  }

  function ShiftRight(n: nat, p: nat): nat {
    if p == 0 then n else ShiftRight(n / 2, p - 1)
  }

  function ShiftLeft(n: nat, p: nat): nat {
    if p == 0 then n else 2 * ShiftLeft(n, p - 1)
  }

  /** The `s` lowest bits. */
  function Low(n: nat, s: nat): nat {
    if s == 0 then 0 else n % 2 + 2 * Low(n / 2, s - 1)
  }

  lemma {:induction false} LowIsMask(n: nat, s: nat)
    ensures Low(n, s) == BitAnd(Pow2(s) - 1, n)
  {
    if s > 0 {
      LowIsMask(n / 2, s - 1);
    }
  }

  lemma {:induction false} LowIsRemainder(n: nat, s: nat)
    ensures Low(n, s) == n % Pow2(s)
  {
    if s > 0 {
      LowIsRemainder(n / 2, s - 1);
      SplitRemainder(n, 2, Pow2(s - 1));
    }
  }

  lemma {:induction false} LowOfSmall(n: nat, s: nat)
    requires n < Pow2(s)
    ensures Low(n, s) == n
  {
    if s > 0 {
      LowOfSmall(n / 2, s - 1);
    }
  }

  lemma {:induction false} AndCommutes(a: nat, b: nat)
    ensures BitAnd(a, b) == BitAnd(b, a)
    decreases a + b
  {
    if a + b > 0 {
      AndCommutes(a / 2, b / 2);
    }
  }

  lemma {:induction false} OrZero(a: nat)
    ensures BitOr(a, 0) == a && BitOr(0, a) == a
  {
    if a > 0 {
      OrZero(a / 2);
    }
  }

  lemma {:induction false} ShiftRightOr(a: nat, b: nat, p: nat)
    ensures ShiftRight(BitOr(a, b), p) == BitOr(ShiftRight(a, p), ShiftRight(b, p))
  {
    if p > 0 {
      ShiftRightOr(a / 2, b / 2, p - 1);
      assert BitOr(a, b) / 2 == BitOr(a / 2, b / 2);
    }
  }

  lemma {:induction false} LowOr(a: nat, b: nat, s: nat)
    ensures Low(BitOr(a, b), s) == BitOr(Low(a, s), Low(b, s))
  {
    if s > 0 {
      LowOr(a / 2, b / 2, s - 1);
      assert BitOr(a, b) / 2 == BitOr(a / 2, b / 2);
    }
  }

  lemma {:induction false} ShiftLeftBound(n: nat, s: nat, p: nat)
    requires n < Pow2(s)
    ensures ShiftLeft(n, p) < Pow2(p + s)
  {
    if p > 0 {
      ShiftLeftBound(n, s, p - 1);
    }
  }

  lemma {:induction false} ShiftRightToZero(n: nat, p: nat)
    requires n < Pow2(p)
    ensures ShiftRight(n, p) == 0
  {
    if p > 0 {
      ShiftRightToZero(n / 2, p - 1);
    }
  }

  lemma {:induction false} ShiftsCancel(n: nat, p: nat, q: nat)
    requires q <= p
    ensures ShiftRight(ShiftLeft(n, p), q) == ShiftLeft(n, p - q)
  {
    if q > 0 {
      ShiftsCancel(n, p - 1, q - 1);
    }
  }

  lemma {:induction false} LowOfShifted(n: nat, p: nat, s: nat)
    requires s <= p
    ensures Low(ShiftLeft(n, p), s) == 0
  {
    if s > 0 {
      LowOfShifted(n, p - 1, s - 1);
    }
  }

  // ---------- Colour fields ----------

  function FieldOf(f: ColorField, v: nat): nat {
    Low(ShiftRight(v, f.position), f.size)
  }

  predicate Disjoint(f: ColorField, g: ColorField) {
    f.position + f.size <= g.position || g.position + g.size <= f.position
  }

  lemma FieldOfOr(f: ColorField, a: nat, b: nat)
    ensures FieldOf(f, BitOr(a, b)) == BitOr(FieldOf(f, a), FieldOf(f, b))
  {
    ShiftRightOr(a, b, f.position);
    LowOr(ShiftRight(a, f.position), ShiftRight(b, f.position), f.size);
  }

  lemma FieldOfPlaced(f: ColorField, g: ColorField, v: nat)
    requires v < Pow2(g.size)
    ensures f == g ==> FieldOf(f, ShiftLeft(v, g.position)) == v
    ensures Disjoint(f, g) ==> FieldOf(f, ShiftLeft(v, g.position)) == 0
  {
    if f == g {
      ShiftsCancel(v, g.position, g.position);
      LowOfSmall(v, g.size);
    }
    if g.position + g.size <= f.position {
      ShiftLeftBound(v, g.size, g.position);
      Pow2Monotone(g.position + g.size, f.position);
      ShiftRightToZero(ShiftLeft(v, g.position), f.position);
      LowOfSmall(0, f.size);
    } else if f.position + f.size <= g.position {
      ShiftsCancel(v, g.position, f.position);
      LowOfShifted(v, g.position - f.position, f.size);
    }
  }

  /** Shifting a field's value into its place loses nothing in 32 bits. */
  lemma PlacedFits(f: ColorField, v: nat)
    requires v < Pow2(f.size) && f.position + f.size <= 32
    ensures U32(ShiftLeft(v, f.position)) == ShiftLeft(v, f.position)
  {
    ShiftLeftBound(v, f.size, f.position);
    Pow2Monotone(f.position + f.size, 32);
    Pow2At32();
  }

  // ---------- norm_color ----------

  /** A colour that fits in the bits of a pixel is stored unchanged. */
  lemma StoredUnchanged(mode: ModeInfo, color: nat)
    requires color < Pow2(mode.bitsPerPixel)
    ensures Stored(mode, color) == color
  {
    Pow2Monotone(mode.bitsPerPixel, 8 * mode.BytesPerPixel());
    DivModUnique(color, Pow2(8 * mode.BytesPerPixel()), 0, color);
  }

  /** `1 << n` is an `int`, so it has a value only up to `n == 30`. */
  function NormColor(mode: ModeInfo, color: uint32): nat
    requires mode.bitsPerPixel <= 30 || mode.bitsPerPixel == 32
  {
    if mode.bitsPerPixel == 32 then color else BitAnd(color, Pow2(mode.bitsPerPixel) - 1)
  }

  /** The normalised colour is the colour cut to the bits of a pixel, and a pixel stores it unchanged. */
  lemma NormColorIsStored(mode: ModeInfo, color: uint32)
    requires mode.bitsPerPixel <= 30 || mode.bitsPerPixel == 32
    ensures NormColor(mode, color) == color % Pow2(mode.bitsPerPixel)
    ensures Stored(mode, NormColor(mode, color)) == NormColor(mode, color)
  {
    var mask := Pow2(mode.bitsPerPixel) - 1;
    AndCommutes(color, mask);
    LowIsMask(color, mode.bitsPerPixel);
    LowIsRemainder(color, mode.bitsPerPixel);
    Pow2At32();
    RemainderBelow(color, Pow2(mode.bitsPerPixel));
    StoredUnchanged(mode, NormColor(mode, color));
  }

  lemma RemainderBelow(n: nat, m: nat)
    requires 0 < m
    ensures 0 <= n % m < m && (n < m ==> n % m == n)
  {
  }

  // ---------- Pattern colours ----------

  /** The wrapped arithmetic of one component of `dir_mode`; `index` is the column, the row, or their sum. */
  function Component(f: ColorField, first: uint32, index: uint32, step: uint8): nat {
    U32(BitAnd(Pow2(f.size) - 1, ShiftRight(first, f.position)) + U32(index * step)) % Pow2(f.size)
  }

  function DirMode(mode: ModeInfo, col: uint32, row: uint32, step: uint8, first: uint32): nat {
    var r := Component(mode.red, first, col, step);
    var g := Component(mode.green, first, row, step);
    var b := Component(mode.blue, first, U32(col + row), step);
    BitOr(BitOr(U32(ShiftLeft(r, mode.red.position)), U32(ShiftLeft(g, mode.green.position))),
          U32(ShiftLeft(b, mode.blue.position)))
  }

  function IdxMode(mode: ModeInfo, col: uint32, row: uint32, step: uint8, first: uint32, noRectangles: uint8): nat {
    U32(first + U32(U32(U32(row * noRectangles) + col) * step)) % Pow2(mode.bitsPerPixel)
  }

  /** The shifts by a field's size and position have a value in C (`1 << size` is an `int`). */
  predicate ShiftsDefined(f: ColorField) {
    f.size <= 30 && f.position < 32
  }

  /** The field lies in a 32-bit colour. */
  predicate FieldInRange(f: ColorField) {
    ShiftsDefined(f) && f.position + f.size <= 32
  }

  predicate DirectFields(mode: ModeInfo) {
    && FieldInRange(mode.red) && FieldInRange(mode.green) && FieldInRange(mode.blue)
    && Disjoint(mode.red, mode.green) && Disjoint(mode.red, mode.blue) && Disjoint(mode.green, mode.blue)
  }

  /** Reducing modulo `2^32` at any point of a sum or a product does not show in a smaller field. */
  lemma WrapIsInvisible(x: int, s: nat)
    requires s <= 32
    ensures U32(x) % Pow2(s) == x % Pow2(s)
  {
    Pow2At32();
    ModPow2Nested(x, s, 32);
  }

  lemma WrapOnce(a: int, x: int, m: int)
    ensures U32(a + U32(x)) == U32(a + x)
    ensures U32(U32(x) * m) == U32(x * m)
  {
    var W := 0x1_0000_0000;
    var q, r := x / W, (a + x) / W;
    DivModUnique(a + U32(x), W, r - q, (a + x) % W);
    var t := U32(x) * m / W;
    assert x * m == (q * m + t) * W + U32(U32(x) * m) by {
      assert x == q * W + U32(x);
      assert x * m == q * W * m + U32(x) * m;
      assert q * W * m == q * m * W;
    }
    DivModUnique(x * m, W, q * m + t, U32(U32(x) * m));
  }

  lemma ComponentLaw(f: ColorField, first: uint32, index: uint32, exact: int, step: uint8)
    requires f.size <= 32 && index == U32(exact)
    ensures Component(f, first, index, step) == (FieldOf(f, first) + exact * step) % Pow2(f.size)
  {
    var base := FieldOf(f, first);
    LowIsMask(ShiftRight(first, f.position), f.size);
    WrapOnce(base, exact * step, 0);
    WrapOnce(0, exact, step);
    WrapIsInvisible(base + exact * step, f.size);
  }

  /** Red counts up along the columns, green along the rows and blue along both, each modulo its field. */
  predicate DirectProgression(mode: ModeInfo, first: nat, step: nat, col: nat, row: nat, color: nat) {
    && FieldOf(mode.red, color) == (FieldOf(mode.red, first) + col * step) % Pow2(mode.red.size)
    && FieldOf(mode.green, color) == (FieldOf(mode.green, first) + row * step) % Pow2(mode.green.size)
    && FieldOf(mode.blue, color) == (FieldOf(mode.blue, first) + (col + row) * step) % Pow2(mode.blue.size)
  }

  /** Each field of a direct-mode colour holds its own arithmetic progression, whatever wrapped on the way. */
  lemma DirModeFields(mode: ModeInfo, col: uint32, row: uint32, step: uint8, first: uint32)
    requires DirectFields(mode)
    ensures DirectProgression(mode, first, step, col, row, DirMode(mode, col, row, step, first))
  {
    ComponentLaw(mode.red, first, col, col, step);
    ComponentLaw(mode.green, first, row, row, step);
    ComponentLaw(mode.blue, first, U32(col + row), col + row, step);
    FieldOfPacked(mode.red, mode, col, row, step, first);
    FieldOfPacked(mode.green, mode, col, row, step, first);
    FieldOfPacked(mode.blue, mode, col, row, step, first);
  }

  /** Bits that belong to no field are zero. */
  lemma DirModeElsewhere(mode: ModeInfo, bit: uint8, col: uint32, row: uint32, step: uint8, first: uint32)
    requires DirectFields(mode)
    requires var f := ColorField(1, bit); Disjoint(f, mode.red) && Disjoint(f, mode.green) && Disjoint(f, mode.blue)
    ensures FieldOf(ColorField(1, bit), DirMode(mode, col, row, step, first)) == 0
  {
    FieldOfPacked(ColorField(1, bit), mode, col, row, step, first);
  }

  /** A field that is one of the three, or apart from it, sees that component, or nothing of it. */
  lemma FieldOfPacked(f: ColorField, mode: ModeInfo, col: uint32, row: uint32, step: uint8, first: uint32)
    requires FieldInRange(mode.red) && FieldInRange(mode.green) && FieldInRange(mode.blue)
    requires f == mode.red || Disjoint(f, mode.red)
    requires f == mode.green || Disjoint(f, mode.green)
    requires f == mode.blue || Disjoint(f, mode.blue)
    ensures FieldOf(f, DirMode(mode, col, row, step, first)) ==
            BitOr(BitOr(if f == mode.red then Component(mode.red, first, col, step) else 0,
                        if f == mode.green then Component(mode.green, first, row, step) else 0),
                  if f == mode.blue then Component(mode.blue, first, U32(col + row), step) else 0)
    ensures forall v: nat :: BitOr(v, 0) == v && BitOr(0, v) == v
  {
    var r := Component(mode.red, first, col, step);
    var g := Component(mode.green, first, row, step);
    var b := Component(mode.blue, first, U32(col + row), step);
    PlacedFits(mode.red, r);
    PlacedFits(mode.green, g);
    PlacedFits(mode.blue, b);
    var R, G, B := ShiftLeft(r, mode.red.position), ShiftLeft(g, mode.green.position), ShiftLeft(b, mode.blue.position);
    FieldOfOr(f, R, G);
    FieldOfOr(f, BitOr(R, G), B);
    FieldOfPlaced(f, mode.red, r);
    FieldOfPlaced(f, mode.green, g);
    FieldOfPlaced(f, mode.blue, b);
    forall v: nat
      ensures BitOr(v, 0) == v && BitOr(0, v) == v
    {
      OrZero(v);
    }
  }

  /** An indexed-mode colour counts the rectangles in row-major order, whatever wrapped on the way, and a
      pixel stores it unchanged. */
  lemma IdxModeCounts(mode: ModeInfo, col: uint32, row: uint32, step: uint8, first: uint32, noRectangles: uint8)
    requires mode.bitsPerPixel <= 30
    ensures IdxMode(mode, col, row, step, first, noRectangles) ==
            (first + (row * noRectangles + col) * step) % Pow2(mode.bitsPerPixel)
    ensures Stored(mode, IdxMode(mode, col, row, step, first, noRectangles)) ==
            IdxMode(mode, col, row, step, first, noRectangles)
  {
    hide Stored;
    var cell := row * noRectangles + col;
    WrapOnce(col, row * noRectangles, 0);
    WrapOnce(0, cell, step);
    WrapOnce(first, cell * step, 0);
    WrapIsInvisible(first + cell * step, mode.bitsPerPixel);
    RemainderBelow(first + cell * step, Pow2(mode.bitsPerPixel));
    StoredUnchanged(mode, (first + cell * step) % Pow2(mode.bitsPerPixel));
  }
}
