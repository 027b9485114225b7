/** Laws of the moving sprite: where it is after each tick, when it stops, and what trail it leaves. */
module TrailLaws {
  import opened Machine
  import opened VideoMemory
  import opened Graphics
  import opened Animation
  import opened Messages
  import opened Wrappers

  // ---------- Movement along one axis ----------

  /** Ticks needed to cover the distance, rounded up. */
  function TicksTo(start: uint16, target: uint16, speed: nat): nat
    requires start < target && speed >= 1
  {
    (target - start + speed - 1) / speed
  }

  lemma TicksToLeast(start: uint16, target: uint16, speed: nat)
    requires start < target && speed >= 1
    ensures var n := TicksTo(start, target, speed);
            n >= 1 && start + (n - 1) * speed < target <= start + n * speed
  {
  }

  function Min(a: int, b: int): int {
    if a < b then a else b
  }

  lemma {:induction false} AlongShort(start: uint16, target: uint16, speed: nat, k: nat)
    requires start + k * speed < target
    ensures Along(start, target, speed, k) == start + k * speed
  {
    if k > 0 {
      NextStep(k - 1, speed);
      AlongShort(start, target, speed, k - 1);
    }
  }

  lemma NextStep(k: nat, speed: nat)
    ensures (k + 1) * speed == k * speed + speed
  {
  }

  /** The coordinate after `k` ticks is `start + k * speed`, clamped, for every tick up to the last one; and
      that tick reaches the target exactly when its 16-bit sum does not wrap. */
  lemma MovementLaw(start: uint16, target: uint16, speed: nat, k: nat)
    requires start < target && 1 <= speed <= 0x7fff && k <= TicksTo(start, target, speed)
    ensures start + TicksTo(start, target, speed) * speed < 0x1_0000 ==>
      Along(start, target, speed, k) == Min(start + k * speed, target)
    ensures k == TicksTo(start, target, speed) ==>
      (Along(start, target, speed, k) == target <==> start + k * speed < 0x1_0000)
    ensures k < TicksTo(start, target, speed) ==> Along(start, target, speed, k) < target
  {
    var n := TicksTo(start, target, speed);
    TicksToLeast(start, target, speed);
    if k < n {
      Monotone(k, n - 1, speed);
      AlongShort(start, target, speed, k);
    } else {
      NextStep(n - 1, speed);
      AlongShort(start, target, speed, n - 1);
    }
  }

  // ---------- Stopping ----------

  lemma {:induction false} PrefixWithTicks(messages: seq<Message>, t: nat) returns (m: nat)
    requires t < Ticks(messages)
    ensures m < |messages| && Ticks(messages[..m]) == t
  {
    var init := messages[..|messages| - 1];
    if t < Ticks(init) {
      m := PrefixWithTicks(init, t);
      assert messages[..m] == init[..m];
    } else {
      m := |init|;
    }
  }

  predicate Unwrapped(motion: Motion)
    requires motion.Sensible()
  {
    if motion.Horizontal() then motion.xi + TicksTo(motion.xi, motion.xf, motion.speed) * motion.speed < 0x1_0000
    else motion.yi + TicksTo(motion.yi, motion.yf, motion.speed) * motion.speed < 0x1_0000
  }

  function TicksNeeded(motion: Motion): nat
    requires motion.Sensible()
  {
    if motion.Horizontal() then TicksTo(motion.xi, motion.xf, motion.speed)
    else TicksTo(motion.yi, motion.yf, motion.speed)
  }

  /** The sprite is at the target after the needed ticks, and not earlier, exactly when no sum wraps. */
  lemma ArrivesOnTimeIff(motion: Motion)
    requires motion.Sensible()
    ensures motion.Arrived(TicksNeeded(motion)) <==> Unwrapped(motion)
    ensures forall k | 0 <= k < TicksNeeded(motion) :: !motion.Arrived(k)
  {
    var start, target := if motion.Horizontal() then motion.xi else motion.yi,
                         if motion.Horizontal() then motion.xf else motion.yf;
    MovementLaw(start, target, motion.speed, TicksNeeded(motion));
    forall k | 0 <= k < TicksNeeded(motion)
      ensures !motion.Arrived(k)
    {
      MovementLaw(start, target, motion.speed, k);
    }
  }

  /** At each earlier tick of a run the sprite was drawn, and not yet at the target. */
  lemma RunningBefore(mode: ModeInfo, before: seq<uint8>, image: Sprite, motion: Motion, code: uint8,
                      messages: seq<Message>, position: Point, scancode: uint8, memory: seq<uint8>, t: nat)
    requires Run(mode, before, image, motion, code, messages, position, scancode, memory) && t < Ticks(messages)
    ensures !motion.Arrived(t) && Drawable(mode, SpriteBox(image, motion.At(t)))
  {
    hide Drawable;
    var m := PrefixWithTicks(messages, t);
    assert Running(mode, image, motion, code, messages[..m]);
  }

  /** A screen on which no sum can wrap before the sprite is past its sides. */
  predicate Moderate(mode: ModeInfo) {
    mode.xRes <= 0x8000 && mode.yRes <= 0x8000
  }

  lemma UnwrappedWhenModerate(mode: ModeInfo, image: Sprite, motion: Motion)
    requires motion.Sensible() && Moderate(mode) && Fits(mode, SpriteBox(image, Point(motion.xf, motion.yf)))
    ensures Unwrapped(motion)
  {
  }

  lemma LastStep(start: uint16, target: uint16, speed: nat)
    requires start < target && speed >= 1
    ensures var n := TicksTo(start, target, speed); n >= 1 && start + n * speed < target + speed
    ensures Along(start, target, speed, TicksTo(start, target, speed) - 1) + speed ==
            start + TicksTo(start, target, speed) * speed
  {
    var n := TicksTo(start, target, speed);
    TicksToLeast(start, target, speed);
    NextStep(n - 1, speed);
    AlongShort(start, target, speed, n - 1);
  }

  /** On a moderate screen, the frame before a wrap is already off it. */
  lemma WrapComesTooLate(mode: ModeInfo, image: Sprite, motion: Motion)
    requires motion.Sensible() && Moderate(mode) && !Unwrapped(motion) && image.width > 0 && image.height > 0
    ensures !Drawable(mode, SpriteBox(image, motion.At(TicksNeeded(motion) - 1)))
  {
    if motion.Horizontal() {
      LastStep(motion.xi, motion.xf, motion.speed);
    } else {
      LastStep(motion.yi, motion.yf, motion.speed);
    }
  }

  /** A run never handles more ticks than the motion needs, and one that ends without ESC and without a
      frame off the screen has handled exactly that many; on a moderate screen, always. */
  lemma RunStopsOnTime(mode: ModeInfo, before: seq<uint8>, image: Sprite, motion: Motion, code: uint8,
                       messages: seq<Message>, position: Point, scancode: uint8, memory: seq<uint8>)
    requires motion.Sensible()
    requires Unwrapped(motion) || (Moderate(mode) && image.width > 0 && image.height > 0)
    requires Run(mode, before, image, motion, code, messages, position, scancode, memory)
    ensures Ticks(messages) <= TicksNeeded(motion)
    ensures (!Running(mode, image, motion, code, messages) && scancode != KB_BREAK_ESC
             && Drawable(mode, SpriteBox(image, position))) ==> Ticks(messages) == TicksNeeded(motion)
  {
    hide Drawable;
    ArrivesOnTimeIff(motion);
    if Unwrapped(motion) {
      if TicksNeeded(motion) < Ticks(messages) {
        RunningBefore(mode, before, image, motion, code, messages, position, scancode, memory, TicksNeeded(motion));
      }
    } else {
      WrapComesTooLate(mode, image, motion);
      if TicksNeeded(motion) - 1 < Ticks(messages) {
        RunningBefore(mode, before, image, motion, code, messages, position, scancode, memory, TicksNeeded(motion) - 1);
      }
    }
  }

  /** On a large screen it can: from 65000 to 65500 in steps of 32767 the sum wraps at once, and the sprite
      jumps back to 32231. */
  lemma JumpsBack(mode: ModeInfo, image: Sprite)
    requires mode.xRes >= 65501 && mode.yRes >= 1 && image.width == 1 && image.height == 1
    ensures var motion := Motion(65000, 0, 65500, 0, 0x7fff);
            && motion.Sensible() && Fits(mode, SpriteBox(image, Point(motion.xf, motion.yf)))
            && TicksNeeded(motion) == 1 && !motion.Arrived(1) && motion.At(1) == Point(32231, 0)
  {
  }

  /** If the sprite fits at the target, every frame of the motion fits, so no redraw fails. */
  lemma EveryFrameFits(mode: ModeInfo, image: Sprite, motion: Motion, k: nat)
    requires motion.Sensible() && Fits(mode, SpriteBox(image, Point(motion.xf, motion.yf)))
    ensures Fits(mode, SpriteBox(image, motion.At(k)))
  {
  }

  // ---------- The trail in closed form ----------

  /** The column (or row) of the sprite that coordinate `c` shows after `k` ticks: under the sprite it is
      the sprite itself; behind it, the trail repeats with the period of the speed. */
  function Residue(start: uint16, target: uint16, speed: nat, k: nat, length: nat, c: int): Option<nat>
    requires speed >= 1
  {
    var now := Min(start + k * speed, target);
    if now <= c < now + length then Some(c - now)
    else if start <= c < now && (c - start) % speed < length then Some((c - start) % speed)
    else None
  }

  predicate Covers(start: uint16, target: uint16, speed: nat, k: nat, length: nat, c: int) {
    Along(start, target, speed, k) <= c < Along(start, target, speed, k) + length
  }

  lemma ResidueIsLastCover(start: uint16, target: uint16, speed: nat, k: nat, length: nat, c: int)
    returns (last: nat)
    requires start < target && 1 <= speed <= 0x7fff && k <= TicksTo(start, target, speed)
    requires start + TicksTo(start, target, speed) * speed < 0x1_0000
    ensures var r := Residue(start, target, speed, k, length, c);
            if r.Some? then last <= k && Covers(start, target, speed, last, length, c)
                            && r.value == c - Along(start, target, speed, last)
            else last == 0
    ensures forall m | (if Residue(start, target, speed, k, length, c).Some? then last + 1 else 0) <= m <= k ::
      !Covers(start, target, speed, m, length, c)
  {
    var now := Min(start + k * speed, target);
    forall m | 0 <= m <= k
      ensures Along(start, target, speed, m) == Min(start + m * speed, target) <= now
    {
      MovementLaw(start, target, speed, m);
      Monotone(m, k, speed);
    }
    var r := Residue(start, target, speed, k, length, c);
    if now <= c {
      last := if r.Some? then k else 0;
    } else if c < start {
      last := 0;
      forall m | 0 <= m <= k
        ensures !Covers(start, target, speed, m, length, c)
      {
        Monotone(0, m, speed);
      }
    } else {
      last := Frame(start, target, speed, k, length, c);
      if r.None? {
        last := 0;
      }
    }
  }

  /** Behind the sprite, the last frame that reached `c` is the last one that started at or before it. */
  lemma Frame(start: uint16, target: uint16, speed: nat, k: nat, length: nat, c: int) returns (q: nat)
    requires speed >= 1 && start <= c < Min(start + k * speed, target)
    requires forall m | 0 <= m <= k :: Along(start, target, speed, m) == Min(start + m * speed, target)
    ensures q <= k && c - Along(start, target, speed, q) == (c - start) % speed
    ensures forall m | q < m <= k :: Along(start, target, speed, m) > c
    ensures forall m | 0 <= m < q :: c - Along(start, target, speed, m) >= (c - start) % speed
  {
    q := (c - start) / speed;
    assert c - start == q * speed + (c - start) % speed;
    Monotone(k, q, speed);
    forall m | q < m <= k
      ensures Along(start, target, speed, m) > c
    {
      NextStep(q, speed);
      Monotone(q + 1, m, speed);
    }
    forall m | 0 <= m < q
      ensures c - Along(start, target, speed, m) >= (c - start) % speed
    {
      Monotone(m, q, speed);
    }
  }

  lemma LastWriterIs(mode: ModeInfo, image: Sprite, motion: Motion, n: nat, x: int, y: int, r: Option<nat>)
    requires r.Some? ==> r.value < n && Written(mode, SpriteBox(image, motion.At(r.value)), x, y)
    requires forall m | (if r.Some? then r.value + 1 else 0) <= m < n ::
      !Written(mode, SpriteBox(image, motion.At(m)), x, y)
    ensures LastWriter(mode, image, motion, n, x, y) == r
  {
  }

  /** Which byte of the sprite a pixel shows after `k` ticks, if any. */
  function TrailByte(image: Sprite, motion: Motion, k: nat, x: int, y: int): Option<int>
    requires motion.Sensible()
  {
    if motion.Horizontal() then
      match Residue(motion.xi, motion.xf, motion.speed, k, image.width, x)
      case Some(column) =>
        if motion.yi <= y < motion.yi + image.height then Some((y - motion.yi) * image.width + column) else None
      case None => None
    else
      match Residue(motion.yi, motion.yf, motion.speed, k, image.height, y)
      case Some(row) =>
        if motion.xi <= x < motion.xi + image.width then Some(row * image.width + (x - motion.xi)) else None
      case None => None
  }

  /** The picture after `k` ticks in closed form, with no reference to the frames in between. */
  lemma TrailInClosedForm(mode: ModeInfo, before: seq<uint8>, image: Sprite, motion: Motion, k: nat,
                          memory: seq<uint8>, x: int, y: int)
    requires motion.Sensible() && (Unwrapped(motion) || Moderate(mode)) && k <= TicksNeeded(motion)
    requires Fits(mode, SpriteBox(image, Point(motion.xf, motion.yf))) && image.Loaded()
    requires Trail(mode, before, image, motion, k + 1, memory) && mode.OnScreen(x, y)
    ensures var byte := TrailByte(image, motion, k, x, y);
            if byte.Some? then
              && 0 <= byte.value < |image.data|
              && PixelAt(mode, memory, x, y) == Stored(mode, image.data[byte.value])
            else PixelAt(mode, memory, x, y) == PixelAt(mode, before, x, y)
  {
    if Moderate(mode) {
      UnwrappedWhenModerate(mode, image, motion);
    }
    var last := LastFrameOver(mode, image, motion, k, x, y);
    LastWriterIs(mode, image, motion, k + 1, x, y, last);
    if last.Some? {
      var p := motion.At(last.value);
      DataIndexInside(image, x - p.x, y - p.y);
    }
  }

  lemma LastFrameOver(mode: ModeInfo, image: Sprite, motion: Motion, k: nat, x: int, y: int) returns (last: Option<nat>)
    requires motion.Sensible() && Unwrapped(motion) && k <= TicksNeeded(motion)
    requires Fits(mode, SpriteBox(image, Point(motion.xf, motion.yf))) && mode.OnScreen(x, y)
    ensures last.Some? ==> last.value <= k && Written(mode, SpriteBox(image, motion.At(last.value)), x, y)
    ensures forall m | (if last.Some? then last.value + 1 else 0) <= m < k + 1 ::
      !Written(mode, SpriteBox(image, motion.At(m)), x, y)
    ensures TrailByte(image, motion, k, x, y) ==
            if last.Some? then Some((y - motion.At(last.value).y) * image.width + (x - motion.At(last.value).x))
            else None
  {
    hide Written, Fits;
    var q;
    if motion.Horizontal() {
      q := ResidueIsLastCover(motion.xi, motion.xf, motion.speed, k, image.width, x);
    } else {
      q := ResidueIsLastCover(motion.yi, motion.yf, motion.speed, k, image.height, y);
    }
    last := if TrailByte(image, motion, k, x, y).Some? then Some(q) else None;
    WrittenWhereOver(mode, image, motion, q, x, y);
    forall m | (if last.Some? then last.value + 1 else 0) <= m < k + 1
      ensures !Written(mode, SpriteBox(image, motion.At(m)), x, y)
    {
      WrittenWhereOver(mode, image, motion, m, x, y);
    }
  }

  /** A frame that fits writes the pixels it covers along the motion, in the rows (or columns) it occupies. */
  lemma WrittenWhereOver(mode: ModeInfo, image: Sprite, motion: Motion, m: nat, x: int, y: int)
    requires motion.Sensible() && mode.OnScreen(x, y) && Fits(mode, SpriteBox(image, Point(motion.xf, motion.yf)))
    ensures Written(mode, SpriteBox(image, motion.At(m)), x, y) <==>
      if motion.Horizontal()
      then Covers(motion.xi, motion.xf, motion.speed, m, image.width, x) && motion.yi <= y < motion.yi + image.height
      else Covers(motion.yi, motion.yf, motion.speed, m, image.height, y) && motion.xi <= x < motion.xi + image.width
  {
  }
}
