/** The moving sprite: the event loop of `video_test_move` and the picture it leaves behind. */
module Animation {
  import opened Machine
  import opened VideoMemory
  import opened Graphics
  import opened Messages
  import opened Wrappers

  datatype Point = Point(x: uint16, y: uint16)

  /** A request names a motion to the right or downwards. */
  datatype Motion = Motion(xi: uint16, yi: uint16, xf: uint16, yf: uint16, speed: nat) {
    predicate Horizontal() {
      xi < xf && yi == yf
    }

    predicate Vertical() {
      xi == xf && yi < yf
    }

    predicate Sensible() {
      (Horizontal() || Vertical()) && 1 <= speed <= 0x7fff
    }

    function At(k: nat): (p: Point) {
      if Horizontal() then Point(Along(xi, xf, speed, k), yi) else Point(xi, Along(yi, yf, speed, k))
    }

    predicate Arrived(k: nat) {
      At(k) == Point(xf, yf)
    }
  }

  /** The coordinate after one timer tick: a 16-bit sum, clamped to the target. */
  function Advance(position: uint16, target: uint16, speed: nat): uint16 {
    var next := U16(position + speed);
    if next > target then target else next
  }

  function Along(start: uint16, target: uint16, speed: nat, k: nat): uint16 {
    if k == 0 then start else Advance(Along(start, target, speed, k - 1), target, speed)
  }

  function SpriteBox(image: Sprite, p: Point): Box {
    Box(p.x, p.y, image.width, image.height)
  }

  // ---------- Overlay order ----------

  /** The last of the first `n` frames that wrote pixel `(x, y)`. */
  function LastWriter(mode: ModeInfo, image: Sprite, motion: Motion, n: nat, x: int, y: int): (r: Option<nat>)
    ensures r.Some? ==> r.value < n && Written(mode, SpriteBox(image, motion.At(r.value)), x, y)
    ensures forall m | (if r.Some? then r.value + 1 else 0) <= m < n ::
      !Written(mode, SpriteBox(image, motion.At(m)), x, y)
  {
    if n == 0 then None
    else if Written(mode, SpriteBox(image, motion.At(n - 1)), x, y) then Some(n - 1)
    else LastWriter(mode, image, motion, n - 1, x, y)
  }

  /** Nothing is ever erased: a pixel shows the last frame that wrote it, or what was there before. */
  ghost predicate Trail(mode: ModeInfo, before: seq<uint8>, image: Sprite, motion: Motion, n: nat, after: seq<uint8>) {
    && IsFrame(mode, before)
    && IsFrame(mode, after)
    && forall x, y {:trigger PixelAt(mode, after, x, y)} | mode.OnScreen(x, y) ::
         PixelAt(mode, after, x, y) ==
         match LastWriter(mode, image, motion, n, x, y)
         case None => PixelAt(mode, before, x, y)
         case Some(k) => Stored(mode, image.InkAt(motion.At(k).x, motion.At(k).y).At(x, y))
  }

  lemma NextFrame(mode: ModeInfo, before: seq<uint8>, image: Sprite, motion: Motion, n: nat, middle: seq<uint8>,
                  after: seq<uint8>)
    requires Trail(mode, before, image, motion, n, middle)
    requires var p := motion.At(n); Painted(mode, middle, SpriteBox(image, p), image.InkAt(p.x, p.y), after)
    ensures Trail(mode, before, image, motion, n + 1, after)
  {
  }

  /** The loop goes on after these messages: no ESC, short of the target, last frame drawn. */
  predicate Running(mode: ModeInfo, image: Sprite, motion: Motion, code: uint8, messages: seq<Message>) {
    && ScancodeAfter(code, messages) != KB_BREAK_ESC
    && !motion.Arrived(Ticks(messages))
    && Drawable(mode, SpriteBox(image, motion.At(Ticks(messages))))
  }

  /** A run that has handled `messages`: it went on after every shorter prefix, it has drawn one frame at
      the start and one for each timer interrupt, and `position` and `scancode` are up to date. */
  ghost predicate Run(mode: ModeInfo, before: seq<uint8>, image: Sprite, motion: Motion, code: uint8,
                      messages: seq<Message>, position: Point, scancode: uint8, memory: seq<uint8>)
  {
    && position == motion.At(Ticks(messages))
    && scancode == ScancodeAfter(code, messages)
    && Trail(mode, before, image, motion, Ticks(messages) + 1, memory)
    && forall m | 0 <= m < |messages| :: Running(mode, image, motion, code, messages[..m])
  }

  lemma RunStarts(mode: ModeInfo, before: seq<uint8>, image: Sprite, motion: Motion, code: uint8, memory: seq<uint8>)
    requires IsFrame(mode, before)
    requires var p := motion.At(0); Painted(mode, before, SpriteBox(image, p), image.InkAt(p.x, p.y), memory)
    ensures Run(mode, before, image, motion, code, [], motion.At(0), code, memory)
  {
  }

  /** One more message: the scancode is replaced if one was typed, and a timer interrupt draws a frame. */
  lemma RunContinues(mode: ModeInfo, before: seq<uint8>, image: Sprite, motion: Motion, code: uint8,
                     messages: seq<Message>, message: Message, position: Point, scancode: uint8,
                     memory: seq<uint8>, position': Point, scancode': uint8, memory': seq<uint8>)
    requires Run(mode, before, image, motion, code, messages, position, scancode, memory)
    requires scancode != KB_BREAK_ESC && position != Point(motion.xf, motion.yf)
    requires Drawable(mode, SpriteBox(image, position))
    requires scancode' == if message.Hardware? && message.keyboard && message.typed.Some? then message.typed.value
                          else scancode
    requires position' == if !(message.Hardware? && message.timer) then position
                          else if motion.Horizontal()
                          then Point(Advance(position.x, motion.xf, motion.speed), position.y)
                          else Point(position.x, Advance(position.y, motion.yf, motion.speed))
    requires if message.Hardware? && message.timer
             then Painted(mode, memory, SpriteBox(image, position'), image.InkAt(position'.x, position'.y), memory')
             else memory' == memory
    ensures Run(mode, before, image, motion, code, messages + [message], position', scancode', memory')
  {
    hide Painted, Drawable, Trail, Ticks, ScancodeAfter;
    var longer := messages + [message];
    OneMore(code, messages, message);
    assert longer[..|messages|] == messages;
    assert forall m | 0 <= m < |messages| :: longer[..m] == messages[..m];
    if message.Hardware? && message.timer {
      NextFrame(mode, before, image, motion, Ticks(longer), memory, memory');
    }
  }

  lemma RunDecides(mode: ModeInfo, before: seq<uint8>, image: Sprite, motion: Motion, code: uint8,
                   messages: seq<Message>, position: Point, scancode: uint8, memory: seq<uint8>)
    requires Run(mode, before, image, motion, code, messages, position, scancode, memory)
    ensures Running(mode, image, motion, code, messages) <==>
      scancode != 0x81 && position != Point(motion.xf, motion.yf) && Drawable(mode, SpriteBox(image, position))
  {
  }

  /** The event loop, on a screen whose mode is set. It handles the shortest prefix of the messages after
      which it does not go on; it finishes with an error exactly when the last frame did not fit. */
  method VideoTestMove(screen: Screen, image: Sprite, motion: Motion, code: uint8, messages: seq<Message>)
    returns (outcome: Outcome, position: Point, scancode: uint8, handled: nat)
    requires screen.Valid() && image.Loaded() && 1 <= motion.speed <= 0x7fff
    modifies screen.videoMem
    ensures motion.Sensible() <==>
      (motion.yi == motion.yf && motion.xi < motion.xf) || (motion.xi == motion.xf && motion.yi < motion.yf)
    ensures !motion.Sensible() ==>
      outcome == Finished(1) && handled == 0 && scancode == code && screen.videoMem[..] == old(screen.videoMem[..])
    ensures handled <= |messages|
    ensures motion.Sensible() ==>
      Run(screen.mode, old(screen.videoMem[..]), image, motion, code, messages[..handled], position, scancode,
          screen.videoMem[..])
    ensures motion.Sensible() ==>
      if Running(screen.mode, image, motion, code, messages[..handled]) then outcome == Waiting && handled == |messages|
      else outcome == Finished(if Drawable(screen.mode, SpriteBox(image, position)) then 0 else 1)
  {
    hide Run, Running, Painted, Drawable, Sprite.Loaded, ModeInfo.Addressable, ModeInfo.FrameSize, Along, U16;
    ghost var mode, start := screen.mode, screen.videoMem[..];
    var horizontal;
    if motion.xi < motion.xf && motion.yi == motion.yf {
      horizontal := true;
    } else if motion.xi == motion.xf && motion.yi < motion.yf {
      horizontal := false;
    } else {
      return Finished(1), Point(motion.xi, motion.yi), code, 0;
    }
    var xi: uint16, yi: uint16 := motion.xi, motion.yi;
    scancode, handled := code, 0;
    var failed := screen.PrintXpm(image, xi, yi);
    AtStart(motion);
    RunStarts(mode, start, image, motion, code, screen.videoMem[..]);
    assert messages[..0] == [];
    if failed != 0 {
      RunDecides(mode, start, image, motion, code, messages[..0], Point(xi, yi), scancode, screen.videoMem[..]);
      return Finished(1), Point(xi, yi), scancode, handled;
    }
    while scancode != KB_BREAK_ESC && (xi < motion.xf || yi < motion.yf)
      invariant failed == 0 && handled <= |messages| && xi <= motion.xf && yi <= motion.yf
      invariant Drawable(mode, SpriteBox(image, Point(xi, yi)))
      invariant Run(mode, start, image, motion, code, messages[..handled], Point(xi, yi), scancode, screen.videoMem[..])
      decreases |messages| - handled
    {
      RunDecides(mode, start, image, motion, code, messages[..handled], Point(xi, yi), scancode, screen.videoMem[..]);
      if handled == |messages| {
        return Waiting, Point(xi, yi), scancode, handled;
      }
      ghost var position0, scancode0, memory0 := Point(xi, yi), scancode, screen.videoMem[..];
      var message := messages[handled];
      if message.Hardware? {
        if message.keyboard && message.typed.Some? {
          scancode := message.typed.value;
        }
        if message.timer {
          if horizontal {
            xi := U16(xi + motion.speed);
            if xi > motion.xf {
              xi := motion.xf;
            }
          } else {
            yi := U16(yi + motion.speed);
            if yi > motion.yf {
              yi := motion.yf;
            }
          }
          failed := screen.PrintXpm(image, xi, yi);
        }
      }
      RunContinues(mode, start, image, motion, code, messages[..handled], message, position0, scancode0, memory0,
                   Point(xi, yi), scancode, screen.videoMem[..]);
      assert messages[..handled] + [message] == messages[..handled + 1];
      handled := handled + 1;
      if failed != 0 {
        RunDecides(mode, start, image, motion, code, messages[..handled], Point(xi, yi), scancode, screen.videoMem[..]);
        return Finished(1), Point(xi, yi), scancode, handled;
      }
    }
    RunDecides(mode, start, image, motion, code, messages[..handled], Point(xi, yi), scancode, screen.videoMem[..]);
    return Finished(0), Point(xi, yi), scancode, handled;
  }

  lemma AtStart(motion: Motion)
    ensures motion.At(0) == Point(motion.xi, motion.yi)
  {
  }
}
