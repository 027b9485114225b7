# Verified model of the space-invaders-c drivers, renderer and formation

The repository drives PC hardware under MINIX: a VBE linear frame buffer, the i8042 keyboard and mouse
controller, the i8254 timer, and on top of them a Space Invaders game. This project models that code in
Dafny and proves what it computes, including on its failure paths.

- **Renderer** (`VideoMemory`, `Graphics`, `Colors`, `Pattern`, `Animation`, `TrailLaws`, `WrapLaws`). Video
  memory is an array of bytes; `PixelAt` reads the picture off it, and the picture determines every byte
  (`PictureDeterminesMemory`), so a contract about all pixels also says that no other byte changed. Each
  drawing method is proved against `Written`, the exact set of pixels drawn before the first one off the
  screen. The moving sprite is an event loop whose result is a last-writer-wins overlay of all its frames,
  and, when no 16-bit sum wraps, a closed form with no reference to the frames in between.
- **Mouse** (`Packets`, `Resync`, `Mouse`, `MouseLaws`). The interrupt loop refines a recursive framing of the
  byte stream; framing composes over concatenation, loses no byte, inverts the encoder, and gets back in step
  after a loss under an exact condition.
- **Controller handshakes** (`Kbc`, `Keyboard`). `Kbc` records every port operation and proves properties of
  the whole trace, for every device and any number of rounds; `Keyboard` drives a model of the i8042 with
  arbitrary delays and failing system calls.
- **Timer and idle timeout** (`Timer`, `IdleTimeout`, `Messages`). The port writes run on a model of the i8254
  with per-counter state, byte flip-flop and status latch; the contracts cover every place at which a system
  call can fail.
- **Enemy formation** (`Formation`, `FormationLaws`). The arrays of the game refine one moving body, and the
  timer branch of the game loop runs on it; the laws hold for every run of every game, whichever enemies are
  shot and when.

Results where the code does not do what it is for on all inputs, each with its exact condition and an input
on which it fails:

- `vram_size` wraps at 32 bits; all pixels stay inside the mapping if and only if it does not wrap
  (`MappingHoldsFrameIff`). A mode of 32768 by 32768 pixels of 32 bits maps nothing (`MappingOfNothing`).
- The moving sprite reaches its target on the expected tick if and only if its last 16-bit sum does not wrap
  (`ArrivesOnTimeIff`), and at all if and only if `ArrivesEventuallyIff` holds. On screens of at most 32768
  pixels a side, such as the 1024 by 768 of mode 0x105, no wrap shows in any run (`RunStopsOnTime`,
  `TrailInClosedForm`); on larger ones it can (`JumpsBack`).
- At an interrupt without a readable byte the mouse loop takes the byte before once more; the bytes framed are
  those of the mouse if and only if there is no such interrupt (`EveryByteOnceIff`), and a packet can be printed
  that was never sent (`NeverSent`).
- A byte lost from the mouse stream leaves the packets printed out of step until `RealignsIff`, which may be
  never (`NeverInStep`).
- `kb_restore_settings` reads whatever byte is queued first: it keeps the other bits of the command byte in
  every successful run, and enables interrupts in every one whose last, unpolled, write arrives, if and only if
  the queue is harmless (`RestoresIffHarmless`). With the scancode 0x1C queued it returns 0 and leaves 0x1D
  (`RestoreAfterKeyPress`).
- `timer_set_frequency` keeps the BCD bit but sends the count in binary: the requested frequency comes out if
  and only if the counter is binary or the divisor is a single digit (`FrequencyReachedIff`); 60 Hz in decimal
  is no divisor at all (`SixtyHertzInDecimal`).
- `kbc_command_handler` never returns if and only if nothing gets stuck and the device never decides
  (`NeverReturnsIff`); a mouse that delivers nothing but zeroes keeps it writing for ever (`RetriesForEver`).
- `move_enemies` takes every sprite to be 40 pixels wide; they are 45 and 51. They stay between the sides of
  the screen if and only if its width passes `SidesHold`: 1152, the width of the game's mode, does, 1024 does
  not, and at 650 the first frame already fails (`NeverOffTheSidesIff`, `WidthsOfModes`).
- Nothing but the screen stops the formation at the bottom: a survivor is drawn if and only if its row and
  the drops leave room for it (`DrawnIff`), and so every game is over after boundedly many frames (`NewGame`).

Conventions. A C global is a field of the class that stands for its file. Device and kernel behaviour is a
parameter: an arbitrary function of the operation number, or a sequence of messages. `Waiting` is a loop
blocked in `driver_receive` after the last message. Shifts such as `1 << n` are taken in `int`, so functions
that use them ask for `n <= 30`. `graphic.h` swaps the names of the first two parameters of `dir_mode` and
`idx_mode`; the model follows `graphic.c`, column first. Sizes `xRes * yRes` are asked to fit in `int`, in
which the code multiplies them, and pixels to be at most the four bytes of a colour, from which they are
copied. `kbc_command_handler` has no bound on its rounds, so the model takes the number of rounds it is watched
for, and `Retrying` means that it goes on.

## Model

| member | source | states |
|---|---|---|
| VideoMemory.NumberOfBytes | lab5/graphic.c:54-55 | the bytes copied for a colour, read back little-endian, are the colour modulo 256 to the number of bytes |
| VideoMemory.BytesAreDigits | lab5/graphic.c:54-55 | byte k of a colour is its k-th digit to the base 256 |
| VideoMemory.PixelInWholeBytes | lab5/graphic.c:26 | the bytes of a pixel are the least number of whole bytes with room for BitsPerPixel bits |
| VideoMemory.PixelBytesInside | lab5/graphic.c:53-54 | every pixel on the screen owns bytes inside the frame |
| VideoMemory.PixelBytesDisjoint | lab5/graphic.c:53-54 | two different pixels share no byte |
| VideoMemory.PixelBytesCover | lab5/graphic.c:26-27 | every byte of the frame belongs to a pixel on the screen |
| VideoMemory.MappingHoldsFrameIff | lab5/graphic.c:26-27 | with 32-bit address and size arithmetic, all pixel writes stay inside the mapping iff the frame size is below 2^32 |
| VideoMemory.MappingOfNothing | lab5/graphic.c:26-27 | a mode with 2^32 bytes of frame gets a mapping of size zero, which pixel (0, 0) is outside of |
| VideoMemory.PictureDeterminesMemory | lab5/graphic.c:48-57 | two memories that show the same picture are equal byte for byte |
| VideoMemory.WrittenIsRowMajorPrefix | lab5/graphic.c:95-100 | the written set is exactly the pixels that, with everything before them in row-major order, are on the screen |
| VideoMemory.DrawableIffAllLand | lab5/graphic.c:66-71 | a box is drawn without error iff each of its pixels lands on the screen |
| VideoMemory.OnePixelPainted | lab5/graphic.c:55 | overwriting the bytes of one pixel changes that pixel to the stored colour and no other |
| Graphics.Screen.SetFrameBuffer | lab5/graphic.c:21-46 | with n the least number of whole bytes for BitsPerPixel bits, the mapping has xRes * yRes * n bytes modulo 2^32, and supports the contracts below iff that size did not wrap; failures leave the old mapping |
| Graphics.Screen.DrawPixel | lab5/graphic.c:48-57 | with that n, byte (xRes * y + x) * n + k becomes digit k of the colour for k < n and no other byte changes; off the screen it returns 1 and changes nothing |
| Graphics.Screen.DrawHLine | lab5/graphic.c:59-64 | returns 0 iff empty or on the screen; otherwise exactly the part on the screen is drawn; 16-bit truncation of `x+i` never shows |
| Graphics.Screen.DrawRectangle | lab5/graphic.c:66-71 | returns 0 iff empty or fitting; on failure draws exactly the clipped first row, or all rows on the screen; the rest of memory is unchanged |
| Graphics.Screen.PrintXpm | lab5/graphic.c:92-102 | the same for a sprite, pixel `(x+i, y+j)` getting byte `j*w+i` of the image |
| Colors.NormColorIsStored | lab5/graphic.c:73-77 | the normalised colour is the colour modulo 2^BitsPerPixel and a pixel stores it unchanged |
| Colors.LowIsMask | lab5/graphic.c:75 | masking with 2^s - 1 keeps the s lowest bits |
| Colors.DirModeFields | lab5/graphic.c:80-85 | each field of a direct colour is its field in `first` plus k*step modulo the field, with no trace of the 32-bit wrap-around |
| Colors.DirModeElsewhere | lab5/graphic.c:84 | bits outside the three fields are zero |
| Colors.IdxModeCounts | lab5/graphic.c:88-90 | the indexed colour is first + (row*n + col)*step modulo 2^BitsPerPixel, with no trace of the wrap-around, and is stored unchanged |
| Pattern.VideoTestRectangle | lab5/lab5.c:94-97 | each pixel of the rectangle reads back as the colour modulo 2^BitsPerPixel; all others are unchanged |
| Pattern.VideoTestPattern | lab5/lab5.c:110-125 | no rectangle draw fails, and with h and v the largest sizes of which n fit the screen, each pixel with x < n*h and y < n*v shows tile (x/h, y/v) and every other one the old picture, also for h = 0 or v = 0 |
| Pattern.TileIsLargest | lab5/lab5.c:110-111 | the quotient is the one size of which n fit and no larger, so fewer than n columns or rows are left over |
| Pattern.TileDrawable | lab5/lab5.c:123 | no coordinate of a tile is truncated and every tile is on the screen |
| Pattern.IndexedPattern | lab5/lab5.c:121-123 | in an indexed mode a pixel of the pattern holds first + (row*n + col)*step modulo the number of colours |
| Pattern.DirectPattern | lab5/lab5.c:118-123 | in a direct mode red counts along columns, green along rows, blue along both, in the stored pixel |
| Animation.VideoTestMove | lab5/lab5.c:151-216 | takes the requests with one coordinate increasing and the other fixed; handles the shortest prefix of messages after which it must stop; one frame at the start and one per tick; the picture is the last-writer overlay of all frames; fails iff the last frame does not fit; other requests draw nothing |
| Animation.LastWriter | lab5/lab5.c:176-211 | names a frame that wrote the pixel such that no later frame did, or none if no frame did |
| Animation.RunContinues | lab5/lab5.c:181-216 | one message keeps the run relation: scancode replaced if typed, position advanced and frame overlaid on a tick |
| TrailLaws.MovementLaw | lab5/lab5.c:197-205 | after k ticks the coordinate is min(start + k*speed, target); the last tick reaches the target iff its 16-bit sum does not wrap |
| TrailLaws.ArrivesOnTimeIff | lab5/lab5.c:181-205 | the sprite is at the target after ceil(distance/speed) ticks iff no sum wraps, and never earlier |
| TrailLaws.UnwrappedWhenModerate | lab5/lab5.c:197-205 | on a screen of at most 32768 pixels a side, a motion whose sprite fits at the target never wraps |
| TrailLaws.RunStopsOnTime | lab5/lab5.c:181-216 | a run handles at most ceil(distance/speed) ticks, and exactly that many when it ends without ESC or error; on a screen of at most 32768 pixels a side for every motion, because a frame off the screen comes before a wrap |
| TrailLaws.JumpsBack | lab5/lab5.c:197-205 | on a screen 65501 pixels wide, a motion from 65000 to 65500 in steps of 32767 fits at its target, is due after one tick, and is at 32231 then |
| TrailLaws.EveryFrameFits | lab5/lab5.c:197-211 | if the sprite fits at the target, every frame fits |
| TrailLaws.ResidueIsLastCover | lab5/lab5.c:197-211 | along the motion, the last frame covering a coordinate is given by a remainder modulo the speed |
| TrailLaws.TrailInClosedForm | lab5/lab5.c:176-211 | the picture after k ticks in closed form, when no sum wraps, and on any screen of at most 32768 pixels a side: the sprite where it is, behind it a trail with period `speed`, the old picture elsewhere |
| WrapLaws.ArrivesEventuallyIff | lab5/lab5.c:197-205 | with any number of wraps, the sprite is at its target at some tick iff the largest 16-bit number congruent to the start modulo the largest power of two in the speed is at least the target |
| WrapLaws.FreeAtMost | lab5/lab5.c:199 | no 16-bit sum passes that number |
| WrapLaws.FreeGetsThere | lab5/lab5.c:199 | some 16-bit sum is that number |
| WrapLaws.OddSpeedsArrive | lab5/lab5.c:197-205 | odd speeds always arrive; from 0 to 65535 in steps of two the sprite never does |
| Packets.SignExtension | lab4/m_interrupts.c:34-40 | a delta is its low byte, less 256 when the sign bit is set |
| Packets.ParseEncode | lab4/m_interrupts.c:28-43 | decoding an encoded report gives the report back, for deltas in [-256, 255] and any flags |
| Packets.EncodeParse | lab4/m_interrupts.c:28-43 | encoding a decoded packet gives its three bytes back |
| Packets.Conservation | lab4/lab4.c:79-111 | every byte is skipped, in a packet, or in the incomplete packet at the end |
| Packets.InPieces | lab4/lab4.c:79-111 | framing a concatenation is framing its pieces with the incomplete packet carried over |
| Packets.OneByteMore | lab4/lab4.c:79-111 | what one more byte does: skipped, kept, or completing a packet |
| Packets.RoundTrip | lab4/lab4.c:79-111 | any reports sent, with any noise with bit 3 clear before each and after the last, are received exactly |
| Resync.RealignsIff | lab4/lab4.c:79-111 | after any bytes, well-formed packets get the framing back in step iff, by the bytes held, some third byte has bit 3 clear, or some second byte and then a third byte have |
| Resync.OnePacket | lab4/lab4.c:79-111 | what is held after one well-formed packet, for each number of bytes held before it |
| Resync.InStepAgain | lab4/lab4.c:79-111 | once in step, the packets printed are the packets sent |
| Resync.NeverInStep | lab4/lab4.c:79-111 | after the first byte of a packet of three bytes 0x08 is lost, no number of such packets gets the framing back in step |
| Mouse.Driver.MouseIh | lab4/m_interrupts.c:50-56 | `data` becomes the byte read iff both reads succeed, bit 0 of the status is set and bits 6 and 7 are clear, and is kept otherwise |
| Mouse.Driver.ParsePacket | lab4/m_interrupts.c:28-48 | the struct filled is the decoding of the three bytes |
| Mouse.Driver.StoreByte | lab4/lab4.c:98-111 | the byte joins the packet in progress; the third one prints the packet and empties the buffer |
| Mouse.ProgressByInterrupt | lab4/lab4.c:77-111 | each branch of the loop body keeps the loop invariant; an unsynchronised packet can only be one left by an earlier run |
| Mouse.Driver.TestPacket | lab4/lab4.c:60-112 | prints exactly the packets of the byte stream, stops after the shortest prefix that completes `cnt`, and then with an empty buffer |
| MouseLaws.InterruptsConserved | lab4/lab4.c:74-111 | interrupts = skipped bytes + 3 * packets + bytes in the buffer (+ 1 if an old packet was dropped) |
| MouseLaws.DeliversReports | lab4/lab4.c:60-112 | if the bytes taken transmit some reports with noise, the printed packets carry exactly those reports, with their bytes, in order |
| MouseLaws.EveryByteOnceIff | lab4/m_interrupts.c:50-56 | the loop works on the bytes of the mouse, each once, iff every interrupt finds a clean status and reads its byte |
| MouseLaws.DeliversWhatIsSent | lab4/lab4.c:60-112 | if every interrupt does and the bytes read transmit some reports with noise, the printed packets carry exactly those reports, with their bytes, in order |
| MouseLaws.NeverSent | lab4/lab4.c:77-111 | one byte 0x08 and two interrupts without a status make a packet that the mouse never sent |
| Kbc.Controller.CheckInBuf | lab4/kb_controller.c:38-44 | true iff the status was read and its bit 1 is clear |
| Kbc.WritesAre | lab4/kb_controller.c:46-76 | the writes read off a trace are its successful writes, and no others |
| Kbc.AnswersAre | lab4/kb_controller.c:89-93 | the answers read off a trace are what its successful reads of port 0x60 returned, and no others |
| Kbc.Controller.PollAndWrite | lab4/kb_controller.c:46-60 | at most three polls; the write happens iff one of three polls finds the buffer empty, immediately after the first such poll; success iff it is accepted; the number of operations it takes |
| Kbc.SendsIff | lab4/kb_controller.c:46-60 | a polled write goes through iff one of three polls is the first to find the buffer empty and the write right after it is accepted |
| Kbc.Controller.MouseWriteCommand | lab4/kb_controller.c:78-99 | a polled write and one read of the answer; where it fails the last operation is the one that got stuck; success iff the device lets all of them through, and then the answer is what the device had at that operation |
| Kbc.Controller.CommandHandler | lab4/kb_controller.c:101-134 | for every device, command and number of rounds: every write follows a clear poll; for the mouse, success iff the answers end in an accepted ACK, one pair of writes per answer and nothing else, and it is still retrying iff no round of the device got stuck and its answers decide nothing; for the command byte, one pair of writes and an end in the first round; for other commands, copies of the command byte until one gets stuck |
| Kbc.AnotherRound | lab4/kb_controller.c:104-130 | what one round makes of the state, by the answer |
| Kbc.RetryProtocol | lab4/kb_controller.c:109-130 | with answers ACK, NACK, ERROR only and nothing stuck: one to three rounds, each a write of 0xD4 to port 0x64 and of the argument to port 0x60; success iff the last answer is ACK, all earlier ones NACK |
| Kbc.ConfigWrites | lab4/kb_controller.c:122-129 | a command byte that gets through is a write of 0x60 to port 0x64 and of the byte to port 0x60 |
| Kbc.PollBound | lab4/kb_controller.c:46-130 | at most 18 status polls, and six more per stray answer |
| Kbc.RoundOver | lab4/kb_controller.c:104-130 | one round with a device: either the state between rounds is kept, with one more of its answers, or the command is over because of what the device did |
| Kbc.RoundsNeedStrays | lab4/kb_controller.c:116-130 | after n rounds without an end at least n - 2 answers were strays, so the handler returns if strays stop |
| Kbc.NeverReturnsIff | lab4/kb_controller.c:101-134 | the handler never returns iff no operation of it gets stuck, no answer it reads is ACK or ERROR, and not three are NACK |
| Kbc.RetriesForEver | lab4/kb_controller.c:104-130 | a mouse that delivers only zeroes: for every n a trace of that device with n answers and 2n writes between rounds |
| Kbc.PendingLength | lab4/kb_controller.c:116-130 | while pending, every answer is a NACK or a stray |
| Keyboard.Driver.WriteCommand | lab3/kb_controller.c:55-83 | at most ten polls; without faults it succeeds iff the controller is ready within ten, and the command then reaches it |
| Keyboard.Driver.ReadKeyboardOutput | lab3/kb_controller.c:3-52 | at most ten polls; takes the first queued byte; succeeds iff it came without error from the right device, and delivers it even when it fails |
| Keyboard.Driver.KbcIh | lab3/kb_interrupts.c:6-11 | the scancode becomes the first queued byte if one shows within ten polls, also when it is in error, and is kept otherwise |
| Keyboard.Driver.RestoreSettings | lab3/kb_interrupts.c:44-76 | the exact command byte left by a successful restore; a failed one leaves it alone; at most thirty polls; without faults it returns 0 iff the controller is ready, the first byte shows, clean and from the keyboard, and the controller is ready again, each within ten reads |
| Keyboard.RestoresIffHarmless | lab3/kb_interrupts.c:54-73 | every successful run keeps all bits but the first, and every one whose last write arrives leaves old \| 1, iff the output buffer is empty before the call, or the restore must fail, or the byte in front agrees with the command byte |
| Keyboard.EmptyBufferIsSafe | lab3/kb_interrupts.c:54-73 | with an empty output buffer a successful restore keeps all other bits, and leaves old \| 1 iff its last write arrives or interrupts were on |
| Keyboard.RestoreAfterKeyPress | lab3/kb_interrupts.c:44-76 | a run over a queued scancode 0x1C returns 0 and turns command byte 0x64 into 0x1D |
| Timer.Driver.GetConf | lab5/timer.c:96-116 | the chip after any number of successful system calls, no other counter touched; status 0 iff both succeed, with the latched status of the chosen counter |
| Timer.Driver.SetFrequency | lab5/timer.c:11-63 | status 0 iff timer <= 2, 19 <= freq <= 1193182 and none of the five system calls fails; then the chosen counter holds 1193182 / freq in two-byte access with its mode and base kept, and the others are as they were; other arguments change nothing; and the chip at the first failing call is one of six stages |
| Timer.ThreeWrites | lab5/timer.c:23-60 | control word, low byte and high byte leave the count loaded whole in two-byte access with the flip-flop as it was |
| Timer.DivisorIsQuotient | lab5/timer.c:53-57 | the 16-bit count is the quotient of the input clock by the frequency, without truncation |
| Timer.BytesRejoin | lab5/utils.c:5-25 | the two bytes sent make up the 16-bit count |
| Timer.HistoryKeepsProgramming | lab5/timer.c:11-116 | in every history of status reads and frequency changes, with any system calls failing, every counter keeps its mode and base |
| Timer.RepairedByNextCall | lab5/timer.c:11-63 | after a call that failed at any stage, the next successful one programs the counter as if it had not been made |
| Timer.FrequencyReachedIff | lab5/timer.c:23-60 | the counter divides by the requested divisor iff it is binary or the divisor is below ten |
| Timer.SixtyHertzInDecimal | lab5/timer.c:23-60 | a decimal counter asked for 60 Hz is loaded with digits above nine |
| Timer.DisplaysProgramming | lab5/timer.c:118-171 | the displayed fields of a status are the whole byte, and the access, mode and base the chip was programmed with |
| IdleTimeout.Listener.TimedScan | lab3/lab3.c:116-149 | handles the shortest prefix of messages after which ESC was typed or the idle allowance is used up; `time_elapsed` counts the multiples of 60 passed since the last key |
| IdleTimeout.RunContinues | lab3/lab3.c:125-143 | one message keeps the run relation, keyboard first and tick second |
| IdleTimeout.TimesOutOnTime | lab3/lab3.c:116-149 | a run that times out has been idle for exactly 60n - (c mod 60) ticks, c the counter at the last key; so between 60(n-1)+1 and 60n |
| Formation.Game.InitEnemies | proj/src/game/enemies/enemies.c:9-25 | the array shows the full formation at home; direction, drop flag and move timer stay as the game before left them |
| Formation.Game.MoveEnemies | proj/src/game/enemies/enemies.c:80-117 | the formation moves as one: turn at the edge, drop after a turn, step sideways otherwise |
| Formation.Game.CountActiveEnemies | proj/src/game/enemies/enemies.c:120-126 | the number of enemies that are left |
| Formation.Game.CheckBulletEnemyCollision | proj/src/game/game_state.c:18-42 | nobody is shot iff no active bullet has a pixel in common with the box of an enemy that is left; otherwise it is the first enemy of the first such bullet, and they alone go |
| Formation.OverlapsIff | proj/src/game/game_state.c:26-29 | the four comparisons hold iff the boxes have a pixel in common |
| Formation.ShotDecided | proj/src/game/game_state.c:18-42 | the bullets of a frame leave no choice of whom they shoot |
| Formation.NobodySpared | proj/src/game/game_state.c:18-42 | if an active bullet has a pixel in common with an enemy that is left, somebody is shot |
| Formation.NobodyShotByMiss | proj/src/game/game_state.c:18-42 | whoever is shot was left and had a pixel in common with an active bullet, and that one alone is used up |
| Formation.Game.EnemiesMoving | proj/src/game/game_state.c:109-115 | every thirtieth call marches |
| Formation.Game.DrawAllEnemies | proj/src/game/enemies/enemies.c:29-56 | 0 iff the sprite of every survivor, with its real size at its 16-bit coordinates, fits the screen |
| Formation.Game.Step | proj/src/game/game_state.c:154-200 | one timer interrupt is one tick of the formation: it marches on the thirtieth frame, and then exactly the enemy is shot whom the bullets of the frame meet first, where it is by then; that bullet alone is used up |
| Formation.Game.Play | proj/src/game/game_state.c:127-207 | the loop goes on exactly while everybody left is drawn, the ship is not hit and somebody is left; in each frame the enemy shot is the one its bullets meet first; it returns 1 iff a survivor cannot be drawn |
| FormationLaws.BetweenAlways | proj/src/game/enemies/enemies.c:80-117 | in every run, survivors stay on the grid, at least 20 pixels from the left and not past the last grid position before the right edge |
| FormationLaws.NeverOffTheSidesIff | proj/src/game/enemies/enemies.c:29-117 | no survivor's sprite leaves the screen sideways in any game, from either direction and drop flag, iff XResolution >= 651 and (XResolution - 1) mod 20 >= 10 |
| FormationLaws.UndisturbedGameFails | proj/src/game/game_state.c:173-177 | on any other screen the first game in which nobody is shot comes to a frame that cannot be drawn |
| FormationLaws.WidthsOfModes | proj/src/game/enemies/enemies.c:29-43 | 1152 passes and 1024 does not; at 650 the box of enemy 17 in the first frame is off the screen |
| FormationLaws.TurnsAtTwenty | proj/src/game/enemies/enemies.c:85-98 | the left bound is reached and turns the formation: four undisturbed marches take enemy 0 to 20, the fifth turns it round |
| FormationLaws.OneDropATurn | proj/src/game/enemies/enemies.c:94-114 | after the turn one march drops the formation by 40, and the next goes the other way |
| FormationLaws.MarchesPaidFor | proj/src/game/enemies/enemies.c:80-117 | marches made are bounded by the drops made, for any pattern of shots |
| FormationLaws.InvasionAdvances | proj/src/game/enemies/enemies.c:94-114 | while one enemy survives, every 2 + XResolution/20 marches drop the formation once more |
| FormationLaws.NeverTruncated | proj/src/game/enemies/enemies.c:29-43 | while every frame is drawn, no coordinate of a survivor is changed by its conversion to 16 bits |
| FormationLaws.DrawnIff | proj/src/game/enemies/enemies.c:29-43 | after frames that were all drawn, a survivor can be drawn iff 50 + 80*row + 40*drops + 34 <= YResolution and its right side is on the screen |
| FormationLaws.MarchesBounded | proj/src/game/game_state.c:173-177 | if every frame was drawn, a survivor has made no more drops than it has room for, and the marches are below the bound that this gives |
| FormationLaws.StillPlayedMeansShort | proj/src/game/game_state.c:127-207 | a game that is still played after a frame has had fewer frames than a bound from the screen alone |
| FormationLaws.NewGame | proj/src/main.c:114-121 | a new game, from whatever the game before left, is a run from home with the shots of its bullets, and is over after that many frames |

## Left out

- Setting the mode, mapping, subscribing and unsubscribing, `vg_exit` and `waiting_ESC` around the drawing loops: system calls with no logic of their own.
- Enabling and disabling data reporting around the mouse loop: the commands are `Kbc.Controller.CommandHandler`; the loop is modelled between them.
- `tickdelay` and all printing: no effect on the modelled state.
- `kbc_write_argument` and the polling part of `mouse_write_command`: the same loop as `kbc_write_command` on another port, modelled once as `Kbc.Controller.PollAndWrite`.
- Animation.VideoTestMove: zero or negative speeds, for which the loop has no end.
- IdleTimeout.Listener.TimedScan: overflow of the `int` tick counter after 2^31 ticks.
- Keyboard.Driver.RestoreSettings: bytes that arrive while it runs; those queued before it are covered.
- Timer.Driver.SetFrequency: the running count and the counter latch command, which it does not use.
- The read-back and counter state beyond control, pins, count, flip-flop and latched status.
- XPM parsing (`xpm_load`): a sprite is an arbitrary array of width times height bytes.
- Formation.Game.Play: keyboard interrupts and ESC, which end the loop without touching the formation; where the bullets are and whether the ship is hit are inputs of each frame; drawing the ship and the bullets, which can also end the loop.
- The rest of the game (menu, scores, shields, back buffer): bounded case analysis over the same drawing calls, which would add easier members.
- `kbd_test_scan`, `kbd_test_poll`, `timer_test_int` and the per-lab copies of the same drivers: the same logic again.
