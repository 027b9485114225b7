/** Programming the i8254, against a model of the chip (Intel 8254 data sheet: control word format, write
    and read operations, read-back command). */
module Timer {
  import opened Machine
  import opened Wrappers

  const TIMER_FREQ := 1193182
  const TIMER_0 := 0x40
  const TIMER_CTRL := 0x43
  const TIMER_RB_CMD: bv8 := 0xC0
  const TIMER_RB_COUNT_: bv8 := 0x20
  const TIMER_LSB_MSB: bv8 := 0x30
  const TIMER_BCD: bv8 := 0x01

  // ---------- The chip ----------

  datatype Latch = Empty | Status(value: bv8)

  /** One counter: bits 5-0 of the control word that programmed it (access, mode, BCD), bits 7-6 of its
      status (output pin, null count), the count written to it, the byte flip-flop (`half` after the first
      byte of two), and a status latched by a read-back command. */
  datatype Counter = Counter(control: bv8, pins: bv8, count: bv16, half: bool, low: bv8, latch: Latch) {
    function Access(): bv8 {
      (control >> 4) & 3
    }

    function Mode(): bv8 {
      (control >> 1) & 7
    }

    function Bcd(): bool {
      control & 1 != 0
    }

    function StatusByte(): bv8 {
      (pins & 0xC0) | (control & 0x3F)
    }

    function LatchStatus(): Counter {
      if latch.Empty? then this.(latch := Status(StatusByte())) else this
    }

    function Program(word: bv8): Counter {
      this.(control := word & 0x3F, half := false, pins := NullCount(pins))
    }

    function Load(value: bv8): Counter {
      if Access() == 1 then this.(count := value as bv16, pins := NullCount(pins))
      else if Access() == 2 then this.(count := value as bv16 << 8, pins := NullCount(pins))
      else if half then this.(count := (value as bv16 << 8) | low as bv16, half := false, pins := NullCount(pins))
      else this.(low := value, half := true)
    }
  }

  /** A new control word or count raises the null-count bit of the status. */
  function NullCount(pins: bv8): bv8 {
    pins | 0x40
  }

  type Chip = c: seq<Counter> | |c| == 3 witness seq(3, i => Counter(0, 0, 0, false, 0, Empty))

  /** A write to the control register: a read-back command, or the programming of one counter. A counter
      latch command (access 0) changes nothing that is modelled. */
  function WriteControl(chip: Chip, word: bv8): Chip {
    if word & 0xC0 == 0xC0 then
      if word & 0x10 == 0 then
        [ if word & 0x02 != 0 then chip[0].LatchStatus() else chip[0],
          if word & 0x04 != 0 then chip[1].LatchStatus() else chip[1],
          if word & 0x08 != 0 then chip[2].LatchStatus() else chip[2] ]
      else chip
    else if word & 0x30 == 0 then chip
    else if word & 0xC0 == 0 then chip[0 := chip[0].Program(word)]
    else if word & 0xC0 == 0x40 then chip[1 := chip[1].Program(word)]
    else chip[2 := chip[2].Program(word)]
  }

  function WritePort(chip: Chip, port: nat, value: bv8): Chip {
    if port == TIMER_CTRL then WriteControl(chip, value)
    else if TIMER_0 <= port < TIMER_CTRL then chip[port - TIMER_0 := chip[port - TIMER_0].Load(value)]
    else chip
  }

  /** What a read of a counter's port returns: a latched status first, and otherwise some byte of the
      running count, which the model does not know. */
  function ReadPort(chip: Chip, port: nat, running: bv8): bv8 {
    if TIMER_0 <= port < TIMER_CTRL && chip[port - TIMER_0].latch.Status? then chip[port - TIMER_0].latch.value
    else running
  }

  function AfterRead(chip: Chip, port: nat): Chip {
    if TIMER_0 <= port < TIMER_CTRL then chip[port - TIMER_0 := chip[port - TIMER_0].(latch := Empty)] else chip
  }

  // ---------- The driver ----------

  predicate Acceptable(timer: uint8, freq: uint32) {
    timer <= 2 && 19 <= freq <= TIMER_FREQ
  }

  /** The status that `timer_get_conf` obtains: a stale latched one if there is one. */
  function Reported(c: Counter): bv8 {
    if c.latch.Status? then c.latch.value else c.StatusByte()
  }

  lemma DivisorInRange(freq: uint32)
    requires 19 <= freq <= TIMER_FREQ
    ensures 1 <= TIMER_FREQ / freq <= 62799
  {
  }

  /** `TIMER_FREQ / freq`, as the 16-bit argument of the byte extractors. */
  function Divisor(freq: uint32): bv16
    requires 19 <= freq <= TIMER_FREQ
  {
    DivisorInRange(freq);
    (TIMER_FREQ / freq) as bv16
  }

  /** `util_get_LSB` and `util_get_MSB`. */
  function LowByteOf(v: bv16): bv8 {
    (v & 0xFF) as bv8
  }

  function HighByteOf(v: bv16): bv8 {
    (v >> 8) as bv8
  }

  lemma BytesRejoin(v: bv16)
    ensures (HighByteOf(v) as bv16 << 8) | LowByteOf(v) as bv16 == v
  {
  }

  function Select(timer: uint8): bv8
    requires timer <= 2
  {
    if timer == 0 then 0x00 else if timer == 1 then 0x40 else 0x80
  }

  /** The mode and the base in a control word or a status. */
  function Low(word: bv8): bv8 {
    word & 0x0F
  }

  function TwoByteWord(st: bv8): bv8 {
    Low(st) | TIMER_LSB_MSB
  }

  /** The counter programmed for two-byte access, with the mode and BCD bits of `st`. */
  function SetUp(c: Counter, st: bv8): Counter {
    c.(control := TwoByteWord(st), half := false, pins := NullCount(c.pins))
  }

  /** The counter after a successful `timer_set_frequency`. */
  function Programmed(c: Counter, divisor: bv16): Counter {
    Counter(TwoByteWord(Reported(c)), NullCount(c.pins), divisor, false, LowByteOf(divisor), Empty)
  }

  /** The chosen counter after the first `n` of the five system calls of `timer_set_frequency`, the first two
      of which are those of `timer_get_conf`. */
  function Stage(c: Counter, divisor: bv16, n: nat): Counter {
    match n
    case 0 => c
    case 1 => c.LatchStatus()
    case 2 => c.(latch := Empty)
    case 3 => SetUp(c.(latch := Empty), Reported(c))
    case 4 => SetUp(c.(latch := Empty), Reported(c)).Load(LowByteOf(divisor))
    case _ => Programmed(c, divisor)
  }

  /** Of the next `n` system calls, `passed` succeed before one fails, or all of them. */
  predicate Passes(fails: nat -> bool, calls: nat, n: nat, passed: nat) {
    passed <= n && (forall i | calls <= i < calls + passed :: !fails(i)) && (passed < n ==> fails(calls + passed))
  }

  /** A call of the driver, of whose system calls the first `passed` succeeded. */
  datatype Call = Conf(timer: uint8, passed: nat) | Frequency(timer: uint8, freq: uint32, passed: nat)

  function AfterCall(chip: Chip, call: Call): Chip {
    match call
    case Conf(timer, passed) =>
      if timer > 2 then chip else chip[timer := Stage(chip[timer], 0, if passed < 2 then passed else 2)]
    case Frequency(timer, freq, passed) =>
      if !Acceptable(timer, freq) then chip else chip[timer := Stage(chip[timer], Divisor(freq), passed)]
  }

  /** `after` is `before` with counter `timer` replaced by `c`. */
  predicate Replaced(before: Chip, timer: nat, c: Counter, after: Chip) {
    timer <= 2 && after == before[timer := c]
  }

  /** The call ends with the chosen counter at stage `n`. */
  lemma EndsAt(before: Chip, timer: uint8, freq: uint32, n: nat, after: Chip)
    requires Acceptable(timer, freq) && Replaced(before, timer, Stage(before[timer], Divisor(freq), n), after)
    ensures after == AfterCall(before, Frequency(timer, freq, n))
  {
  }

  /** `timer_get_conf` makes the first two stages of `timer_set_frequency`. */
  lemma ConfIsPart(before: Chip, timer: uint8, freq: uint32, n: nat)
    requires Acceptable(timer, freq) && n <= 2
    ensures AfterCall(before, Conf(timer, n)) == AfterCall(before, Frequency(timer, freq, n))
    ensures Replaced(before, timer, Stage(before[timer], Divisor(freq), n), AfterCall(before, Conf(timer, n)))
  {
  }

  /** The read-back command latches the status of one counter. */
  lemma ReadBackWord(chip: Chip, timer: uint8, word: bv8)
    requires timer <= 2 && word == TIMER_RB_CMD | TIMER_RB_COUNT_ | ((1 as bv8) << (timer + 1))
    ensures WritePort(chip, TIMER_CTRL, word) == chip[timer := chip[timer].LatchStatus()]
  {
  }

  /** The control word programs one counter, for two-byte access, with the mode and BCD bits of `st`. */
  lemma ProgramWord(before: Chip, timer: uint8, c: Counter, chip: Chip, st: bv8, word: bv8)
    requires Replaced(before, timer, c, chip)
    requires word == TwoByteWord(st) | Select(timer)
    ensures Replaced(before, timer, SetUp(c, st), WritePort(chip, TIMER_CTRL, word))
  {
  }

  /** A data byte goes to one counter. */
  lemma LoadByte(before: Chip, timer: uint8, c: Counter, chip: Chip, value: bv8)
    requires Replaced(before, timer, c, chip)
    ensures Replaced(before, timer, c.Load(value), WritePort(chip, TIMER_0 + timer, value))
  {
  }

  /** The control word, the low byte and the high byte, one after the other, program the counter: the count
      is loaded whole and the flip-flop is left as it was. */
  lemma ThreeWrites(c: Counter, st: bv8, divisor: bv16)
    requires st == Reported(c)
    ensures SetUp(c.(latch := Empty), st).Load(LowByteOf(divisor)).Load(HighByteOf(divisor)) == Programmed(c, divisor)
  {
    hide HighByteOf, LowByteOf, Reported;
    assert (TwoByteWord(st) >> 4) & 3 == 3;
    PinsOnce(c.pins);
    BytesRejoin(divisor);
  }

  /** The chosen counter divides the input clock by the requested frequency, in two-byte access and with the
      flip-flop at the first byte; its mode and base are kept, unless a latched status disagreed with them, and
      the other counters are as they were. */
  ghost predicate FrequencySet(before: Chip, timer: nat, freq: int, after: Chip)
    requires timer <= 2 && freq > 0
  {
    var c, d := before[timer], after[timer];
    && d.count as int == 1193182 / freq
    && (d.control >> 4) & 0x03 == 3 && !d.half && d.latch.Empty?
    && (c.latch.Empty? || c.latch.value & 0x0F == c.control & 0x0F ==> d.control & 0x0F == c.control & 0x0F)
    && forall n | 0 <= n < 3 && n != timer :: after[n] == before[n]
  }

  lemma WellProgrammed(chip: Chip, timer: uint8, freq: uint32)
    requires timer <= 2 && 19 <= freq <= TIMER_FREQ
    ensures FrequencySet(chip, timer, freq, chip[timer := Programmed(chip[timer], Divisor(freq))])
  {
    hide LowByteOf, Divisor, NullCount;
    var c := chip[timer];
    DivisorIsQuotient(freq);
    WordBits(Reported(c), c.control);
    if c.latch.Empty? {
      StatusLow(c.pins, c.control);
    } else {
      SameLow(c.latch.value, c.control);
    }
  }

  lemma WordBits(st: bv8, control: bv8)
    ensures (TwoByteWord(st) >> 4) & 0x03 == 3
    ensures Low(st) == Low(control) <==> TwoByteWord(st) & 0x0F == control & 0x0F
  {
  }

  lemma SameLow(a: bv8, b: bv8)
    ensures Low(a) == Low(b) <==> a & 0x0F == b & 0x0F
  {
  }

  class Driver {
    const fails: nat -> bool
    const running: nat -> bv8
    var chip: Chip
    var calls: nat

    constructor (fails: nat -> bool, running: nat -> bv8, chip: Chip)
      ensures this.fails == fails && this.running == running && this.chip == chip && calls == 0
    {
      this.fails, this.running, this.chip := fails, running, chip;
      calls := 0;
    }

    method SysOutb(port: nat, value: bv8) returns (ok: bool)
      modifies this`chip, this`calls
      ensures ok == !fails(old(calls)) && calls == old(calls) + 1
      ensures chip == if ok then WritePort(old(chip), port, value) else old(chip)
    {
      ok, calls := !fails(calls), calls + 1;
      if ok {
        chip := WritePort(chip, port, value);
      }
    }

    method SysInb(port: nat) returns (ok: bool, value: bv8)
      modifies this`chip, this`calls
      ensures ok == !fails(old(calls)) && calls == old(calls) + 1
      ensures value == ReadPort(old(chip), port, running(old(calls)))
      ensures chip == if ok then AfterRead(old(chip), port) else old(chip)
    {
      ok, value := !fails(calls), ReadPort(chip, port, running(calls));
      if ok {
        chip := AfterRead(chip, port);
      }
      calls := calls + 1;
    }

    /** `timer_get_conf`. */
    method GetConf(timer: uint8) returns (status: int, st: bv8, ghost passed: nat)
      modifies this`chip, this`calls
      ensures timer <= 2 ==> Passes(fails, old(calls), 2, passed)
      ensures status == if timer <= 2 && passed == 2 then 0 else 1
      ensures chip == AfterCall(old(chip), Conf(timer, passed))
      ensures status == 0 ==> st == Reported(old(chip)[timer]) && calls == old(calls) + 2
    {
      st, passed := 0, 0;
      if timer > 2 {
        return 1, st, passed;
      }
      var rbc := TIMER_RB_CMD | TIMER_RB_COUNT_ | ((1 as bv8) << (timer + 1));
      ReadBackWord(chip, timer, rbc);
      var ok := SysOutb(TIMER_CTRL, rbc);
      if !ok {
        return 1, st, 0;
      }
      ok, st := SysInb(TIMER_0 + timer);
      if !ok {
        return 1, st, 1;
      }
      return 0, st, 2;
    }

    /** `timer_set_frequency`. */
    method SetFrequency(timer: uint8, freq: uint32) returns (status: int, ghost passed: nat)
      modifies this`chip, this`calls
      ensures Acceptable(timer, freq) ==> Passes(fails, old(calls), 5, passed)
      ensures status == 0 || status == 1
      ensures status == 0 <==>
        timer <= 2 && 19 <= freq <= 1193182 && forall i | old(calls) <= i < old(calls) + 5 :: !fails(i)
      ensures status == 0 ==> FrequencySet(old(chip), timer, freq, chip)
      ensures !(timer <= 2 && 19 <= freq <= 1193182) ==> chip == old(chip)
      ensures chip == AfterCall(old(chip), Frequency(timer, freq, passed))
    {
      hide WritePort, HighByteOf, LowByteOf, Divisor, Reported, Programmed, Counter.Load, Replaced, Select, SetUp,
           Counter.LatchStatus, Low, TwoByteWord;
      passed := 0;
      if timer > 2 {
        return 1, passed;
      }
      if freq > TIMER_FREQ || freq < 19 {
        return 1, passed;
      }
      ghost var before, c := chip, chip[timer];
      var failed, controlWord;
      failed, controlWord, passed := GetConf(timer);
      ConfIsPart(before, timer, freq, passed);
      if failed != 0 {
        return 1, passed;
      }
      ghost var st := controlWord;
      Selects(st, timer);
      controlWord := controlWord & 0x0F;
      controlWord := controlWord | TIMER_LSB_MSB;
      var selectedTimer;
      if timer == 0 {
        controlWord := controlWord | 0x00;
        selectedTimer := 0x40;
      } else if timer == 1 {
        controlWord := controlWord | 0x40;
        selectedTimer := 0x41;
      } else {
        controlWord := controlWord | 0x80;
        selectedTimer := 0x42;
      }
      ProgramWord(before, timer, c.(latch := Empty), chip, st, controlWord);
      var ok := SysOutb(TIMER_CTRL, controlWord);
      if !ok {
        EndsAt(before, timer, freq, 2, chip);
        return 1, 2;
      }
      var initialValue := Divisor(freq);
      var msb := HighByteOf(initialValue);
      var lsb := LowByteOf(initialValue);
      LoadByte(before, timer, Stage(c, initialValue, 3), chip, lsb);
      ok := SysOutb(selectedTimer, lsb);
      if !ok {
        EndsAt(before, timer, freq, 3, chip);
        return 1, 3;
      }
      LoadByte(before, timer, Stage(c, initialValue, 4), chip, msb);
      ok := SysOutb(selectedTimer, msb);
      if !ok {
        EndsAt(before, timer, freq, 4, chip);
        return 1, 4;
      }
      ThreeWrites(c, st, initialValue);
      WellProgrammed(before, timer, freq);
      EndsAt(before, timer, freq, 5, chip);
      return 0, 5;
    }
  }

  lemma Selects(st: bv8, timer: uint8)
    requires timer <= 2
    ensures var word := (st & 0x0F) | TIMER_LSB_MSB;
            TwoByteWord(st) | Select(timer) ==
            if timer == 0 then word | 0x00 else if timer == 1 then word | 0x40 else word | 0x80
  {
  }

  // ---------- What the programming achieves ----------

  /** No bit of the quotient is lost between `unsigned` and the two bytes sent. */
  lemma DivisorIsQuotient(freq: uint32)
    requires 19 <= freq <= TIMER_FREQ
    ensures Divisor(freq) as int == TIMER_FREQ / freq
  {
    DivisorInRange(freq);
    WordValue(TIMER_FREQ / freq);
  }

  /** A latched status, if there is one, has the mode and the base that the counter is programmed with. */
  predicate Agreeing(c: Counter) {
    c.latch.Empty? || Low(c.latch.value) == Low(c.control)
  }

  function AfterCalls(chip: Chip, calls: seq<Call>): Chip {
    if calls == [] then chip else AfterCall(AfterCalls(chip, calls[..|calls| - 1]), calls[|calls| - 1])
  }

  lemma ReportedLow(c: Counter)
    requires Agreeing(c)
    ensures Low(Reported(c)) == Low(c.control)
  {
  }

  lemma StatusLow(pins: bv8, control: bv8)
    ensures Low((pins & 0xC0) | (control & 0x3F)) == Low(control)
  {
  }

  lemma WordLow(st: bv8)
    ensures Low(TwoByteWord(st)) == Low(st)
  {
  }

  lemma LowBitsMean(a: bv8, b: bv8)
    requires Low(a) == Low(b)
    ensures (a >> 1) & 7 == (b >> 1) & 7 && a & 1 == b & 1
  {
  }

  lemma StageLow(c: Counter, divisor: bv16, n: nat)
    requires Agreeing(c)
    ensures var d := Stage(c, divisor, n); Agreeing(d) && Low(d.control) == Low(c.control)
  {
    ReportedLow(c);
    WordLow(Reported(c));
    StatusLow(c.pins, c.control);
    hide LowByteOf, Reported, Counter.Load, Counter.LatchStatus, Low, TwoByteWord, NullCount;
    LatchKeeps(c);
    LoadKeeps(SetUp(c.(latch := Empty), Reported(c)), LowByteOf(divisor));
  }

  lemma LatchKeeps(c: Counter)
    requires Agreeing(c)
    ensures Agreeing(c.LatchStatus()) && c.LatchStatus().control == c.control && c.LatchStatus().pins == c.pins
  {
  }

  lemma LoadKeeps(c: Counter, value: bv8)
    ensures c.Load(value).control == c.control && c.Load(value).latch == c.latch
    ensures NullCount(c.Load(value).pins) == NullCount(c.pins)
  {
  }

  lemma StageKeepsProgramming(c: Counter, divisor: bv16, n: nat)
    requires Agreeing(c)
    ensures var d := Stage(c, divisor, n); Agreeing(d) && d.Mode() == c.Mode() && d.Bcd() == c.Bcd()
  {
    StageLow(c, divisor, n);
    LowBitsMean(Stage(c, divisor, n).control, c.control);
  }

  /** In every history of calls, whatever system calls fail in it, every counter keeps its mode and its base. */
  lemma {:induction false} HistoryKeepsProgramming(chip: Chip, calls: seq<Call>, n: nat)
    requires n < 3 && forall m | 0 <= m < 3 :: Agreeing(chip[m])
    ensures var after := AfterCalls(chip, calls)[n];
            Agreeing(after) && after.Mode() == chip[n].Mode() && after.Bcd() == chip[n].Bcd()
  {
    hide Agreeing, Counter.Mode, Counter.Bcd, Stage, Divisor;
    if calls != [] {
      var init, last := calls[..|calls| - 1], calls[|calls| - 1];
      HistoryKeepsProgramming(chip, init, n);
      var c := AfterCalls(chip, init)[n];
      if last.Conf? {
        StageKeepsProgramming(c, 0, if last.passed < 2 then last.passed else 2);
      } else if Acceptable(last.timer, last.freq) {
        StageKeepsProgramming(c, Divisor(last.freq), last.passed);
      }
    }
  }

  /** Whatever a call that failed has left behind, the next one that succeeds programs the counter as if it
      had not been made. */
  lemma RepairedByNextCall(c: Counter, divisor: bv16, n: nat, divisor': bv16)
    requires Agreeing(c) && n < 5
    ensures Programmed(Stage(c, divisor, n), divisor') == Programmed(c, divisor')
  {
    hide Reported, LowByteOf, Stage, Low, NullCount;
    StageLow(c, divisor, n);
    StagePins(c, divisor, n);
    ReportedLow(c);
    ReportedLow(Stage(c, divisor, n));
  }

  lemma StagePins(c: Counter, divisor: bv16, n: nat)
    requires n < 5
    ensures NullCount(Stage(c, divisor, n).pins) == NullCount(c.pins)
  {
    hide Reported, LowByteOf, Counter.Load, NullCount, TwoByteWord;
    PinsOnce(c.pins);
    LoadKeeps(SetUp(c.(latch := Empty), Reported(c)), LowByteOf(divisor));
  }

  lemma PinsOnce(pins: bv8)
    ensures NullCount(NullCount(pins)) == NullCount(pins)
  {
  }

  /** What the counter divides by: the count in binary, or its four decimal digits; a count of zero stands
      for the largest divisor, and a digit above nine has no meaning. */
  function DividesBy(c: Counter): Option<int> {
    var n := c.count as int;
    if !c.Bcd() then Some(if n == 0 then 0x1_0000 else n)
    else
      var d0, d1, d2, d3 := n % 16, n / 16 % 16, n / 256 % 16, n / 4096;
      if d0 > 9 || d1 > 9 || d2 > 9 || d3 > 9 then None
      else if n == 0 then Some(10000)
      else Some(1000 * d3 + 100 * d2 + 10 * d1 + d0)
  }

  /** The requested frequency comes out exactly when the counter counts in binary or the divisor is a single
      digit: the driver keeps the BCD bit but always sends the count in binary. */
  lemma FrequencyReachedIff(c: Counter, freq: uint32)
    requires 19 <= freq <= TIMER_FREQ
    ensures var d := Programmed(c, Divisor(freq));
            DividesBy(d) == Some(TIMER_FREQ / freq) <==> Reported(c) & 1 == 0 || TIMER_FREQ / freq < 10
  {
    var d, q := Programmed(c, Divisor(freq)), TIMER_FREQ / freq;
    hide Programmed, Divisor;
    DivisorIsQuotient(freq);
    DivisorInRange(freq);
    ProgrammedCount(c, Divisor(freq));
    DecimalReading(q);
  }

  /** For example, a counter in decimal asked for 60 Hz is loaded with 19886, whose digits are 4, 13, 10, 14. */
  lemma SixtyHertzInDecimal(c: Counter)
    requires c.latch.Empty? && c.Bcd()
    ensures DividesBy(Programmed(c, Divisor(60))) == None
  {
    DivisorIsQuotient(60);
    ProgrammedCount(c, Divisor(60));
    assert Reported(c) & 1 == c.control & 1;
  }

  lemma ProgrammedCount(c: Counter, divisor: bv16)
    ensures Programmed(c, divisor).count == divisor
    ensures Programmed(c, divisor).Bcd() <==> Reported(c) & 1 != 0
  {
  }

  lemma DecimalReading(n: nat)
    requires 1 <= n < 0x1_0000
    ensures var d0, d1, d2, d3 := n % 16, n / 16 % 16, n / 256 % 16, n / 4096;
            d0 <= 9 && d1 <= 9 && d2 <= 9 && d3 <= 9 ==> (1000 * d3 + 100 * d2 + 10 * d1 + d0 == n <==> n < 10)
    ensures n < 10 ==> n % 16 == n && n / 16 % 16 == 0 && n / 256 % 16 == 0 && n / 4096 == 0
  {
  }

  // ---------- timer_display_conf ----------

  datatype Field = All | Initial | Mode | Base

  datatype Shown =
    | Byte(byte: bv8)
    | Access(inMode: InitMode)
    | CountMode(countMode: bv8)
    | CountBase(bcd: bool)

  datatype InitMode = Invalid | LsbOnly | MsbOnly | MsbAfterLsb

  function DisplayConf(st: bv8, field: Field): Shown {
    match field
    case All => Byte(st)
    case Initial =>
      var access := (st >> 4) & 0x03;
      Access(if access == 1 then LsbOnly
             else if access == 2 then MsbOnly
             else if access == 3 then MsbAfterLsb
             else Invalid)
    case Mode =>
      var mode := (st >> 1) & 0x07;
      CountMode(if mode == 6 then 2 else if mode == 7 then 3 else mode)
    case Base => CountBase(st & TIMER_BCD != 0)
  }

  /** What is displayed of a status the chip reports is how the chip interprets its programming: the access
      it was given, its mode with the two don't-care encodings resolved, and its base. */
  lemma DisplaysProgramming(c: Counter)
    ensures DisplayConf(c.StatusByte(), All) == Byte(c.StatusByte())
    ensures DisplayConf(c.StatusByte(), Initial) == Access(Invalid) <==> c.Access() == 0
    ensures DisplayConf(c.StatusByte(), Base) == CountBase(c.Bcd())
    ensures DisplayConf(c.StatusByte(), Mode) == CountMode(if c.Mode() >= 6 then c.Mode() & 3 else c.Mode())
    ensures DisplayConf(c.StatusByte(), Initial) == Access(MsbAfterLsb) <==> c.Access() == 3
    ensures DisplayConf(c.StatusByte(), Initial) == Access(LsbOnly) <==> c.Access() == 1
    ensures DisplayConf(c.StatusByte(), Initial) == Access(MsbOnly) <==> c.Access() == 2
  {
  }
}
