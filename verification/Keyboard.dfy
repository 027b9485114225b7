/** The polled keyboard driver against a model of the i8042 controller. */
module Keyboard {
  const KEYBOARD_IN_CMD := 0x64
  const KEYBOARD_READ_CMD: bv8 := 0x20
  const KEYBOARD_WRITE_CMD: bv8 := 0x60
  const KEYBOARD_WRITE_PORT := 0x60
  const IN_BUFFER_FULL: bv8 := 0x02
  const TRIES := 10

  // ---------- The controller ----------

  /** A byte waiting for the processor, with the status bits that are up while it is at the front. */
  datatype OutByte = OutByte(value: bv8, aux: bool, timeout: bool, parity: bool)

  /** `busy` status reads will still find the input buffer full, and `hidden` of them will still find the
      output buffer empty. `awaiting` means the next data byte is the new command byte. */
  datatype Chip = Chip(commandByte: bv8, outBuf: seq<OutByte>, hidden: nat, busy: nat, awaiting: bool, writes: nat) {
    predicate OutputFull() {
      outBuf != [] && hidden == 0
    }

    function Status(): bv8 {
      (if OutputFull() then 0x01 else 0)
      | (if busy > 0 then 0x02 else 0)
      | (if OutputFull() && outBuf[0].aux then 0x20 else 0)
      | (if OutputFull() && outBuf[0].timeout then 0x40 else 0)
      | (if OutputFull() && outBuf[0].parity then 0x80 else 0)
    }

    /** The chip `n` status reads later. */
    function Later(n: nat): Chip {
      this.(busy := if busy > n then busy - n else 0, hidden := if hidden > n then hidden - n else 0)
    }

    function Popped(): Chip {
      if OutputFull() then this.(outBuf := outBuf[1..]) else this
    }
  }

  /** How the hardware and the kernel behave: how long the controller is busy after its `n`-th write, how
      long the reply to that write takes, and which system calls fail. */
  datatype Env = Env(busyAfter: nat -> nat, replyAfter: nat -> nat, fails: nat -> bool) {
    /** A write reaches the controller only when its input buffer is empty. */
    function Write(chip: Chip, port: nat, value: bv8): Chip {
      if chip.busy > 0 then chip
      else
        var n := chip.writes + 1;
        var taken := chip.(writes := n, busy := busyAfter(n), awaiting := false);
        if port == 0x64 && value == 0x20 then
          taken.(outBuf := chip.outBuf + [OutByte(chip.commandByte, false, false, false)],
                 hidden := if chip.outBuf == [] then replyAfter(n) else chip.hidden)
        else if port == 0x64 && value == 0x60 then taken.(awaiting := true)
        else if port == 0x60 && chip.awaiting then taken.(commandByte := value)
        else taken
    }

    ghost predicate Faultless() {
      forall t :: !fails(t)
    }
  }

  /** A byte from the keyboard that came without an error. */
  predicate Clean(b: OutByte) {
    !b.parity && !b.timeout && !b.aux
  }

  /** Two chips that differ at most in how long they stay busy. */
  predicate SameSettings(a: Chip, b: Chip) {
    a.commandByte == b.commandByte && a.outBuf == b.outBuf && a.awaiting == b.awaiting && a.writes == b.writes
  }

  // ---------- The driver ----------

  lemma StatusBits(chip: Chip)
    ensures chip.Status() & 0x01 != 0 <==> chip.OutputFull()
    ensures chip.Status() & IN_BUFFER_FULL != 0 <==> chip.busy > 0
    ensures chip.OutputFull() ==>
      && (chip.Status() & 0x20 != 0 <==> chip.outBuf[0].aux)
      && (chip.Status() & 0x40 != 0 <==> chip.outBuf[0].timeout)
      && (chip.Status() & 0x80 != 0 <==> chip.outBuf[0].parity)
  {
  }

  class Driver {
    const env: Env
    var chip: Chip
    var calls: nat
    var statusReads: nat
    var scancode: bv8

    constructor (env: Env, chip: Chip)
      ensures this.env == env && this.chip == chip && calls == 0 && statusReads == 0 && scancode == 0
    {
      this.env, this.chip := env, chip;
      calls, statusReads, scancode := 0, 0, 0;
    }

    method ReadStatus() returns (ok: bool, status: bv8)
      modifies this`chip, this`calls, this`statusReads
      ensures ok == !env.fails(old(calls)) && status == old(chip).Status()
      ensures chip == (if ok then old(chip).Later(1) else old(chip))
      ensures calls == old(calls) + 1 && statusReads == old(statusReads) + 1
    {
      ok, status := !env.fails(calls), chip.Status();
      if ok {
        chip := chip.Later(1);
      }
      calls, statusReads := calls + 1, statusReads + 1;
    }

    method ReadData() returns (ok: bool, value: bv8)
      modifies this`chip, this`calls
      ensures ok == !env.fails(old(calls))
      ensures old(chip).OutputFull() ==> value == old(chip).outBuf[0].value
      ensures chip == (if ok then old(chip).Popped() else old(chip))
      ensures calls == old(calls) + 1
    {
      ok, value := !env.fails(calls), if chip.OutputFull() then chip.outBuf[0].value else 0;
      if ok {
        chip := chip.Popped();
      }
      calls := calls + 1;
    }

    method SysOutb(port: nat, value: bv8) returns (ok: bool)
      modifies this`chip, this`calls
      ensures ok == !env.fails(old(calls))
      ensures chip == (if ok then env.Write(old(chip), port, value) else old(chip))
      ensures calls == old(calls) + 1
    {
      ok := !env.fails(calls);
      if ok {
        chip := env.Write(chip, port, value);
      }
      calls := calls + 1;
    }

    /** `write_keyboard_command`: the command gets through exactly when the controller is ready within ten
        status reads. */
    method WriteCommand(port: nat, command: bv8) returns (status: int)
      modifies this`chip, this`calls, this`statusReads
      ensures status == 0 || status == 1
      ensures statusReads <= old(statusReads) + 10
      ensures status == 0 ==>
        old(chip).busy < 10 && chip == env.Write(old(chip).Later(old(chip).busy + 1), port, command)
      ensures status != 0 ==> SameSettings(chip, old(chip))
      ensures env.Faultless() ==> (status == 0 <==> old(chip).busy < 10)
    {
      hide Chip.Status, Env.Write;
      var i := TRIES;
      while i > 0
        invariant 0 <= i <= TRIES
        invariant chip == old(chip).Later(TRIES - i) && old(chip).busy >= TRIES - i
        invariant statusReads == old(statusReads) + TRIES - i
      {
        StatusBits(chip);
        var ok, s := ReadStatus();
        if !ok {
          return 1;
        }
        if s & IN_BUFFER_FULL == 0 {
          ok := SysOutb(port, command);
          if !ok {
            return 1;
          }
          return 0;
        }
        i := i - 1;
      }
      return 1;
    }

    /** `read_keyboard_output`: it waits for a byte, takes it, and reports success exactly when the byte came
        without an error and from the device asked for. The byte is delivered in either case. */
    method ReadKeyboardOutput(mouse: bool) returns (status: int, read: bool, output: bv8)
      modifies this`chip, this`calls, this`statusReads
      ensures status == 0 || status == 1
      ensures statusReads <= old(statusReads) + 10
      ensures read ==>
        && old(chip).outBuf != [] && old(chip).hidden < 10
        && output == old(chip).outBuf[0].value
        && chip == old(chip).Later(old(chip).hidden + 1).(outBuf := old(chip).outBuf[1..])
      ensures status == 0 <==> read && var b := old(chip).outBuf[0]; !b.parity && !b.timeout && b.aux == mouse
      ensures env.Faultless() ==> (read <==> old(chip).outBuf != [] && old(chip).hidden < 10)
      ensures !read ==> SameSettings(chip, old(chip))
    {
      hide Chip.Status, Env.Write;
      read, output := false, 0;
      var i := TRIES;
      while i > 0
        invariant 0 <= i <= TRIES && !read
        invariant chip == old(chip).Later(TRIES - i)
        invariant old(chip).outBuf == [] || old(chip).hidden >= TRIES - i
        invariant statusReads == old(statusReads) + TRIES - i
      {
        StatusBits(chip);
        var ok, s := ReadStatus();
        if !ok {
          return 1, false, 0;
        }
        if s & 0x01 != 0 {
          ok, output := ReadData();
          if !ok {
            return 1, false, 0;
          }
          read := true;
          if s & 0x80 != 0 {
            return 1, true, output;
          }
          if s & 0x40 != 0 {
            return 1, true, output;
          }
          var isKeyboardOutput := s & 0x20 == 0;
          if (mouse && isKeyboardOutput) || (!mouse && !isKeyboardOutput) {
            return 1, true, output;
          }
          return 0, true, output;
        }
        i := i - 1;
      }
      return 1, false, 0;
    }

    /** `kbc_ih`: the scancode is replaced by any byte that was read, even one that came with an error. */
    method KbcIh()
      modifies this
      ensures scancode == old(scancode) || (old(chip).outBuf != [] && scancode == old(chip).outBuf[0].value)
      ensures env.Faultless() ==>
        scancode == if old(chip).outBuf != [] && old(chip).hidden < 10 then old(chip).outBuf[0].value
                    else old(scancode)
    {
      var status, read, output := ReadKeyboardOutput(false);
      if read {
        scancode := output;
      }
    }

    /** `kb_restore_settings`. Its last write is not polled, so it is lost if the controller is still busy
        with the command before it. */
    method RestoreSettings() returns (status: int)
      modifies this`chip, this`calls, this`statusReads
      ensures status == 0 || status == 1
      ensures statusReads <= old(statusReads) + 30
      ensures status == 0 ==> chip.commandByte == Restored(env, old(chip))
      ensures status == 0 ==> (chip.awaiting <==> env.busyAfter(old(chip).writes + 2) > 0)
      ensures status != 0 ==> chip.commandByte == old(chip).commandByte
      ensures env.Faultless() ==> (status == 0 <==> Completes(env, old(chip)))
    {
      hide Chip.Status, Env.Write;
      var failed := WriteCommand(KEYBOARD_IN_CMD, KEYBOARD_READ_CMD);
      if failed != 0 {
        return 1;
      }
      AskedForCommandByte(env, old(chip));
      var read, configByte;
      failed, read, configByte := ReadKeyboardOutput(false);
      if failed != 0 {
        return 1;
      }
      configByte := configByte | 0x01;
      ghost var answered := chip;
      failed := WriteCommand(KEYBOARD_IN_CMD, KEYBOARD_WRITE_CMD);
      if failed != 0 {
        return 1;
      }
      CommandByteWritten(env, answered, configByte);
      var ok := SysOutb(KEYBOARD_WRITE_PORT, configByte);
      if !ok {
        return 1;
      }
      return 0;
    }
  }

  /** The command byte a successful restore leaves: the byte it read with bit 0 set, or the old one when the
      last write is lost. The byte read is the command byte only if nothing was queued in front of it. */
  function Restored(env: Env, chip: Chip): bv8 {
    if env.busyAfter(chip.writes + 2) > 0 then chip.commandByte
    else (if chip.outBuf == [] then chip.commandByte else chip.outBuf[0].value) | 0x01
  }

  /** The status reads that find the output buffer empty before the first byte shows, once the command to
      read the command byte is written. */
  function FirstByteHidden(env: Env, chip: Chip): nat {
    if chip.outBuf == [] then env.replyAfter(chip.writes + 1)
    else if chip.hidden > chip.busy + 1 then chip.hidden - (chip.busy + 1)
    else 0
  }

  lemma AskedForCommandByte(env: Env, chip: Chip)
    ensures var asked := env.Write(chip.Later(chip.busy + 1), KEYBOARD_IN_CMD, KEYBOARD_READ_CMD);
            && asked.writes == chip.writes + 1 && asked.busy == env.busyAfter(chip.writes + 1)
            && asked.commandByte == chip.commandByte
            && asked.outBuf == chip.outBuf + [OutByte(chip.commandByte, false, false, false)]
            && asked.hidden == FirstByteHidden(env, chip)
  {
  }

  lemma CommandByteWritten(env: Env, chip: Chip, value: bv8)
    ensures var told := env.Write(chip.Later(chip.busy + 1), KEYBOARD_IN_CMD, KEYBOARD_WRITE_CMD);
            var written, busy := env.Write(told, KEYBOARD_WRITE_PORT, value), env.busyAfter(chip.writes + 1) > 0;
            && told.commandByte == chip.commandByte && (written.awaiting <==> busy)
            && written.commandByte == if busy then chip.commandByte else value
  {
  }

  /** Each of the three polls is met within ten reads, and the first byte is from the keyboard and clean. */
  predicate Completes(env: Env, chip: Chip) {
    && chip.busy < 10
    && FirstByteHidden(env, chip) < 10
    && (chip.outBuf == [] || Clean(chip.outBuf[0]))
    && env.busyAfter(chip.writes + 1) - (FirstByteHidden(env, chip) + 1) < 10
  }

  predicate KeepsOthers(env: Env, chip: Chip) {
    Restored(env, chip) & 0xFE == chip.commandByte & 0xFE
  }

  predicate Enables(env: Env, chip: Chip) {
    Restored(env, chip) == chip.commandByte | 0x01
  }

  /** A controller that is never busy and answers at once. */
  function Prompt(): Env {
    Env(_ => 0, _ => 0, _ => false)
  }

  /** What a caller could check: nothing is queued, or the restore will fail on what is queued, or the byte
      in front happens to be as good as the command byte. */
  predicate Harmless(chip: Chip) {
    || chip.outBuf == []
    || chip.busy >= 10
    || chip.hidden > chip.busy + 10
    || !Clean(chip.outBuf[0])
    || chip.outBuf[0].value & 0xFE == chip.commandByte & 0xFE
  }

  lemma FirstBit(v: bv8, c: bv8)
    ensures (v | 0x01) & 0xFE == v & 0xFE
    ensures v | 0x01 == c | 0x01 <==> v & 0xFE == c & 0xFE
  {
  }

  lemma HarmlessRestored(env: Env, chip: Chip)
    requires Harmless(chip) && Completes(env, chip)
    ensures KeepsOthers(env, chip) && (env.busyAfter(chip.writes + 2) == 0 ==> Enables(env, chip))
  {
    FirstBit(chip.commandByte, chip.commandByte);
    if chip.outBuf != [] {
      FirstBit(chip.outBuf[0].value, chip.commandByte);
    }
  }

  lemma HarmDone(chip: Chip)
    requires !Harmless(chip)
    ensures Completes(Prompt(), chip) && !KeepsOthers(Prompt(), chip) && !Enables(Prompt(), chip)
  {
  }

  /** A successful restore keeps every bit but the first, however the hardware behaves from here on, and when
      its last write arrives does exactly what it is for, if and only if the queue is harmless. */
  lemma RestoresIffHarmless(chip: Chip)
    ensures (forall env: Env | Completes(env, chip) :: KeepsOthers(env, chip)) <==> Harmless(chip)
    ensures (forall env: Env | Completes(env, chip) && env.busyAfter(chip.writes + 2) == 0 :: Enables(env, chip)) <==>
            Harmless(chip)
  {
    hide KeepsOthers, Enables, Completes, Harmless;
    if Harmless(chip) {
      forall env: Env | Completes(env, chip)
        ensures KeepsOthers(env, chip) && (env.busyAfter(chip.writes + 2) == 0 ==> Enables(env, chip))
      {
        HarmlessRestored(env, chip);
      }
    } else {
      HarmDone(chip);
    }
  }

  /** With an empty output buffer nothing but the first bit is ever at stake, and it is set unless the last
      write finds the controller busy. */
  lemma EmptyBufferIsSafe(env: Env, chip: Chip)
    requires chip.outBuf == []
    ensures KeepsOthers(env, chip)
    ensures Enables(env, chip) <==> env.busyAfter(chip.writes + 2) == 0 || chip.commandByte & 0x01 != 0
  {
  }

  /** A key pressed before the restore and not yet read: the restore reports success, and has written the
      scancode as the command byte. */
  method RestoreAfterKeyPress(chip: Chip) returns (status: int, commandByte: bv8)
    requires chip.commandByte == 0x64 && chip.outBuf == [OutByte(0x1C, false, false, false)]
    requires chip.busy == 0 && chip.hidden == 0
    ensures status == 0 && commandByte == 0x1D
  {
    var driver := new Driver(Prompt(), chip);
    status := driver.RestoreSettings();
    return status, driver.chip.commandByte;
  }
}
