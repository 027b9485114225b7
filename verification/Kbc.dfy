/** The i8042 handshakes of the mouse driver, seen through the port operations they perform. */
module Kbc {
  import opened Machine

  const OUT_BUF := 0x60
  const CMD_ARGS_REG := 0x60
  const STATUS_REG := 0x64
  const CMD_REG := 0x64
  const KBC_INPB: bv8 := 0x02
  const WRITE_CMD_B: uint32 := 0x60
  const WRITE_B_MOUSE: uint32 := 0xD4
  const ACK: bv8 := 0xFA
  const NACK: bv8 := 0xFE
  const ERROR: bv8 := 0xFC

  /** The outcome of `sys_inb`; the value means something only when the call succeeded. */
  datatype Reply = Reply(ok: bool, value: bv8)

  datatype PortOp =
    | In(port: nat, reply: Reply)
    | Out(port: nat, value: uint32, ok: bool)

  /** What the controller and the kernel do at each port operation: `status(t)` is the reply if operation
      number `t` reads the status register, and so on. */
  datatype Device = Device(status: nat -> Reply, output: nat -> Reply, accepts: nat -> bool)

  predicate ClearPoll(op: PortOp) {
    op.In? && op.port == STATUS_REG && op.reply.ok && op.reply.value & KBC_INPB == 0
  }

  // ---------- What the device decides ----------

  predicate Clear(device: Device, t: nat) {
    ClearPoll(In(STATUS_REG, device.status(t)))
  }

  /** The poll that ends a polled write starting at operation `t`. */
  function LastPoll(device: Device, t: nat): nat {
    if Clear(device, t) then t else if Clear(device, t + 1) then t + 1 else t + 2
  }

  /** A polled write starting at operation `t` goes through. */
  predicate Sends(device: Device, t: nat) {
    Clear(device, LastPoll(device, t)) && device.accepts(LastPoll(device, t) + 1)
  }

  /** The operation after a polled write that starts at operation `t` and goes through. */
  function Sent(device: Device, t: nat): nat {
    LastPoll(device, t) + 2
  }

  /** The operation that reads the answer of a round that starts at operation `t`. */
  function AnswerTime(device: Device, t: nat): nat {
    Sent(device, Sent(device, t))
  }

  /** No operation of a round that starts at operation `t` gets stuck. */
  predicate Answered(device: Device, t: nat) {
    Sends(device, t) && Sends(device, Sent(device, t)) && device.output(AnswerTime(device, t)).ok
  }

  /** Of the polls from operation `t` on, number `i` is the first to find the buffer empty. */
  predicate FirstClear(device: Device, t: nat, i: nat) {
    Clear(device, t + i) && forall j | t <= j < t + i :: !Clear(device, j)
  }

  /** A polled write goes through when one of three polls finds the buffer empty and the write after the first
      such poll is accepted. */
  lemma SendsIff(device: Device, t: nat)
    ensures Sends(device, t) <==>
      exists i: nat :: i < 3 && FirstClear(device, t, i) && device.accepts(t + i + 1) && Sent(device, t) == t + i + 2
  {
    if Sends(device, t) {
      var i := LastPoll(device, t) - t;
      assert i < 3 && FirstClear(device, t, i);
    }
  }

  function RoundStart(device: Device, t: nat, n: nat): nat {
    if n == 0 then t else AnswerTime(device, RoundStart(device, t, n - 1)) + 1
  }

  /** The answer that the handler, started at operation `t`, reads in its round `n`, if it gets that far. */
  function AnswerAt(device: Device, t: nat, n: nat): bv8 {
    device.output(AnswerTime(device, RoundStart(device, t, n))).value
  }

  function DeviceAnswers(device: Device, t: nat, n: nat): (answers: seq<bv8>)
    ensures |answers| == n
  {
    if n == 0 then [] else DeviceAnswers(device, t, n - 1) + [AnswerAt(device, t, n - 1)]
  }

  /** Every reply in the trace is the one the device gives at that point. */
  ghost predicate Faithful(device: Device, trace: seq<PortOp>) {
    forall t | 0 <= t < |trace| ::
      match trace[t]
      case In(port, reply) => reply == if port == OUT_BUF then device.output(t) else device.status(t)
      case Out(_, _, ok) => ok == device.accepts(t)
  }

  // ---------- What is read off a trace ----------

  function WriteOf(op: PortOp): seq<(nat, uint32)> {
    if op.Out? && op.ok then [(op.port, op.value)] else []
  }

  function AnswerOf(op: PortOp): seq<bv8> {
    if op.In? && op.port == OUT_BUF && op.reply.ok then [op.reply.value] else []
  }

  function StatusReadOf(op: PortOp): nat {
    if op.In? && op.port == STATUS_REG then 1 else 0
  }

  /** The writes that reached the controller. */
  function Writes(ops: seq<PortOp>): seq<(nat, uint32)> {
    if ops == [] then [] else Writes(ops[..|ops| - 1]) + WriteOf(ops[|ops| - 1])
  }

  /** The bytes read from the output buffer. */
  function Answers(ops: seq<PortOp>): seq<bv8> {
    if ops == [] then [] else Answers(ops[..|ops| - 1]) + AnswerOf(ops[|ops| - 1])
  }

  function StatusReads(ops: seq<PortOp>): nat {
    if ops == [] then 0 else StatusReads(ops[..|ops| - 1]) + StatusReadOf(ops[|ops| - 1])
  }

  lemma TraceAppend(a: seq<PortOp>, b: seq<PortOp>)
    ensures Writes(a + b) == Writes(a) + Writes(b)
    ensures Answers(a + b) == Answers(a) + Answers(b)
    ensures StatusReads(a + b) == StatusReads(a) + StatusReads(b)
  {
    hide *;
    WritesAppend(a, b);
    AnswersAppend(a, b);
    StatusReadsAppend(a, b);
  }

  lemma {:induction false} WritesAppend(a: seq<PortOp>, b: seq<PortOp>)
    ensures Writes(a + b) == Writes(a) + Writes(b)
  {
    if b == [] {
      assert a + b == a;
    } else {
      hide WriteOf;
      var init, last := b[..|b| - 1], b[|b| - 1];
      WritesAppend(a, init);
      assert (a + b)[..|a + b| - 1] == a + init && (a + b)[|a + b| - 1] == last;
      assert Writes(a) + (Writes(init) + WriteOf(last)) == Writes(a) + Writes(init) + WriteOf(last);
    }
  }

  lemma {:induction false} AnswersAppend(a: seq<PortOp>, b: seq<PortOp>)
    ensures Answers(a + b) == Answers(a) + Answers(b)
  {
    if b == [] {
      assert a + b == a;
    } else {
      hide AnswerOf;
      var init, last := b[..|b| - 1], b[|b| - 1];
      AnswersAppend(a, init);
      assert (a + b)[..|a + b| - 1] == a + init && (a + b)[|a + b| - 1] == last;
      assert Answers(a) + (Answers(init) + AnswerOf(last)) == Answers(a) + Answers(init) + AnswerOf(last);
    }
  }

  lemma {:induction false} StatusReadsAppend(a: seq<PortOp>, b: seq<PortOp>)
    ensures StatusReads(a + b) == StatusReads(a) + StatusReads(b)
  {
    if b == [] {
      assert a + b == a;
    } else {
      StatusReadsAppend(a, b[..|b| - 1]);
      assert (a + b)[..|a + b| - 1] == a + b[..|b| - 1];
    }
  }

  /** A port and a value are among the writes exactly when an operation has written them and succeeded. */
  lemma {:induction false} WritesAre(ops: seq<PortOp>, port: nat, value: uint32)
    ensures (port, value) in Writes(ops) <==> Out(port, value, true) in ops
  {
    if ops != [] {
      var init, last := ops[..|ops| - 1], ops[|ops| - 1];
      WritesAre(init, port, value);
      assert ops == init + [last];
    }
  }

  /** A byte is among the answers exactly when a successful read of port 0x60 has got it. */
  lemma {:induction false} AnswersAre(ops: seq<PortOp>, answer: bv8)
    ensures answer in Answers(ops) <==> In(0x60, Reply(true, answer)) in ops
  {
    if ops != [] {
      var init, last := ops[..|ops| - 1], ops[|ops| - 1];
      AnswersAre(init, answer);
      assert ops == init + [last];
    }
  }

  /** Every write is immediately preceded by a status read that found the input buffer empty. */
  ghost predicate HandshakeSafe(ops: seq<PortOp>) {
    forall i | 0 <= i < |ops| && ops[i].Out? :: i > 0 && ClearPoll(ops[i - 1])
  }

  lemma SafeAppend(a: seq<PortOp>, b: seq<PortOp>)
    requires HandshakeSafe(a) && HandshakeSafe(b)
    ensures HandshakeSafe(a + b)
  {
  }

  /** A run cannot go on after this operation: a failed call, or a poll that did not find the buffer empty. */
  predicate Stuck(op: PortOp) {
    match op
    case Out(_, _, ok) => !ok
    case In(port, reply) => if port == OUT_BUF then !reply.ok else !ClearPoll(op)
  }

  /** One polled write: up to three status reads, the last of which alone found the buffer empty, and then
      the write; or three that did not, and no write. */
  ghost predicate PolledWrite(ops: seq<PortOp>, port: nat, value: uint32, sent: bool) {
    && HandshakeSafe(ops)
    && StatusReads(ops) <= 3
    && Answers(ops) == []
    && Writes(ops) == (if sent then [(port, value)] else [])
    && ops != []
    && (Stuck(ops[|ops| - 1]) <==> !sent)
    && if ops[|ops| - 1].Out? then ops[|ops| - 1] == Out(port, value, sent)
       else StatusReads(ops) == 3 && forall i | 0 <= i < |ops| :: ops[i].In? && !ClearPoll(ops[i])
  }

  lemma NothingYet()
    ensures Writes([]) == [] && Answers([]) == [] && StatusReads([]) == 0
  {
  }

  lemma OneMorePoll(ops: seq<PortOp>, poll: PortOp)
    requires poll.In? && poll.port == STATUS_REG
    ensures Writes(ops + [poll]) == Writes(ops) && Answers(ops + [poll]) == Answers(ops)
    ensures StatusReads(ops + [poll]) == StatusReads(ops) + 1
  {
  }

  lemma PollsThenWrite(polls: seq<PortOp>, write: PortOp)
    requires polls != [] && ClearPoll(polls[|polls| - 1]) && StatusReads(polls) <= 3 && write.Out?
    requires Writes(polls) == [] && Answers(polls) == [] && forall i | 0 <= i < |polls| :: polls[i].In?
    ensures PolledWrite(polls + [write], write.port, write.value, write.ok)
  {
  }

  /** A polled write to the mouse followed by one read of its answer. */
  ghost predicate MouseExchange(ops: seq<PortOp>, value: uint32, answered: bool, answer: bv8) {
    && HandshakeSafe(ops)
    && StatusReads(ops) <= 3
    && Answers(ops) == (if answered then [answer] else [])
    && (Writes(ops) == [(CMD_ARGS_REG, value)] || (!answered && Writes(ops) == []))
    && ops != []
    && (Stuck(ops[|ops| - 1]) <==> !answered)
  }

  lemma ExchangeRead(ops: seq<PortOp>, value: uint32, reply: Reply, answer: bv8)
    requires PolledWrite(ops, CMD_ARGS_REG, value, true) && (reply.ok ==> answer == reply.value)
    ensures MouseExchange(ops + [In(OUT_BUF, reply)], value, reply.ok, answer)
  {
  }

  lemma ExchangeNotSent(ops: seq<PortOp>, value: uint32, sent: bool, answer: bv8)
    requires PolledWrite(ops, CMD_ARGS_REG, value, sent)
    ensures ops != [] && (!sent ==> MouseExchange(ops, value, false, answer))
  {
  }

  // ---------- The answers of the mouse ----------

  /** Bytes the handler has no branch for. */
  predicate IsStray(answer: bv8) {
    answer != ACK && answer != NACK && answer != ERROR
  }

  function Nacks(answers: seq<bv8>): nat {
    if answers == [] then 0
    else Nacks(answers[..|answers| - 1]) + if answers[|answers| - 1] == NACK then 1 else 0
  }

  function Strays(answers: seq<bv8>): nat {
    if answers == [] then 0
    else Strays(answers[..|answers| - 1]) + if IsStray(answers[|answers| - 1]) then 1 else 0
  }

  /** After these answers the handler tries again. */
  predicate Pending(answers: seq<bv8>) {
    (forall i | 0 <= i < |answers| :: answers[i] != ACK && answers[i] != ERROR) && Nacks(answers) < 3
  }

  predicate SettledBy(answers: seq<bv8>, last: bv8) {
    answers != [] && answers[|answers| - 1] == last && Pending(answers[..|answers| - 1])
  }

  predicate Accepted(answers: seq<bv8>) {
    SettledBy(answers, ACK)
  }

  predicate Rejected(answers: seq<bv8>) {
    SettledBy(answers, ERROR) || (SettledBy(answers, NACK) && Nacks(answers) == 3)
  }

  /** `k` times the command byte and the argument. */
  function Pairs(arg: uint32, k: nat): (w: seq<(nat, uint32)>)
    ensures |w| == 2 * k
  {
    if k == 0 then [] else Pairs(arg, k - 1) + [(CMD_REG, WRITE_B_MOUSE), (CMD_ARGS_REG, arg)]
  }

  /** A whole command to the mouse. It succeeds exactly when the answers end in an accepted ACK; unless an
      operation got stuck, every answer is preceded by one pair of writes and nothing else is written. */
  ghost predicate MouseCommand(ops: seq<PortOp>, arg: uint32, succeeded: bool) {
    var answers := Answers(ops);
    && HandshakeSafe(ops)
    && ops != []
    && (succeeded <==> Accepted(answers))
    && if Stuck(ops[|ops| - 1]) then
         && Pending(answers)
         && StatusReads(ops) <= 6 * (|answers| + 1)
         && Pairs(arg, |answers|) <= Writes(ops) <= Pairs(arg, |answers| + 1)
       else
         && (Accepted(answers) || Rejected(answers))
         && StatusReads(ops) <= 6 * |answers|
         && Writes(ops) == Pairs(arg, |answers|)
  }

  /** A whole write of the controller's command byte: one pair of writes, at most three polls each. */
  ghost predicate ConfigCommand(ops: seq<PortOp>, arg: uint32, succeeded: bool) {
    var pair := [(CMD_REG, WRITE_CMD_B), (CMD_ARGS_REG, arg)];
    && HandshakeSafe(ops)
    && ops != []
    && Answers(ops) == []
    && StatusReads(ops) <= 6
    && (succeeded <==> !Stuck(ops[|ops| - 1]))
    && Writes(ops) <= pair && (succeeded <==> Writes(ops) == pair)
  }

  /** Between rounds. */
  ghost predicate RetryState(ops: seq<PortOp>, arg: uint32, tries: nat) {
    var answers := Answers(ops);
    && HandshakeSafe(ops)
    && Pending(answers)
    && Nacks(answers) == tries
    && Writes(ops) == Pairs(arg, |answers|)
    && StatusReads(ops) <= 6 * |answers|
  }

  /** The device keeps the handler, started at operation `t`, going for `n` rounds. */
  ghost predicate Undecided(device: Device, t: nat, n: nat) {
    (forall i: nat | i < n :: Answered(device, RoundStart(device, t, i))) && Pending(DeviceAnswers(device, t, n))
  }

  /** Between rounds, `n` of them made, with the answers that the device had for them. */
  ghost predicate Trying(device: Device, t: nat, n: nat, ops: seq<PortOp>, arg: uint32, tries: nat) {
    && RetryState(ops, arg, tries)
    && t + |ops| == RoundStart(device, t, n)
    && Answers(ops) == DeviceAnswers(device, t, n)
    && Undecided(device, t, n)
  }

  /** The handler returned within `rounds` rounds because the device did not keep it going. */
  ghost predicate Settled(device: Device, t: nat, rounds: nat, ops: seq<PortOp>) {
    && !Undecided(device, t, rounds)
    && |Answers(ops)| <= rounds
    && Answers(ops) == DeviceAnswers(device, t, |Answers(ops)|)
  }

  /** `k` times the same command byte and nothing else. */
  function Copies(cmd: uint32, k: nat): (w: seq<(nat, uint32)>)
    ensures |w| == k
  {
    if k == 0 then [] else Copies(cmd, k - 1) + [(CMD_REG, cmd)]
  }

  ghost predicate Repeated(ops: seq<PortOp>, cmd: uint32, k: nat) {
    HandshakeSafe(ops) && Answers(ops) == [] && Writes(ops) == Copies(cmd, k)
  }

  /** `Retrying` when the allotted rounds are over and the loop goes on. */
  datatype Outcome = Done(status: int) | Retrying

  /** What the handler makes of a command within `rounds` rounds, started at operation `t`. */
  ghost predicate Handled(device: Device, t: nat, rounds: nat, cmd: uint32, arg: uint32, outcome: Outcome,
                          ops: seq<PortOp>)
  {
    match outcome
    case Done(status) =>
      && (status == 0 || status == 1)
      && (cmd == WRITE_B_MOUSE ==> MouseCommand(ops, arg, status == 0) && Settled(device, t, rounds, ops))
      && (cmd == WRITE_CMD_B ==> ConfigCommand(ops, arg, status == 0))
      && (cmd != WRITE_B_MOUSE && cmd != WRITE_CMD_B ==>
            && status == 1 && |Writes(ops)| < rounds && Repeated(ops, cmd, |Writes(ops)|)
            && ops != [] && Stuck(ops[|ops| - 1]))
    case Retrying =>
      && (cmd == WRITE_B_MOUSE ==> Trying(device, t, rounds, ops, arg, Nacks(Answers(ops))))
      && (cmd == WRITE_CMD_B ==> rounds == 0 && ops == [])
      && (cmd != WRITE_B_MOUSE && cmd != WRITE_CMD_B ==> Repeated(ops, cmd, rounds))
  }

  /** The loop after `n` rounds. */
  ghost predicate InLoop(device: Device, t: nat, n: nat, cmd: uint32, arg: uint32, tries: nat, ops: seq<PortOp>) {
    && (cmd == WRITE_B_MOUSE ==> Trying(device, t, n, ops, arg, tries))
    && (cmd == WRITE_CMD_B ==> n == 0 && ops == [])
    && (cmd != WRITE_B_MOUSE && cmd != WRITE_CMD_B ==> Repeated(ops, cmd, n))
  }

  lemma CommandNotSent(ops: seq<PortOp>, w: seq<PortOp>, arg: uint32, tries: nat)
    requires RetryState(ops, arg, tries) && PolledWrite(w, CMD_REG, WRITE_B_MOUSE, false)
    ensures MouseCommand(ops + w, arg, false)
  {
    hide Writes, Answers, StatusReads, HandshakeSafe, Nacks;
    TraceAppend(ops, w);
    SafeAppend(ops, w);
    assert Answers(ops + w) == Answers(ops);
  }

  /** One round: the command byte got through, and the exchange with the mouse did or did not. */
  lemma AnotherRound(ops: seq<PortOp>, w: seq<PortOp>, x: seq<PortOp>, arg: uint32, tries: nat, answered: bool,
                     answer: bv8)
    requires RetryState(ops, arg, tries)
    requires PolledWrite(w, CMD_REG, WRITE_B_MOUSE, true) && MouseExchange(x, arg, answered, answer)
    ensures !answered ==> MouseCommand(ops + (w + x), arg, false)
    ensures answered && answer == ACK ==> MouseCommand(ops + (w + x), arg, true)
    ensures answered && (answer == ERROR || (answer == NACK && tries == 2)) ==> MouseCommand(ops + (w + x), arg, false)
    ensures answered && answer == NACK && tries < 2 ==> RetryState(ops + (w + x), arg, tries + 1)
    ensures answered && IsStray(answer) ==> RetryState(ops + (w + x), arg, tries)
  {
    hide Writes, Answers, StatusReads, HandshakeSafe, Stuck, Pending;
    var all, k, earlier := ops + (w + x), |Answers(ops)|, Answers(ops);
    TraceAppend(w, x);
    TraceAppend(ops, w + x);
    SafeAppend(w, x);
    SafeAppend(ops, w + x);
    NotSettled(earlier);
    assert all[|all| - 1] == x[|x| - 1];
    assert Writes(all) == Pairs(arg, k) + ([(CMD_REG, WRITE_B_MOUSE)] + Writes(x));
    assert Pairs(arg, k + 1) == Pairs(arg, k) + [(CMD_REG, WRITE_B_MOUSE), (CMD_ARGS_REG, arg)];
    if answered {
      assert Answers(all) == earlier + [answer];
      assert Writes(all) == Pairs(arg, k + 1);
      OneMoreAnswer(earlier, answer);
      NotSettled(earlier + [answer]);
    } else {
      assert Answers(all) == earlier;
      assert Writes(all) <= Pairs(arg, k + 1);
    }
  }

  lemma NotSettled(answers: seq<bv8>)
    ensures Pending(answers) ==> !Accepted(answers) && !Rejected(answers)
  {
  }

  lemma OneMoreAnswer(earlier: seq<bv8>, answer: bv8)
    requires Pending(earlier)
    ensures Nacks(earlier) < 3
    ensures (earlier + [answer])[..|earlier|] == earlier
    ensures Nacks(earlier + [answer]) == Nacks(earlier) + if answer == NACK then 1 else 0
    ensures Pending(earlier + [answer]) <==> answer != ACK && answer != ERROR && Nacks(earlier + [answer]) < 3
  {
    assert (earlier + [answer])[..|earlier|] == earlier;
  }

  lemma ConfigSent(w: seq<PortOp>, x: seq<PortOp>, arg: uint32, written: bool)
    requires PolledWrite(w, CMD_REG, WRITE_CMD_B, true) && PolledWrite(x, CMD_ARGS_REG, arg, written)
    ensures ConfigCommand(w + x, arg, written) && HandshakeSafe(w + x)
    ensures written ==> Writes(w + x) == [(0x64, 0x60), (0x60, arg)]
  {
    hide Writes, Answers, StatusReads, HandshakeSafe;
    TraceAppend(w, x);
    SafeAppend(w, x);
  }

  lemma ConfigNotSent(w: seq<PortOp>, arg: uint32)
    requires PolledWrite(w, CMD_REG, WRITE_CMD_B, false)
    ensures ConfigCommand(w, arg, false)
  {
  }

  // ---------- The rounds of the loop ----------

  lemma LoopEntered(device: Device, t: nat, cmd: uint32, arg: uint32)
    ensures InLoop(device, t, 0, cmd, arg, 0, [])
  {
  }

  lemma LoopLeft(device: Device, t: nat, n: nat, cmd: uint32, arg: uint32, tries: nat, ops: seq<PortOp>)
    requires InLoop(device, t, n, cmd, arg, tries, ops)
    ensures Handled(device, t, n, cmd, arg, Retrying, ops) && HandshakeSafe(ops)
    ensures cmd != 0x60 && cmd != 0xD4 ==> |Writes(ops)| == n
  {
  }

  lemma WriteSafe(w: seq<PortOp>, cmd: uint32)
    requires PolledWrite(w, CMD_REG, cmd, false)
    ensures HandshakeSafe(w)
  {
  }

  lemma {:induction false} UndecidedBefore(device: Device, t: nat, m: nat, n: nat)
    requires m <= n && Undecided(device, t, n)
    ensures Undecided(device, t, m)
  {
    hide Undecided;
    if m < n {
      UndecidedOneBefore(device, t, n - 1);
      UndecidedBefore(device, t, m, n - 1);
    }
  }

  lemma UndecidedOneBefore(device: Device, t: nat, n: nat)
    requires Undecided(device, t, n + 1)
    ensures Undecided(device, t, n)
  {
  }

  /** The command byte did not get through. */
  lemma RoundNotBegun(device: Device, t: nat, n: nat, rounds: nat, cmd: uint32, arg: uint32, tries: nat,
                      ops: seq<PortOp>, w: seq<PortOp>)
    requires InLoop(device, t, n, cmd, arg, tries, ops) && PolledWrite(w, CMD_REG, cmd, false)
    requires !Sends(device, t + |ops|) && n < rounds
    ensures Handled(device, t, rounds, cmd, arg, Done(1), ops + w) && HandshakeSafe(ops + w)
  {
    hide Writes, Answers, StatusReads, HandshakeSafe, MouseCommand, ConfigCommand, RetryState, Sends, Pending, Stuck;
    LoopLeft(device, t, n, cmd, arg, tries, ops);
    WriteSafe(w, cmd);
    TraceAppend(ops, w);
    SafeAppend(ops, w);
    if cmd == WRITE_B_MOUSE {
      CommandNotSent(ops, w, arg, tries);
      assert Answers(ops + w) == Answers(ops);
      assert !Undecided(device, t, rounds);
    } else if cmd == WRITE_CMD_B {
      ConfigNotSent(w, arg);
      assert ops + w == w;
    }
  }

  /** A round with the mouse is over. */
  lemma RoundOver(device: Device, t: nat, n: nat, rounds: nat, arg: uint32, tries: nat, ops: seq<PortOp>,
                  w: seq<PortOp>, x: seq<PortOp>, answered: bool, answer: bv8)
    requires Trying(device, t, n, ops, arg, tries) && n < rounds && tries < 3
    requires PolledWrite(w, CMD_REG, WRITE_B_MOUSE, true) && MouseExchange(x, arg, answered, answer)
    requires answered <==> Answered(device, t + |ops|)
    requires answered ==> t + |ops + (w + x)| == AnswerTime(device, t + |ops|) + 1
    requires answered ==> answer == device.output(AnswerTime(device, t + |ops|)).value
    ensures var all := ops + (w + x);
            && HandshakeSafe(all)
            && if answered && (IsStray(answer) || (answer == NACK && tries < 2)) then
                 Trying(device, t, n + 1, all, arg, if answer == NACK then tries + 1 else tries)
               else MouseCommand(all, arg, answered && answer == ACK) && Settled(device, t, rounds, all)
  {
    hide Writes, StatusReads, HandshakeSafe, Stuck, MouseCommand, Answers, Answered, AnswerTime, Pending, RetryState,
         MouseExchange, PolledWrite;
    var all := ops + (w + x);
    AnotherRound(ops, w, x, arg, tries, answered, answer);
    AnswersOfRound(ops, w, x, arg, answered, answer);
    RoundSafe(ops, w, x, arg, tries, answered, answer);
    if answered {
      assert Answers(all) == DeviceAnswers(device, t, n + 1);
      OneMoreAnswerHere(ops, arg, tries, answer);
      if !Pending(Answers(all)) && Undecided(device, t, rounds) {
        UndecidedBefore(device, t, n + 1, rounds);
      }
    }
  }

  lemma OneMoreAnswerHere(ops: seq<PortOp>, arg: uint32, tries: nat, answer: bv8)
    requires RetryState(ops, arg, tries)
    ensures Pending(Answers(ops) + [answer]) <==> IsStray(answer) || (answer == NACK && tries < 2)
  {
  }

  lemma AnswersOfRound(ops: seq<PortOp>, w: seq<PortOp>, x: seq<PortOp>, arg: uint32, answered: bool, answer: bv8)
    requires PolledWrite(w, CMD_REG, WRITE_B_MOUSE, true) && MouseExchange(x, arg, answered, answer)
    ensures Answers(ops + (w + x)) == Answers(ops) + if answered then [answer] else []
  {
    hide Writes, Answers, StatusReads, HandshakeSafe;
    TraceAppend(w, x);
    TraceAppend(ops, w + x);
  }

  lemma RoundSafe(ops: seq<PortOp>, w: seq<PortOp>, x: seq<PortOp>, arg: uint32, tries: nat, answered: bool,
                  answer: bv8)
    requires RetryState(ops, arg, tries)
    requires PolledWrite(w, CMD_REG, WRITE_B_MOUSE, true) && MouseExchange(x, arg, answered, answer)
    ensures HandshakeSafe(ops + (w + x))
  {
    hide HandshakeSafe;
    SafeAppend(w, x);
    SafeAppend(ops, w + x);
  }

  /** A command that the handler has no branch for is written once more. */
  lemma RepeatedOnce(ops: seq<PortOp>, w: seq<PortOp>, cmd: uint32, n: nat)
    requires Repeated(ops, cmd, n) && PolledWrite(w, CMD_REG, cmd, true)
    ensures Repeated(ops + w, cmd, n + 1)
  {
    hide Writes, Answers, StatusReads, HandshakeSafe;
    TraceAppend(ops, w);
    SafeAppend(ops, w);
  }

  // ---------- What the protocol guarantees ----------

  /** No more than two NACKs can precede the answer that settles a command, so every round but the stray
      ones is accounted for. */
  lemma {:induction false} PendingLength(answers: seq<bv8>)
    requires forall i | 0 <= i < |answers| :: answers[i] != ACK && answers[i] != ERROR
    ensures |answers| == Nacks(answers) + Strays(answers)
  {
    if answers != [] {
      PendingLength(answers[..|answers| - 1]);
    }
  }

  /** Rounds beyond the second are all paid for by stray answers, so the handler returns if strays stop. */
  lemma RoundsNeedStrays(device: Device, t: nat, n: nat, ops: seq<PortOp>, arg: uint32, tries: nat)
    requires Trying(device, t, n, ops, arg, tries)
    ensures n <= 2 + Strays(Answers(ops))
  {
    PendingLength(Answers(ops));
  }

  ghost predicate ThreeNacks(device: Device, t: nat) {
    exists i: nat, j: nat, k: nat :: i < j < k
      && AnswerAt(device, t, i) == NACK && AnswerAt(device, t, j) == NACK && AnswerAt(device, t, k) == NACK
  }

  /** No operation of the handler gets stuck, and the device has no ACK and no ERROR for it at any time, and
      not three NACKs. */
  ghost predicate NeverDecides(device: Device, t: nat) {
    && (forall n: nat :: Answered(device, RoundStart(device, t, n)))
    && (forall n: nat :: AnswerAt(device, t, n) != ACK && AnswerAt(device, t, n) != ERROR)
    && !ThreeNacks(device, t)
  }

  /** The handler, started at operation `t`, never returns exactly when the device never decides. */
  lemma NeverReturnsIff(device: Device, t: nat)
    ensures (forall n: nat :: Undecided(device, t, n)) <==> NeverDecides(device, t)
  {
    if forall n: nat :: Undecided(device, t, n) {
      AlwaysUndecided(device, t);
    }
    if NeverDecides(device, t) {
      forall n: nat
        ensures Undecided(device, t, n)
      {
        StillUndecided(device, t, n);
      }
    }
  }

  lemma AlwaysUndecided(device: Device, t: nat)
    requires forall n: nat :: Undecided(device, t, n)
    ensures NeverDecides(device, t)
  {
    hide Answered, RoundStart, AnswerAt;
    forall n: nat
      ensures Answered(device, RoundStart(device, t, n))
      ensures AnswerAt(device, t, n) != ACK && AnswerAt(device, t, n) != ERROR
    {
      assert Undecided(device, t, n + 1);
      AnswersRead(device, t, n + 1);
    }
    if ThreeNacks(device, t) {
      var i: nat, j: nat, k: nat :| i < j < k && AnswerAt(device, t, i) == NACK
                                    && AnswerAt(device, t, j) == NACK && AnswerAt(device, t, k) == NACK;
      assert Undecided(device, t, k + 1);
      AnswersRead(device, t, k + 1);
      ThirdNackCounts(DeviceAnswers(device, t, k + 1), i, j, k);
    }
  }

  lemma StillUndecided(device: Device, t: nat, n: nat)
    requires NeverDecides(device, t)
    ensures Undecided(device, t, n)
  {
    hide Answered, RoundStart, AnswerAt;
    AnswersRead(device, t, n);
    if Nacks(DeviceAnswers(device, t, n)) >= 3 {
      var i, j, k := ThreeOf(DeviceAnswers(device, t, n));
      assert false;
    }
  }

  lemma {:induction false} AnswersRead(device: Device, t: nat, n: nat)
    ensures forall i: nat | i < n :: DeviceAnswers(device, t, n)[i] == AnswerAt(device, t, i)
  {
    hide AnswerAt;
    if n > 0 {
      AnswersRead(device, t, n - 1);
    }
  }

  lemma {:induction false} NackBefore(answers: seq<bv8>, k: nat)
    requires k < |answers|
    ensures Nacks(answers[..k]) + (if answers[k] == NACK then 1 else 0) <= Nacks(answers)
  {
    var init := answers[..|answers| - 1];
    if k < |init| {
      NackBefore(init, k);
      assert init[..k] == answers[..k];
    }
  }

  lemma ThirdNackCounts(answers: seq<bv8>, i: nat, j: nat, k: nat)
    requires i < j < k < |answers| && answers[i] == NACK && answers[j] == NACK && answers[k] == NACK
    ensures Nacks(answers) >= 3
  {
    NackBefore(answers, k);
    NackBefore(answers[..k], j);
    NackBefore(answers[..k][..j], i);
  }

  lemma {:induction false} LastNack(answers: seq<bv8>) returns (k: nat)
    requires Nacks(answers) > 0
    ensures k < |answers| && answers[k] == NACK && Nacks(answers[..k]) == Nacks(answers) - 1
  {
    k := |answers| - 1;
    if answers[k] != NACK {
      k := LastNack(answers[..|answers| - 1]);
      assert answers[..|answers| - 1][..k] == answers[..k];
    }
  }

  lemma ThreeOf(answers: seq<bv8>) returns (i: nat, j: nat, k: nat)
    requires Nacks(answers) >= 3
    ensures i < j < k < |answers| && answers[i] == NACK && answers[j] == NACK && answers[k] == NACK
  {
    k := LastNack(answers);
    j := LastNack(answers[..k]);
    i := LastNack(answers[..k][..j]);
  }

  /** A mouse that only ever has the byte 0 to deliver: the handler writes to it for ever. */
  function ZeroMouse(): Device {
    Device(_ => Reply(true, 0), _ => Reply(true, 0), _ => true)
  }

  lemma {:induction false} RetriesForEver(arg: uint32, n: nat) returns (ops: seq<PortOp>)
    ensures Faithful(ZeroMouse(), ops) && RetryState(ops, arg, 0) && |Answers(ops)| == n && |Writes(ops)| == 2 * n
    ensures Undecided(ZeroMouse(), 0, n)
  {
    ops := [];
    if n > 0 {
      hide RetryState, Answers, Writes, Undecided, Faithful;
      var init := RetriesForEver(arg, n - 1);
      ops := ZeroRound(arg, init);
    }
    WrittenInPairs(ops, arg, 0);
    ZeroNeverDecides(n);
  }

  lemma ZeroRound(arg: uint32, init: seq<PortOp>) returns (ops: seq<PortOp>)
    requires Faithful(ZeroMouse(), init) && RetryState(init, arg, 0)
    ensures Faithful(ZeroMouse(), ops) && RetryState(ops, arg, 0) && |Answers(ops)| == |Answers(init)| + 1
  {
    var poll, w0, w1 := In(STATUS_REG, Reply(true, 0)), Out(CMD_REG, WRITE_B_MOUSE, true), Out(CMD_ARGS_REG, arg, true);
    var w, x := [poll, w0], [poll, w1] + [In(OUT_BUF, Reply(true, 0))];
    ops := init + (w + x);
    assert Faithful(ZeroMouse(), ops);
    assert ClearPoll(poll) && IsStray(0);
    hide *;
    PolledOnce(poll, w0);
    PolledOnce(poll, w1);
    ExchangeRead([poll, w1], arg, Reply(true, 0), 0);
    AnotherRound(init, w, x, arg, 0, true, 0);
    AnswersOfRound(init, w, x, arg, true, 0);
  }

  lemma ZeroNeverDecides(n: nat)
    ensures Undecided(ZeroMouse(), 0, n)
  {
    hide RoundStart, Undecided;
    NeverReturnsIff(ZeroMouse(), 0);
  }

  lemma WrittenInPairs(ops: seq<PortOp>, arg: uint32, tries: nat)
    requires RetryState(ops, arg, tries)
    ensures |Writes(ops)| == 2 * |Answers(ops)|
  {
  }

  lemma PolledOnce(poll: PortOp, write: PortOp)
    requires ClearPoll(poll) && write.Out? && write.ok
    ensures PolledWrite([poll, write], write.port, write.value, true)
  {
    NothingYet();
    OneMorePoll([], poll);
    assert [] + [poll] == [poll] && [poll] + [write] == [poll, write];
    PollsThenWrite([poll], write);
  }

  /** A command takes at most three rounds and one more for each stray answer, of at most six polls each. */
  lemma PollBound(ops: seq<PortOp>, arg: uint32, succeeded: bool)
    requires MouseCommand(ops, arg, succeeded)
    ensures StatusReads(ops) <= 18 + 6 * Strays(Answers(ops))
  {
    hide Writes, StatusReads, HandshakeSafe;
    var answers := Answers(ops);
    if Pending(answers) {
      PendingLength(answers);
    } else {
      PendingLength(answers[..|answers| - 1]);
    }
  }

  /** When the mouse answers only ACK, NACK or ERROR and nothing gets stuck: between one and three rounds are
      written, and the command succeeds exactly when all answers but the last are NACK and the last is ACK. */
  lemma RetryProtocol(ops: seq<PortOp>, arg: uint32, succeeded: bool)
    requires MouseCommand(ops, arg, succeeded) && !Stuck(ops[|ops| - 1])
    requires Strays(Answers(ops)) == 0
    ensures var answers := Answers(ops);
            && 1 <= |answers| <= 3
            && |Writes(ops)| == 2 * |answers|
            && (forall i | 0 <= i < |answers| ::
                  Writes(ops)[2 * i] == (0x64, 0xD4) && Writes(ops)[2 * i + 1] == (0x60, arg))
            && (succeeded <==> answers[|answers| - 1] == 0xFA)
            && (!succeeded ==> answers[|answers| - 1] == 0xFC || answers[|answers| - 1] == 0xFE)
            && (forall i | 0 <= i < |answers| - 1 :: answers[i] == 0xFE)
  {
    hide Writes, StatusReads, HandshakeSafe, Stuck;
    var answers := Answers(ops);
    var earlier := answers[..|answers| - 1];
    PendingLength(earlier);
    NoStrays(earlier);
    PairsAre(arg, |answers|);
  }

  lemma {:induction false} PairsAre(arg: uint32, k: nat)
    ensures forall i | 0 <= i < k :: Pairs(arg, k)[2 * i] == (0x64, 0xD4) && Pairs(arg, k)[2 * i + 1] == (0x60, arg)
  {
    if k > 0 {
      PairsAre(arg, k - 1);
    }
  }

  /** A command byte is written as 0x60 to port 0x64 and the byte to port 0x60. */
  lemma ConfigWrites(ops: seq<PortOp>, arg: uint32)
    requires ConfigCommand(ops, arg, true)
    ensures Writes(ops) == [(0x64, 0x60), (0x60, arg)]
  {
  }

  lemma {:induction false} NoStrays(answers: seq<bv8>)
    requires Strays(answers) == 0
    ensures forall i | 0 <= i < |answers| :: !IsStray(answers[i])
  {
    if answers != [] {
      NoStrays(answers[..|answers| - 1]);
    }
  }

  class Controller {
    const device: Device
    var trace: seq<PortOp>

    ghost predicate Valid()
      reads this
    {
      Faithful(device, trace)
    }

    constructor (device: Device)
      ensures Valid() && this.device == device && trace == []
    {
      this.device := device;
      trace := [];
    }

    /** `kbc_read_status`. */
    method ReadStatus() returns (reply: Reply)
      requires Valid()
      modifies this
      ensures Valid()
      ensures reply == device.status(|old(trace)|)
      ensures trace == old(trace) + [In(STATUS_REG, reply)]
    {
      reply := device.status(|trace|);
      trace := trace + [In(STATUS_REG, reply)];
    }

    method ReadOutput() returns (reply: Reply)
      requires Valid()
      modifies this
      ensures Valid()
      ensures reply == device.output(|old(trace)|)
      ensures trace == old(trace) + [In(OUT_BUF, reply)]
    {
      reply := device.output(|trace|);
      trace := trace + [In(OUT_BUF, reply)];
    }

    method SysOutb(port: nat, value: uint32) returns (ok: bool)
      requires Valid()
      modifies this
      ensures Valid()
      ensures ok == device.accepts(|old(trace)|)
      ensures trace == old(trace) + [Out(port, value, ok)]
    {
      ok := device.accepts(|trace|);
      trace := trace + [Out(port, value, ok)];
    }

    /** `kbc_check_in_buf`: an empty input buffer, as far as the status could be read. */
    method CheckInBuf() returns (empty: bool)
      requires Valid()
      modifies this
      ensures Valid()
      ensures |trace| == |old(trace)| + 1 && trace[..|old(trace)|] == old(trace)
      ensures trace[|old(trace)|] == In(STATUS_REG, device.status(|old(trace)|))
      ensures empty <==> ClearPoll(trace[|old(trace)|])
      ensures var reply := device.status(|old(trace)|); empty <==> reply.ok && reply.value & 0x02 == 0
    {
      var status := ReadStatus();
      if !status.ok {
        return false;
      }
      return status.value & KBC_INPB == 0;
    }

    /** `kbc_write_command` and `kbc_write_argument`, which differ in the port alone. */
    method PollAndWrite(port: nat, value: uint32) returns (status: int, ghost ops: seq<PortOp>)
      requires Valid()
      modifies this
      ensures Valid()
      ensures trace == old(trace) + ops
      ensures PolledWrite(ops, port, value, status == 0) && (status == 0 || status == 1)
      ensures status == 0 <==> Sends(device, |old(trace)|)
      ensures status == 0 ==> |trace| == Sent(device, |old(trace)|)
    {
      hide Faithful, Writes, Answers, StatusReads;
      ops := [];
      var tries := 0;
      NothingYet();
      while tries < 3
        invariant Valid() && 0 <= tries <= 3 && |ops| == tries == StatusReads(ops)
        invariant trace == old(trace) + ops
        invariant Answers(ops) == [] && Writes(ops) == []
        invariant forall i | 0 <= i < |ops| :: ops[i].In? && ops[i].port == STATUS_REG && !ClearPoll(ops[i])
        invariant (tries >= 1 ==> !Clear(device, |old(trace)|)) && (tries >= 2 ==> !Clear(device, |old(trace)| + 1))
        invariant tries >= 3 ==> !Clear(device, |old(trace)| + 2)
      {
        tries := tries + 1;
        ghost var before := trace;
        var empty := CheckInBuf();
        ghost var poll := trace[|before|];
        assert trace == before + [poll];
        OneMorePoll(ops, poll);
        ops := ops + [poll];
        if empty {
          var ok := SysOutb(port, value);
          PollsThenWrite(ops, Out(port, value, ok));
          return if ok then 0 else 1, ops + [Out(port, value, ok)];
        }
      }
      return 1, ops;
    }

    /** `mouse_write_command`: a polled write to the mouse, and its answer. */
    method MouseWriteCommand(cmd: uint32) returns (status: int, answer: bv8, ghost ops: seq<PortOp>)
      requires Valid()
      modifies this
      ensures Valid()
      ensures trace == old(trace) + ops && |ops| > 0
      ensures MouseExchange(ops, cmd, status == 0, answer) && (status == 0 || status == 1)
      ensures status == 0 <==> Sends(device, |old(trace)|) && device.output(Sent(device, |old(trace)|)).ok
      ensures status == 0 ==> |trace| == Sent(device, |old(trace)|) + 1
      ensures status == 0 ==> answer == device.output(Sent(device, |old(trace)|)).value
    {
      hide Faithful, PolledWrite, MouseExchange;
      status, ops := PollAndWrite(CMD_ARGS_REG, cmd);
      answer := 0;
      ExchangeNotSent(ops, cmd, status == 0, answer);
      if status == 0 {
        var reply := ReadOutput();
        ExchangeRead(ops, cmd, reply, if reply.ok then reply.value else answer);
        ops := ops + [In(OUT_BUF, reply)];
        if !reply.ok {
          return 1, answer, ops;
        }
        answer := reply.value;
      }
    }

    /** `kbc_command_handler`, for as many rounds as are allotted: nothing in it bounds them. */
    method CommandHandler(cmd: uint32, arg: uint32, rounds: nat) returns (outcome: Outcome, ghost ops: seq<PortOp>)
      requires Valid()
      modifies this
      ensures Valid()
      ensures trace == old(trace) + ops && HandshakeSafe(ops)
      ensures Handled(device, |old(trace)|, rounds, cmd, arg, outcome, ops)
      ensures cmd == 0x60 && rounds > 0 ==> outcome.Done?
      ensures cmd == 0x60 && outcome == Done(0) ==> Writes(ops) == [(0x64, 0x60), (0x60, arg)]
      ensures cmd != 0x60 && cmd != 0xD4 ==> outcome != Done(0) && (outcome.Retrying? ==> |Writes(ops)| == rounds)
      ensures cmd == WRITE_B_MOUSE ==> (outcome.Retrying? <==> Undecided(device, |old(trace)|, rounds))
    {
      hide Faithful, PolledWrite, MouseExchange, RetryState, Undecided, Answers, DeviceAnswers, RoundStart,
           MouseCommand, ConfigCommand, Repeated, HandshakeSafe, Answered, Sends, Sent;
      ghost var t := |trace|;
      var tries, n := 0, 0;
      ops := [];
      LoopEntered(device, t, cmd, arg);
      while true
        invariant Valid() && 0 <= tries < 3 && n <= rounds && trace == old(trace) + ops
        invariant InLoop(device, t, n, cmd, arg, tries, ops)
        decreases rounds - n
      {
        if n == rounds {
          LoopLeft(device, t, n, cmd, arg, tries, ops);
          return Retrying, ops;
        }
        var sent, w := PollAndWrite(CMD_REG, cmd);
        if sent != 0 {
          RoundNotBegun(device, t, n, rounds, cmd, arg, tries, ops, w);
          return Done(1), ops + w;
        }
        if cmd == WRITE_B_MOUSE {
          var failed, answer, x := MouseWriteCommand(arg);
          AnswerComes(device, t + |ops|);
          RoundOver(device, t, n, rounds, arg, tries, ops, w, x, failed == 0, answer);
          assert trace == old(trace) + (ops + (w + x));
          ops := ops + (w + x);
          if failed != 0 {
            return Done(1), ops;
          }
          if answer == ACK {
            return Done(0), ops;
          } else if answer == NACK {
            tries := tries + 1;
          } else if answer == ERROR {
            return Done(1), ops;
          }
        } else if cmd == WRITE_CMD_B {
          var failed, x := PollAndWrite(CMD_ARGS_REG, arg);
          ConfigSent(w, x, arg, failed == 0);
          assert [] + (w + x) == w + x && trace == old(trace) + (w + x);
          if failed != 0 {
            return Done(1), w + x;
          }
          return Done(0), w + x;
        } else {
          RepeatedOnce(ops, w, cmd, n);
          assert trace == old(trace) + (ops + w);
          ops := ops + w;
        }
        if tries >= 3 {
          break;
        }
        n := n + 1;
      }
      return Done(1), ops;
    }
  }

  /** The parts of a round, put together. */
  lemma AnswerComes(device: Device, t: nat)
    ensures Answered(device, t) <==>
      Sends(device, t) && Sends(device, Sent(device, t)) && device.output(Sent(device, Sent(device, t))).ok
    ensures AnswerTime(device, t) == Sent(device, Sent(device, t))
  {
  }
}
