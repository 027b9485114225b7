/** The idle timeout of `kbd_test_timed_scan`. */
module IdleTimeout {
  import opened Machine
  import opened Wrappers
  import opened Messages

  /** Timer interrupts handled since the last keyboard interrupt, or since the start. In a message that
      carries both, the keyboard comes first. */
  function TicksIdle(messages: seq<Message>): nat {
    if messages == [] then 0
    else
      var last := messages[|messages| - 1];
      var tick := if last.Hardware? && last.timer then 1 else 0;
      if last.Hardware? && last.keyboard then tick else TicksIdle(messages[..|messages| - 1]) + tick
  }

  /** The tick counter at the last keyboard interrupt, or at the start. */
  function CounterAtKey(counter: nat, messages: seq<Message>): int {
    counter + Ticks(messages) - TicksIdle(messages)
  }

  /** The ticks that the counter still has to make, from `counter`, to pass `n` multiples of 60. */
  function Allowance(n: nat, counter: int): int {
    60 * n - counter % 60
  }

  /** The loop goes on: no ESC, and fewer idle ticks than the phase of the counter allows. */
  predicate Listening(n: uint8, counter: nat, code: uint8, messages: seq<Message>) {
    && ScancodeAfter(code, messages) != KB_BREAK_ESC
    && TicksIdle(messages) < Allowance(n, CounterAtKey(counter, messages))
  }

  lemma {:induction false} IdleAtMostAll(messages: seq<Message>)
    ensures TicksIdle(messages) <= Ticks(messages)
  {
    if messages != [] {
      IdleAtMostAll(messages[..|messages| - 1]);
    }
  }

  lemma IdleMore(messages: seq<Message>, message: Message)
    ensures var tick := if message.Hardware? && message.timer then 1 else 0;
            && TicksIdle(messages + [message]) ==
               (if message.Hardware? && message.keyboard then tick else TicksIdle(messages) + tick)
            && Ticks(messages + [message]) == Ticks(messages) + tick
  {
  }

  /** A run over `messages`: it went on after every shorter prefix, and the variables are up to date. The
      seconds elapsed are the multiples of 60 the counter passed since the last key. */
  ghost predicate Run(n: uint8, counter0: nat, code: uint8, messages: seq<Message>, counter: int, scancode: uint8,
                      elapsed: int)
  {
    && counter == counter0 + Ticks(messages)
    && scancode == ScancodeAfter(code, messages)
    && 0 <= CounterAtKey(counter0, messages) <= counter
    && elapsed == counter / 60 - CounterAtKey(counter0, messages) / 60
    && forall m | 0 <= m < |messages| :: Listening(n, counter0, code, messages[..m])
  }

  lemma RunStarts(n: uint8, counter0: nat, code: uint8)
    ensures Run(n, counter0, code, [], counter0, code, 0)
  {
  }

  /** The test of the loop, in terms of its variables and in terms of what happened. */
  lemma RunDecides(n: uint8, counter0: nat, code: uint8, messages: seq<Message>, counter: int, scancode: uint8,
                   elapsed: int)
    requires Run(n, counter0, code, messages, counter, scancode, elapsed)
    ensures Listening(n, counter0, code, messages) <==> scancode != 0x81 && elapsed < n
  {
  }

  lemma RunContinues(n: uint8, counter0: nat, code: uint8, messages: seq<Message>, message: Message, counter: int,
                     scancode: uint8, elapsed: int)
    requires Run(n, counter0, code, messages, counter, scancode, elapsed)
    requires Listening(n, counter0, code, messages)
    ensures var typed := message.Hardware? && message.keyboard;
            var ticked := message.Hardware? && message.timer;
            var scancode' := if typed && message.typed.Some? then message.typed.value else scancode;
            var counter' := if ticked then counter + 1 else counter;
            var elapsed' := (if typed then 0 else elapsed) + if ticked && counter' % 60 == 0 then 1 else 0;
            Run(n, counter0, code, messages + [message], counter', scancode', elapsed')
  {
    hide Ticks, TicksIdle, ScancodeAfter, Listening;
    IdleMore(messages, message);
    OneMore(code, messages, message);
    IdleAtMostAll(messages);
    PrefixesKept(messages, message);
  }

  class Listener {
    var scancode: uint8
    var counter: int

    constructor ()
      ensures scancode == 0 && counter == 0
    {
      scancode, counter := 0, 0;
    }

    /** The event loop between the subscriptions. */
    method TimedScan(n: uint8, messages: seq<Message>) returns (outcome: Outcome, handled: nat, elapsed: int)
      requires counter >= 0
      modifies this
      ensures handled <= |messages|
      ensures Run(n, old(counter), old(scancode), messages[..handled], counter, scancode, elapsed)
      ensures outcome == if Listening(n, old(counter), old(scancode), messages[..handled]) then Waiting else Finished(0)
      ensures outcome.Waiting? ==> handled == |messages|
    {
      hide Run, Listening;
      elapsed, handled := 0, 0;
      ghost var counter0, code := counter, scancode;
      RunStarts(n, counter0, code);
      assert messages[..0] == [];
      while scancode != KB_BREAK_ESC && elapsed < n
        invariant handled <= |messages|
        invariant Run(n, counter0, code, messages[..handled], counter, scancode, elapsed)
        decreases |messages| - handled
      {
        RunDecides(n, counter0, code, messages[..handled], counter, scancode, elapsed);
        if handled == |messages| {
          return Waiting, handled, elapsed;
        }
        var message := messages[handled];
        RunContinues(n, counter0, code, messages[..handled], message, counter, scancode, elapsed);
        assert messages[..handled] + [message] == messages[..handled + 1];
        handled := handled + 1;
        if message.Hardware? {
          if message.keyboard {
            if message.typed.Some? {
              scancode := message.typed.value;
            }
            elapsed := 0;
          }
          if message.timer {
            counter := counter + 1;
            if counter % 60 == 0 {
              elapsed := elapsed + 1;
            }
          }
        }
      }
      RunDecides(n, counter0, code, messages[..handled], counter, scancode, elapsed);
      return Finished(0), handled, elapsed;
    }
  }

  /** A run that times out has been idle for exactly the allowance: between `60(n-1)+1` and `60n` ticks,
      depending on the phase of the counter when the last key came. */
  lemma {:induction false} TimesOutOnTime(n: uint8, counter0: nat, code: uint8, messages: seq<Message>, counter: int,
                                          scancode: uint8, elapsed: int)
    requires n >= 1 && Run(n, counter0, code, messages, counter, scancode, elapsed)
    requires !Listening(n, counter0, code, messages) && scancode != KB_BREAK_ESC
    ensures TicksIdle(messages) == Allowance(n, CounterAtKey(counter0, messages))
    ensures 60 * (n - 1) + 1 <= TicksIdle(messages) <= 60 * n
  {
    hide Ticks, TicksIdle, ScancodeAfter;
    if messages == [] {
      NothingIdle();
    } else {
      var init, last := messages[..|messages| - 1], messages[|messages| - 1];
      assert init + [last] == messages;
      IdleMore(init, last);
      assert Listening(n, counter0, code, init);
    }
  }

  lemma NothingIdle()
    ensures TicksIdle([]) == 0 && Ticks([]) == 0
  {
  }
}
