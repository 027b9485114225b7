/** The messages that the interrupt-driven loops receive. */
module Messages {
  import opened Machine
  import opened Wrappers

  const KB_BREAK_ESC: uint8 := 0x81

  /** One return of `driver_receive`. For a keyboard interrupt, `typed` is the byte that the handler read
      into `scancode`, if it got as far as reading one. */
  datatype Message =
    | Failed
    | Other
    | Hardware(keyboard: bool, typed: Option<uint8>, timer: bool)

  /** `Waiting` when the messages ran out inside `driver_receive`. */
  datatype Outcome = Finished(status: int) | Waiting

  function ScancodeAfter(code: uint8, messages: seq<Message>): uint8 {
    if messages == [] then code
    else
      var last := messages[|messages| - 1];
      if last.Hardware? && last.keyboard && last.typed.Some? then last.typed.value
      else ScancodeAfter(code, messages[..|messages| - 1])
  }

  function Ticks(messages: seq<Message>): nat {
    if messages == [] then 0
    else
      var last := messages[|messages| - 1];
      Ticks(messages[..|messages| - 1]) + if last.Hardware? && last.timer then 1 else 0
  }

  lemma OneMore(code: uint8, messages: seq<Message>, message: Message)
    ensures Ticks(messages + [message]) == Ticks(messages) + if message.Hardware? && message.timer then 1 else 0
    ensures ScancodeAfter(code, messages + [message]) ==
            if message.Hardware? && message.keyboard && message.typed.Some? then message.typed.value
            else ScancodeAfter(code, messages)
  {
  }
}
