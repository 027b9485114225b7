/** The interrupt loop of `mouse_test_packet` over the globals `data`, `size` and `bytes`. */
module Mouse {
  import opened Machine
  import opened Wrappers
  import opened Packets
  import opened Kbc

  const KBC_OUTB: bv8 := 0x01
  const KBC_TIMEO: bv8 := 0x40
  const KBC_PARE: bv8 := 0x80

  /** One return of `driver_receive`. For a mouse interrupt, `status` and `output` are what the controller
      replies if the handler reads the status register and the output buffer. */
  datatype Event =
    | ReceiveError
    | Other
    | Interrupt(status: Reply, output: Reply)

  datatype Outcome = Counted | Waiting

  /** `kbc_check_out_buf`: a byte is there, and it came without a parity or a timeout error. */
  predicate OutputReady(status: Reply) {
    status.ok && status.value & KBC_OUTB != 0 && status.value & (KBC_PARE | KBC_TIMEO) == 0
  }

  /** Both reads succeed, the output-buffer bit of the status is set, and its two error bits are clear. */
  predicate Readable(status: Reply, output: Reply) {
    status.ok && status.value & 0x01 != 0 && status.value & 0xC0 == 0 && output.ok
  }

  lemma ReadableMeans(status: Reply, output: Reply)
    ensures Readable(status, output) <==> OutputReady(status) && output.ok
  {
  }

  /** `data` after an interrupt: the byte read, or the old one when none could be read. */
  function DataAfter(data: bv8, status: Reply, output: Reply): bv8 {
    if OutputReady(status) && output.ok then output.value else data
  }

  /** The value of `data` at the end of each mouse interrupt. */
  function Observed(data: bv8, events: seq<Event>): seq<bv8> {
    if events == [] then []
    else
      var earlier := Observed(data, events[..|events| - 1]);
      match events[|events| - 1]
      case Interrupt(status, output) => earlier + [DataAfter(Latest(data, earlier), status, output)]
      case _ => earlier
  }

  function Latest(data: bv8, observed: seq<bv8>): bv8 {
    if observed == [] then data else observed[|observed| - 1]
  }

  /** The bytes the framing works on: when a packet was left unfinished by an earlier run, the first byte
      only resets the framing. */
  function Stream(unfinished: bool, observed: seq<bv8>): seq<bv8> {
    if unfinished && observed != [] then observed[1..] else observed
  }

  function ParseAll(frames: seq<seq<bv8>>): seq<Packet>
    requires forall i | 0 <= i < |frames| :: |frames[i]| == 3
  {
    if frames == [] then [] else ParseAll(frames[..|frames| - 1]) + [Parse(frames[|frames| - 1])]
  }

  /** The globals when the loop is entered; `partial` holds the bytes of an unfinished packet. */
  datatype Entry = Entry(data: bv8, partial: seq<bv8>, printed: seq<Packet>)

  /** The bytes the loop has framed: see `Stream`. */
  function Taken(entry: Entry, events: seq<Event>): seq<bv8> {
    Stream(entry.partial != [], Observed(entry.data, events))
  }

  /** The globals after some events: the packets of the byte stream are printed, and what remains of the
      stream is in the buffer. */
  ghost predicate Framed(entry: Entry, events: seq<Event>, data: bv8, buffer: seq<bv8>, printed: seq<Packet>) {
    var observed := Observed(entry.data, events);
    && data == Latest(entry.data, observed)
    && buffer == (if observed == [] then entry.partial else Rest(Taken(entry, events)))
    && printed == entry.printed + ParseAll(Frames(Taken(entry, events)))
  }

  /** How many packets the events have completed. */
  function Completed(entry: Entry, events: seq<Event>): nat {
    |Frames(Taken(entry, events))|
  }

  lemma QuietEvent(entry: Entry, events: seq<Event>, event: Event, data: bv8, buffer: seq<bv8>,
                   printed: seq<Packet>)
    requires Framed(entry, events, data, buffer, printed) && !event.Interrupt?
    ensures Framed(entry, events + [event], data, buffer, printed)
    ensures Completed(entry, events + [event]) == Completed(entry, events)
    ensures Observed(entry.data, events + [event]) == Observed(entry.data, events)
  {
  }

  lemma ObservedMore(data: bv8, events: seq<Event>, event: Event)
    requires event.Interrupt?
    ensures Observed(data, events + [event]) ==
            Observed(data, events) + [DataAfter(Latest(data, Observed(data, events)), event.status, event.output)]
  {
  }

  lemma ParseMore(frames: seq<seq<bv8>>, frame: seq<bv8>)
    requires |frame| == 3 && forall i | 0 <= i < |frames| :: |frames[i]| == 3
    ensures ParseAll(frames + [frame]) == ParseAll(frames) + [Parse(frame)]
  {
  }

  /** A mouse interrupt that leaves `b` in `data`: what becomes of `b`. */
  lemma InterruptEvent(entry: Entry, events: seq<Event>, event: Event, data: bv8, buffer: seq<bv8>,
                       printed: seq<Packet>, b: bv8)
    requires Framed(entry, events, data, buffer, printed)
    requires event.Interrupt? && b == DataAfter(data, event.status, event.output)
    ensures Observed(entry.data, events + [event]) != []
    ensures var more := events + [event];
            if (entry.partial != [] && Observed(entry.data, events) == []) || (buffer == [] && !Starts(b)) then
              && Framed(entry, more, b, [], printed)
              && Completed(entry, more) == Completed(entry, events)
            else if |buffer| == 2 then
              && Framed(entry, more, b, [], printed + [Parse(buffer + [b])])
              && Completed(entry, more) == Completed(entry, events) + 1
            else
              && Framed(entry, more, b, buffer + [b], printed)
              && Completed(entry, more) == Completed(entry, events)
  {
    hide Frames, Rest, Starts, DataAfter, Parse, Observed, ParseAll;
    var observed := Observed(entry.data, events);
    ObservedMore(entry.data, events, event);
    Unfold([]);
    var s := Stream(entry.partial != [], observed);
    if entry.partial == [] || observed != [] {
      assert Stream(entry.partial != [], observed + [b]) == s + [b];
      OneByteMore(s, b);
      if |Rest(s)| == 2 {
        ParseMore(Frames(s), Rest(s) + [b]);
        assert printed + [Parse(Rest(s) + [b])] == entry.printed + (ParseAll(Frames(s)) + [Parse(Rest(s) + [b])]);
      }
    } else {
      assert Stream(true, [b]) == [] && Stream(true, []) == [];
    }
  }

  /** What holds between iterations. `count` packets are complete and no shorter prefix of the events had
      completed `cnt`. A packet is in progress only in sync, unless it was left over by an earlier run and
      no interrupt has come yet; so the reset of an unsynchronised packet can only drop that leftover. */
  ghost predicate Progress(entry: Entry, cnt: nat, events: seq<Event>, data: bv8, buffer: seq<bv8>,
                           printed: seq<Packet>, count: nat, synced: bool)
  {
    var untouched := entry.partial != [] && Observed(entry.data, events) == [];
    && Framed(entry, events, data, buffer, printed)
    && |buffer| <= 2
    && count == Completed(entry, events) <= cnt
    && (forall m | 0 <= m < |events| :: Completed(entry, events[..m]) < cnt)
    && (buffer != [] ==> (synced <==> !untouched))
    && (untouched ==> buffer != [])
    && (count == cnt > 0 ==> buffer == [])
  }

  lemma ProgressStarts(entry: Entry, cnt: nat)
    requires |entry.partial| <= 2
    ensures Progress(entry, cnt, [], entry.data, entry.partial, entry.printed, 0, false)
  {
  }

  lemma ProgressQuietly(entry: Entry, cnt: nat, events: seq<Event>, event: Event, data: bv8,
                        buffer: seq<bv8>, printed: seq<Packet>, count: nat, synced: bool)
    requires Progress(entry, cnt, events, data, buffer, printed, count, synced)
    requires count < cnt && !event.Interrupt?
    ensures Progress(entry, cnt, events + [event], data, buffer, printed, count, synced)
  {
    hide Framed, Completed, Observed;
    QuietEvent(entry, events, event, data, buffer, printed);
    PrefixesKept(events, event);
  }

  /** One interrupt, by the branches of the loop body. */
  lemma ProgressByInterrupt(entry: Entry, cnt: nat, events: seq<Event>, event: Event, data: bv8,
                            buffer: seq<bv8>, printed: seq<Packet>, count: nat, synced: bool, b: bv8)
    requires Progress(entry, cnt, events, data, buffer, printed, count, synced) && count < cnt
    requires event.Interrupt? && b == DataAfter(data, event.status, event.output)
    ensures var more := events + [event];
            if buffer == [] && !Starts(b) then
              Progress(entry, cnt, more, b, [], printed, count, false)
            else if buffer != [] && !synced then
              Progress(entry, cnt, more, b, [], printed, count, synced)
            else if |buffer| == 2 then
              Progress(entry, cnt, more, b, [], printed + [Parse(buffer + [b])], count + 1, true)
            else
              Progress(entry, cnt, more, b, buffer + [b], printed, count, true)
  {
    hide Framed, Completed, Observed, Starts, DataAfter, Parse;
    InterruptEvent(entry, events, event, data, buffer, printed, b);
    PrefixesKept(events, event);
  }

  class Driver {
    var data: bv8
    var size: nat
    var bytes: array<bv8>
    var printed: seq<Packet>

    ghost predicate Valid()
      reads this
    {
      bytes.Length == 3 && size <= 2
    }

    /** The bytes of the packet in progress. */
    ghost function Buffer(): seq<bv8>
      requires Valid()
      reads this, bytes
    {
      bytes[..size]
    }

    constructor ()
      ensures Valid() && Buffer() == [] && printed == [] && data == 0 && fresh(bytes)
    {
      data, size, printed := 0, 0, [];
      bytes := new bv8[3];
    }

    /** `mouse_ih`: `data` is replaced exactly when a byte is there, came without an error, and can be read. */
    method MouseIh(status: Reply, output: Reply)
      modifies this`data
      ensures data == DataAfter(old(data), status, output)
      ensures data == if Readable(status, output) then output.value else old(data)
    {
      ReadableMeans(status, output);
      if OutputReady(status) {
        if output.ok {
          data := output.value;
        }
      }
    }

    method ParsePacket(buf: array<bv8>, len: nat) returns (packet: Packet)
      requires buf.Length == 3 && len == 3
      ensures packet == Parse(buf[..]) && packet.bytes == buf[..]
    {
      hide SignExtended;
      var lb := buf[0] & PK_LB != 0;
      var rb := buf[0] & PK_RB != 0;
      var mb := buf[0] & PK_MB != 0;
      var xMove, yMove := buf[1] as bv16, buf[2] as bv16;
      if buf[0] & PK_XSIGN != 0 {
        xMove := xMove | 0xFF00;
      }
      if buf[0] & PK_YSIGN != 0 {
        yMove := yMove | 0xFF00;
      }
      Moves(buf[1], buf[0] & PK_XSIGN != 0, xMove);
      Moves(buf[2], buf[0] & PK_YSIGN != 0, yMove);
      var raw := [];
      for i := 0 to len
        invariant raw == buf[..i]
      {
        raw := raw + [buf[i]];
      }
      packet := Packet(raw, lb, rb, mb, Int16(xMove), Int16(yMove), buf[0] & PK_XOVF != 0, buf[0] & PK_YOVF != 0);
    }

    /** The end of the loop body: store the byte, and parse and print a packet when it has all three. */
    method StoreByte() returns (complete: bool)
      requires Valid()
      modifies this`size, this`printed, bytes
      ensures Valid()
      ensures complete <==> |old(Buffer())| == 2
      ensures Buffer() == if complete then [] else old(Buffer()) + [data]
      ensures printed == if complete then old(printed) + [Parse(old(Buffer()) + [data])] else old(printed)
    {
      ghost var buffer := Buffer();
      bytes[size] := data;
      size := size + 1;
      assert bytes[..size] == buffer + [data];
      if size == 3 {
        assert bytes[..] == bytes[..size];
        var packet := ParsePacket(bytes, size);
        printed := printed + [packet];
        size := 0;
        return true;
      }
      return false;
    }

    ghost function Globals(): Entry
      requires Valid()
      reads this, bytes
    {
      Entry(data, Buffer(), printed)
    }

    /** The loop between enabling and disabling data reporting. It stops after the shortest prefix of the
        events that completes `cnt` packets. */
    method TestPacket(cnt: uint32, events: seq<Event>) returns (outcome: Outcome, handled: nat)
      requires Valid()
      modifies this, bytes
      ensures Valid() && bytes == old(bytes) && handled <= |events|
      ensures Framed(old(Globals()), events[..handled], data, Buffer(), printed)
      ensures forall m | 0 <= m < handled :: Completed(old(Globals()), events[..handled][..m]) < cnt
      ensures outcome == if Completed(old(Globals()), events[..handled]) == cnt then Counted else Waiting
      ensures outcome.Waiting? ==> handled == |events|
      ensures outcome.Counted? && cnt > 0 ==> size == 0
    {
      hide Progress, Framed, Completed, DataAfter, Parse, OutputReady, Observed, Taken, Readable;
      ghost var entry := Globals();
      var packetCount := 0;
      var syncState := 0;
      handled := 0;
      ProgressStarts(entry, cnt);
      assert events[..0] == [];
      while packetCount < cnt
        invariant Valid() && bytes == old(bytes) && handled <= |events| && packetCount <= cnt
        invariant Progress(entry, cnt, events[..handled], data, Buffer(), printed, packetCount, syncState != 0)
        decreases |events| - handled
      {
        if handled == |events| {
          ProgressSays(entry, cnt, events[..handled], data, Buffer(), printed, packetCount, syncState != 0);
          return Waiting, handled;
        }
        var event := events[handled];
        ghost var before, was := events[..handled], Globals();
        assert before + [event] == events[..handled + 1];
        handled := handled + 1;
        if !event.Interrupt? {
          ProgressQuietly(entry, cnt, before, event, was.data, was.partial, printed, packetCount, syncState != 0);
          continue;
        }
        MouseIh(event.status, event.output);
        ProgressByInterrupt(entry, cnt, before, event, was.data, was.partial, printed, packetCount, syncState != 0,
                            data);
        if size == 0 {
          if data & PK_BIT3 == 0 {
            syncState := 0;
            continue;
          } else {
            syncState := 1;
          }
        } else if syncState == 0 {
          size := 0;
          assert Buffer() == [];
          continue;
        }
        var complete := StoreByte();
        if complete {
          packetCount := packetCount + 1;
        }
      }
      ProgressSays(entry, cnt, events[..handled], data, Buffer(), printed, packetCount, syncState != 0);
      return Counted, handled;
    }
  }

  lemma ProgressSays(entry: Entry, cnt: nat, events: seq<Event>, data: bv8, buffer: seq<bv8>,
                     printed: seq<Packet>, count: nat, synced: bool)
    requires Progress(entry, cnt, events, data, buffer, printed, count, synced)
    ensures Framed(entry, events, data, buffer, printed)
    ensures count == Completed(entry, events) && (count == cnt > 0 ==> buffer == [])
    ensures forall m | 0 <= m < |events| :: Completed(entry, events[..m]) < cnt
  {
  }

  lemma Moves(low: bv8, negative: bool, word: bv16)
    requires word == if negative then low as bv16 | 0xFF00 else low as bv16
    ensures Int16(word) == SignExtended(low, negative)
  {
  }
}
