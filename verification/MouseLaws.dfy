/** What the mouse loop delivers, as consequences of the relation its contract establishes. */
module MouseLaws {
  import opened Kbc
  import opened Packets
  import opened Mouse

  function Interrupts(events: seq<Event>): nat {
    if events == [] then 0
    else Interrupts(events[..|events| - 1]) + if events[|events| - 1].Interrupt? then 1 else 0
  }

  lemma {:induction false} OneByteEach(data: bv8, events: seq<Event>)
    ensures |Observed(data, events)| == Interrupts(events)
  {
    hide DataAfter;
    if events != [] {
      OneByteEach(data, events[..|events| - 1]);
    }
  }

  /** Every interrupt is accounted for: its byte was skipped, is in a printed packet, or is in the buffer;
      one more was spent if an unfinished packet had to be dropped first. */
  lemma InterruptsConserved(entry: Entry, events: seq<Event>, data: bv8, buffer: seq<bv8>, printed: seq<Packet>)
    requires Framed(entry, events, data, buffer, printed) && Interrupts(events) > 0
    ensures Interrupts(events) == Skipped(Taken(entry, events)) + 3 * (|printed| - |entry.printed|) + |buffer|
                                  + if entry.partial == [] then 0 else 1
  {
    hide Skipped, Frames, Rest, Observed, Interrupts, Parse;
    OneByteEach(entry.data, events);
    Conservation(Taken(entry, events));
    ParseAllIs(Frames(Taken(entry, events)));
  }

  lemma {:induction false} ParseAllIs(frames: seq<seq<bv8>>)
    requires forall i | 0 <= i < |frames| :: |frames[i]| == 3
    ensures |ParseAll(frames)| == |frames|
    ensures forall i | 0 <= i < |frames| :: ParseAll(frames)[i] == Parse(frames[i])
  {
    hide Parse;
    if frames != [] {
      ParseAllIs(frames[..|frames| - 1]);
    }
  }

  /** The packets have the reports and the bytes that were sent, in order. */
  ghost predicate Carry(packets: seq<Packet>, items: seq<Item>) {
    && |packets| == |items|
    && forall i | 0 <= i < |items| ::
         ReportOf(packets[i]) == items[i].report && packets[i].bytes == Encode(items[i].report)
  }

  /** If the bytes read are the transmission of some reports, with any noise that cannot start a packet, the
      packets printed carry exactly those reports, in order. */
  lemma DeliversReports(entry: Entry, events: seq<Event>, data: bv8, buffer: seq<bv8>, printed: seq<Packet>,
                        items: seq<Item>, noise: seq<bv8>)
    requires Framed(entry, events, data, buffer, printed) && entry.partial == []
    requires Observed(entry.data, events) == Transmit(items) + noise
    requires forall i | 0 <= i < |items| :: items[i].Sound()
    requires Noise(noise)
    ensures buffer == [] && entry.printed <= printed && Carry(printed[|entry.printed|..], items)
  {
    hide *;
    RoundTrip(items, noise);
    AsManyAsSent(items, noise);
    FramedStream(entry, events, data, buffer, printed);
    var frames := Frames(Transmit(items) + noise);
    SameReports(frames, items);
    Appended(entry.printed, ParseAll(frames), printed);
  }

  /** The bytes that the mouse has sent and the handler could read. */
  function ReadBytes(events: seq<Event>): seq<bv8> {
    if events == [] then []
    else
      var earlier, last := ReadBytes(events[..|events| - 1]), events[|events| - 1];
      if last.Interrupt? && Readable(last.status, last.output) then earlier + [last.output.value] else earlier
  }

  ghost predicate AllReadable(events: seq<Event>) {
    forall i | 0 <= i < |events| && events[i].Interrupt? :: Readable(events[i].status, events[i].output)
  }

  /** The framing works on the bytes of the mouse, each once, exactly when every interrupt is readable: at any
      other interrupt the loop takes the byte before once more. */
  lemma {:induction false} EveryByteOnceIff(data: bv8, events: seq<Event>)
    ensures Observed(data, events) == ReadBytes(events) <==> AllReadable(events)
    ensures |ReadBytes(events)| <= Interrupts(events)
    ensures AllReadable(events) <==> |ReadBytes(events)| == Interrupts(events)
  {
    OneByteEach(data, events);
    if events != [] {
      var init, last := events[..|events| - 1], events[|events| - 1];
      EveryByteOnceIff(data, init);
      assert AllReadable(events) <==> AllReadable(init) && (last.Interrupt? ==> Readable(last.status, last.output));
      if last.Interrupt? {
        ReadableMeans(last.status, last.output);
      }
    }
  }

  /** If every interrupt is readable and the bytes of the mouse are the transmission of some reports, with any
      noise that cannot start a packet, the packets printed carry exactly those reports, in order. */
  lemma DeliversWhatIsSent(entry: Entry, events: seq<Event>, data: bv8, buffer: seq<bv8>, printed: seq<Packet>,
                           items: seq<Item>, noise: seq<bv8>)
    requires Framed(entry, events, data, buffer, printed) && entry.partial == []
    requires AllReadable(events) && ReadBytes(events) == Transmit(items) + noise
    requires forall i | 0 <= i < |items| :: items[i].Sound()
    requires Noise(noise)
    ensures buffer == [] && entry.printed <= printed && Carry(printed[|entry.printed|..], items)
  {
    hide *;
    EveryByteOnceIff(entry.data, events);
    DeliversReports(entry, events, data, buffer, printed, items, noise);
  }

  /** For example, when the status cannot be read at the two interrupts after the byte 0x08, the loop prints a
      packet that was never sent. */
  lemma NeverSent()
    ensures var lost := Interrupt(Reply(false, 0), Reply(true, 0));
            var events := [Interrupt(Reply(true, 0x21), Reply(true, 0x08)), lost, lost];
            ReadBytes(events) == [0x08] && Frames(Observed(0, events)) == [[0x08, 0x08, 0x08]]
  {
    var lost := Interrupt(Reply(false, 0), Reply(true, 0));
    var first := Interrupt(Reply(true, 0x21), Reply(true, 0x08));
    var events := [first, lost, lost];
    assert [first][..0] == [] && [first, lost][..1] == [first] && events[..2] == [first, lost];
    assert Observed(0, [first]) == [0x08] && ReadBytes([first]) == [0x08];
    assert Observed(0, [first, lost]) == [0x08, 0x08];
    assert ReadBytes([first, lost]) == [0x08];
    assert Observed(0, events) == [0x08, 0x08, 0x08];
    assert ReadBytes(events) == [0x08];
    var bytes: seq<bv8> := [0x08, 0x08, 0x08];
    Unfold(bytes);
    assert bytes[..3] == bytes && bytes[3..] == [] && Starts(bytes[0]);
  }

  lemma Appended(earlier: seq<Packet>, more: seq<Packet>, all: seq<Packet>)
    requires all == earlier + more
    ensures earlier <= all && all[|earlier|..] == more
  {
  }

  lemma FramedStream(entry: Entry, events: seq<Event>, data: bv8, buffer: seq<bv8>, printed: seq<Packet>)
    requires Framed(entry, events, data, buffer, printed) && entry.partial == []
    ensures buffer == Rest(Observed(entry.data, events))
    ensures printed == entry.printed + ParseAll(Frames(Observed(entry.data, events)))
  {
  }

  lemma SameReports(frames: seq<seq<bv8>>, items: seq<Item>)
    requires forall i | 0 <= i < |frames| :: |frames[i]| == 3
    requires |frames| == |items| && forall i | 0 <= i < |items| :: frames[i] == Encode(items[i].report)
    requires forall i | 0 <= i < |items| :: items[i].Sound()
    ensures Carry(ParseAll(frames), items)
  {
    hide Parse, Encode;
    ParseAllIs(frames);
    forall i | 0 <= i < |items|
      ensures ReportOf(Parse(frames[i])) == items[i].report && Parse(frames[i]).bytes == frames[i]
    {
      assert items[i].Sound();
      ParseEncode(items[i].report);
      BytesKept(frames[i]);
    }
  }

  lemma BytesKept(frame: seq<bv8>)
    requires |frame| == 3
    ensures Parse(frame).bytes == frame
  {
  }

  lemma AsManyAsSent(items: seq<Item>, noise: seq<bv8>)
    requires forall i | 0 <= i < |items| :: items[i].Sound()
    requires Noise(noise)
    ensures var frames := Frames(Transmit(items) + noise);
            |frames| == |items| && forall i | 0 <= i < |items| :: frames[i] == Encode(items[i].report)
  {
    hide Encode, Starts;
    FramesOfTransmit(items, noise);
    NoiseSkipped(noise, []);
    assert noise + [] == noise;
  }
}
