/** PS/2 mouse packets: their encoding, and how they are cut out of the byte stream. */
module Packets {
  import opened Machine

  const PK_LB: bv8 := 0x01
  const PK_RB: bv8 := 0x02
  const PK_MB: bv8 := 0x04
  const PK_BIT3: bv8 := 0x08
  const PK_XSIGN: bv8 := 0x10
  const PK_YSIGN: bv8 := 0x20
  const PK_XOVF: bv8 := 0x40
  const PK_YOVF: bv8 := 0x80

  /** `struct packet`, as `mouse_parse_packet` fills it. */
  datatype Packet = Packet(
    bytes: seq<bv8>,
    lb: bool, rb: bool, mb: bool,
    deltaX: int, deltaY: int,
    xOv: bool, yOv: bool)

  /** What a mouse reports: the deltas are 9-bit two's complement numbers. */
  datatype Report = Report(lb: bool, rb: bool, mb: bool, dx: int, dy: int, xOv: bool, yOv: bool) {
    predicate InRange() {
      -256 <= dx < 256 && -256 <= dy < 256
    }
  }

  // ---------- One packet ----------

  /** `int16_t` reading of a 16-bit pattern. */
  function Int16(w: bv16): int {
    if w & 0x8000 == 0 then w as int else w as int - 0x1_0000
  }

  function SignExtended(low: bv8, negative: bool): int {
    Int16(if negative then low as bv16 | 0xFF00 else low as bv16)
  }

  function Parse(buf: seq<bv8>): Packet
    requires |buf| == 3
  {
    Packet(buf,
           buf[0] & PK_LB != 0, buf[0] & PK_RB != 0, buf[0] & PK_MB != 0,
           SignExtended(buf[1], buf[0] & PK_XSIGN != 0), SignExtended(buf[2], buf[0] & PK_YSIGN != 0),
           buf[0] & PK_XOVF != 0, buf[0] & PK_YOVF != 0)
  }

  function ReportOf(p: Packet): Report {
    Report(p.lb, p.rb, p.mb, p.deltaX, p.deltaY, p.xOv, p.yOv)
  }

  function Flag(on: bool, mask: bv8): bv8 {
    if on then mask else 0
  }

  function LowByte(d: int): bv8 {
    (d % 0x100) as bv8
  }

  function Header(lb: bool, rb: bool, mb: bool, xs: bool, ys: bool, xo: bool, yo: bool): bv8 {
    PK_BIT3 | Flag(lb, PK_LB) | Flag(rb, PK_RB) | Flag(mb, PK_MB)
    | Flag(xs, PK_XSIGN) | Flag(ys, PK_YSIGN) | Flag(xo, PK_XOVF) | Flag(yo, PK_YOVF)
  }

  function Encode(r: Report): (buf: seq<bv8>)
    ensures |buf| == 3
  {
    [Header(r.lb, r.rb, r.mb, r.dx < 0, r.dy < 0, r.xOv, r.yOv), LowByte(r.dx), LowByte(r.dy)]
  }

  /** A delta is its low byte, less 256 when the sign bit is set. */
  lemma SignExtension(low: bv8, negative: bool)
    ensures SignExtended(low, negative) == low as int - if negative then 0x100 else 0
  {
  }

  lemma HeaderFlags(lb: bool, rb: bool, mb: bool, xs: bool, ys: bool, xo: bool, yo: bool)
    ensures var h := Header(lb, rb, mb, xs, ys, xo, yo);
            && h & 0x08 != 0
            && (h & 0x01 != 0 <==> lb) && (h & 0x02 != 0 <==> rb) && (h & 0x04 != 0 <==> mb)
            && (h & 0x10 != 0 <==> xs) && (h & 0x20 != 0 <==> ys)
            && (h & 0x40 != 0 <==> xo) && (h & 0x80 != 0 <==> yo)
  {
  }

  lemma HeaderRebuilt(h: bv8)
    requires h & PK_BIT3 != 0
    ensures Header(h & PK_LB != 0, h & PK_RB != 0, h & PK_MB != 0, h & PK_XSIGN != 0, h & PK_YSIGN != 0,
                   h & PK_XOVF != 0, h & PK_YOVF != 0) == h
  {
  }

  /** A 9-bit delta survives the split into a sign bit and a low byte, in both directions. */
  lemma DeltaRoundTrip(d: int)
    requires -256 <= d < 256
    ensures SignExtended(LowByte(d), d < 0) == d
  {
    hide SignExtended, LowByte;
    LowByteValue(d);
    SignExtension(LowByte(d), d < 0);
  }

  lemma LowByteValue(d: int)
    ensures LowByte(d) as int == d % 0x100
  {
    ByteValue(d % 0x100);
  }

  lemma DeltaRebuilt(low: bv8, negative: bool)
    ensures var d := SignExtended(low, negative);
            -256 <= d < 256 && (d < 0 <==> negative) && LowByte(d) == low
  {
    SignExtension(low, negative);
    var d := SignExtended(low, negative);
    assert d % 0x100 == low as int;
  }

  lemma ParseEncode(r: Report)
    requires r.InRange()
    ensures Encode(r)[0] & PK_BIT3 != 0
    ensures ReportOf(Parse(Encode(r))) == r
  {
    hide Header, SignExtended, LowByte;
    HeaderFlags(r.lb, r.rb, r.mb, r.dx < 0, r.dy < 0, r.xOv, r.yOv);
    DeltaRoundTrip(r.dx);
    DeltaRoundTrip(r.dy);
  }

  lemma EncodeParse(buf: seq<bv8>)
    requires |buf| == 3 && buf[0] & PK_BIT3 != 0
    ensures ReportOf(Parse(buf)).InRange()
    ensures Encode(ReportOf(Parse(buf))) == buf
  {
    hide Header, SignExtended, LowByte;
    HeaderRebuilt(buf[0]);
    DeltaRebuilt(buf[1], buf[0] & PK_XSIGN != 0);
    DeltaRebuilt(buf[2], buf[0] & PK_YSIGN != 0);
  }

  // ---------- The byte stream ----------

  predicate Starts(b: bv8) {
    b & 0x08 != 0
  }

  /** The packets in a byte stream: skip bytes with bit 3 clear, then take three. */
  function Frames(s: seq<bv8>): (r: seq<seq<bv8>>)
    ensures forall i | 0 <= i < |r| :: |r[i]| == 3 && Starts(r[i][0])
  {
    if s == [] then []
    else if !Starts(s[0]) then Frames(s[1..])
    else if |s| < 3 then []
    else [s[..3]] + Frames(s[3..])
  }

  /** The packet still incomplete at the end of a stream. */
  function Rest(s: seq<bv8>): (r: seq<bv8>)
    ensures |r| <= 2 && (r != [] ==> Starts(r[0]))
  {
    if s == [] then []
    else if !Starts(s[0]) then Rest(s[1..])
    else if |s| < 3 then s
    else Rest(s[3..])
  }

  function Skipped(s: seq<bv8>): nat {
    if s == [] then 0
    else if !Starts(s[0]) then 1 + Skipped(s[1..])
    else if |s| < 3 then 0
    else Skipped(s[3..])
  }

  /** Every byte is skipped, or in a packet, or in the incomplete packet at the end. */
  lemma {:induction false} Conservation(s: seq<bv8>)
    ensures |s| == Skipped(s) + 3 * |Frames(s)| + |Rest(s)|
  {
    if s != [] && !Starts(s[0]) {
      Conservation(s[1..]);
    } else if |s| >= 3 {
      Conservation(s[3..]);
    }
  }

  /** A stream can be processed in pieces: the incomplete packet is all that one piece hands to the next. */
  lemma {:induction false} InPieces(s: seq<bv8>, t: seq<bv8>)
    ensures Frames(s + t) == Frames(s) + Frames(Rest(s) + t)
    ensures Rest(s + t) == Rest(Rest(s) + t)
  {
    hide Starts, Frames, Rest;
    Unfold(s);
    if s == [] {
      assert s + t == t && [] + t == t;
    } else if !Starts(s[0]) {
      InPieces(s[1..], t);
      Unfold(s + t);
      assert (s + t)[1..] == s[1..] + t;
    } else if |s| >= 3 {
      InPieces(s[3..], t);
      Unfold(s + t);
      assert (s + t)[3..] == s[3..] + t && (s + t)[..3] == s[..3];
      assert Frames(s) + Frames(Rest(s) + t) == [s[..3]] + (Frames(s[3..]) + Frames(Rest(s[3..]) + t));
    }
  }

  lemma Unfold(s: seq<bv8>)
    ensures s == [] ==> Frames(s) == [] && Rest(s) == []
    ensures s != [] && !Starts(s[0]) ==> Frames(s) == Frames(s[1..]) && Rest(s) == Rest(s[1..])
    ensures 0 < |s| < 3 && Starts(s[0]) ==> Frames(s) == [] && Rest(s) == s
    ensures |s| >= 3 && Starts(s[0]) ==> Frames(s) == [s[..3]] + Frames(s[3..]) && Rest(s) == Rest(s[3..])
  {
  }

  /** One byte more: it is skipped, kept, or completes a packet. */
  lemma OneByteMore(s: seq<bv8>, b: bv8)
    ensures var kept := Rest(s) + [b];
            if Rest(s) == [] && !Starts(b) then Frames(s + [b]) == Frames(s) && Rest(s + [b]) == []
            else if |kept| == 3 then Frames(s + [b]) == Frames(s) + [kept] && Rest(s + [b]) == []
            else Frames(s + [b]) == Frames(s) && Rest(s + [b]) == kept
  {
    InPieces(s, [b]);
    var kept := Rest(s) + [b];
    if |kept| == 3 {
      assert kept[3..] == [] && kept[..3] == kept;
    } else if !Starts(kept[0]) {
      assert kept[1..] == [];
    }
  }

  // ---------- Streams of reports, with noise between them ----------

  /** Bytes with bit 3 clear. */
  predicate Noise(s: seq<bv8>) {
    forall i | 0 <= i < |s| :: s[i] & 0x08 == 0
  }

  /** A report, preceded by bytes that cannot be mistaken for the start of a packet. */
  datatype Item = Item(noise: seq<bv8>, report: Report) {
    predicate Sound() {
      report.InRange() && Noise(noise)
    }
  }

  function Transmit(items: seq<Item>): seq<bv8> {
    if items == [] then [] else items[0].noise + Encode(items[0].report) + Transmit(items[1..])
  }

  function Received(frames: seq<seq<bv8>>): seq<Report>
    requires forall i | 0 <= i < |frames| :: |frames[i]| == 3
  {
    seq(|frames|, i requires 0 <= i < |frames| => ReportOf(Parse(frames[i])))
  }

  function Reports(items: seq<Item>): seq<Report> {
    seq(|items|, i requires 0 <= i < |items| => items[i].report)
  }

  lemma {:induction false} NoiseSkipped(noise: seq<bv8>, s: seq<bv8>)
    requires Noise(noise)
    ensures Frames(noise + s) == Frames(s) && Rest(noise + s) == Rest(s)
  {
    if noise == [] {
      assert noise + s == s;
    } else {
      NoiseSkipped(noise[1..], s);
      assert (noise + s)[1..] == noise[1..] + s;
    }
  }

  lemma {:induction false} FramesOfTransmit(items: seq<Item>, tail: seq<bv8>)
    requires forall i | 0 <= i < |items| :: items[i].Sound()
    ensures |Frames(Transmit(items) + tail)| == |items| + |Frames(tail)|
    ensures Rest(Transmit(items) + tail) == Rest(tail)
    ensures forall i | 0 <= i < |items| :: Frames(Transmit(items) + tail)[i] == Encode(items[i].report)
  {
    if items == [] {
      assert Transmit(items) + tail == tail;
    } else {
      hide Encode, Frames, Rest;
      var code, rest := Encode(items[0].report), Transmit(items[1..]) + tail;
      FramesOfTransmit(items[1..], tail);
      assert Transmit(items) + tail == items[0].noise + (code + rest);
      assert items[0].Sound();
      NoiseSkipped(items[0].noise, code + rest);
      ParseEncode(items[0].report);
      assert (code + rest)[..3] == code && (code + rest)[3..] == rest;
      Unfold(code + rest);
      hide *;
      forall i | 0 < i < |items|
        ensures Frames(Transmit(items) + tail)[i] == Encode(items[i].report)
      {
        assert items[1..][i - 1] == items[i];
      }
    }
  }

  /** Whatever reports are sent, with whatever noise before each and after the last, are received. */
  lemma RoundTrip(items: seq<Item>, noise: seq<bv8>)
    requires forall i | 0 <= i < |items| :: items[i].Sound()
    requires Noise(noise)
    ensures Received(Frames(Transmit(items) + noise)) == Reports(items)
    ensures Rest(Transmit(items) + noise) == []
  {
    hide Encode, Parse;
    NoiseSkipped(noise, []);
    assert noise + [] == noise;
    FramesOfTransmit(items, noise);
    var frames := Frames(Transmit(items) + noise);
    forall i | 0 <= i < |items|
      ensures ReportOf(Parse(frames[i])) == items[i].report
    {
      assert items[i].Sound();
      ParseEncode(items[i].report);
    }
  }

}
