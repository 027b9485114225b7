/** Loss of synchronisation in the mouse stream. Only the first byte of a packet is checked, so after a byte is
    lost the packets printed may stay out of step with the packets sent. */
module Resync {
  import opened Packets

  predicate WellFormed(packets: seq<seq<bv8>>) {
    forall i | 0 <= i < |packets| :: |packets[i]| == 3 && Starts(packets[i][0])
  }

  function Joined(packets: seq<seq<bv8>>): seq<bv8> {
    if packets == [] then [] else packets[0] + Joined(packets[1..])
  }

  /** What gets the framing back in step, by the bytes it holds when the first of `packets` begins: with one,
      a packet whose third byte cannot start a packet; with two, a packet whose second byte cannot, and then,
      in that one or later, a third byte that cannot. */
  predicate Realigns(held: nat, packets: seq<seq<bv8>>)
    requires WellFormed(packets)
  {
    match held
    case 0 => true
    case 1 => exists j :: 0 <= j < |packets| && !Starts(packets[j][2])
    case _ => exists i, j :: 0 <= i <= j < |packets| && !Starts(packets[i][1]) && !Starts(packets[j][2])
  }

  /** The bytes held when a packet begins, and when it is over. */
  lemma OnePacket(held: seq<bv8>, p: seq<bv8>)
    requires |held| <= 2 && (held != [] ==> Starts(held[0])) && |p| == 3 && Starts(p[0])
    ensures Rest(held + p) ==
            if held == [] then []
            else if |held| == 2 && Starts(p[1]) then p[1..]
            else if Starts(p[2]) then p[2..]
            else []
    ensures held == [] ==> Frames(held + p) == [p]
  {
    hide Starts, Frames, Rest;
    var s := held + p;
    Unfold(s);
    Unfold(s[3..]);
    Unfold([]);
    if held == [] {
      assert s == p && s[3..] == [] && s[..3] == p;
      assert Frames(s) == [p] + [];
    } else if |held| == 1 {
      assert s[3..] == p[2..];
      Unfold(p[2..][1..]);
    } else {
      assert s[3..] == p[1..];
      assert p[1..][1..] == p[2..];
      Unfold(p[2..]);
      Unfold(p[2..][1..]);
    }
  }

  lemma RealignsByFirst(held: nat, packets: seq<seq<bv8>>)
    requires WellFormed(packets) && packets != [] && 1 <= held <= 2
    ensures var p, later := packets[0], packets[1..];
            WellFormed(later)
            && (Realigns(held, packets) <==>
                if held == 2 && Starts(p[1]) then Realigns(2, later)
                else !Starts(p[2]) || Realigns(1, later))
  {
  }

  lemma {:induction false} HeldRealigns(held: seq<bv8>, packets: seq<seq<bv8>>)
    requires |held| <= 2 && (held != [] ==> Starts(held[0])) && WellFormed(packets)
    ensures Rest(held + Joined(packets)) == [] <==> Realigns(|held|, packets)
    decreases |packets|
  {
    hide Starts, Realigns, Rest, Frames;
    if packets == [] {
      NoPackets(held);
      assert held + Joined(packets) == held;
    } else {
      var p, later := packets[0], packets[1..];
      OnePacket(held, p);
      InPieces(held + p, Joined(later));
      assert held + Joined(packets) == held + p + Joined(later);
      HeldRealigns(Rest(held + p), later);
      if held != [] {
        RealignsByFirst(|held|, packets);
      }
      Aligned(packets);
      Aligned(later);
    }
  }

  lemma NoPackets(held: seq<bv8>)
    requires |held| <= 2 && (held != [] ==> Starts(held[0]))
    ensures Rest(held) == [] <==> Realigns(|held|, [])
  {
  }

  lemma Aligned(packets: seq<seq<bv8>>)
    requires WellFormed(packets)
    ensures Realigns(0, packets)
  {
  }

  /** After any bytes, the framing is in step again at the end of `packets` exactly when what it holds of
      those bytes is realigned. */
  lemma RealignsIff(s: seq<bv8>, packets: seq<seq<bv8>>)
    requires WellFormed(packets)
    ensures Rest(s + Joined(packets)) == [] <==> Realigns(|Rest(s)|, packets)
  {
    hide Realigns, Rest;
    InPieces(s, Joined(packets));
    HeldRealigns(Rest(s), packets);
  }

  lemma FirstMoved(frames: seq<seq<bv8>>, more: seq<seq<bv8>>)
    requires more != []
    ensures frames + [more[0]] + more[1..] == frames + more
  {
  }

  /** And from then on every packet sent is a packet printed. */
  lemma {:induction false} InStepAgain(s: seq<bv8>, more: seq<seq<bv8>>)
    requires Rest(s) == [] && WellFormed(more)
    ensures Frames(s + Joined(more)) == Frames(s) + more && Rest(s + Joined(more)) == []
    decreases |more|
  {
    hide Starts, Rest, Frames;
    if more == [] {
      assert s + Joined(more) == s;
    } else {
      var p, later := more[0], more[1..];
      OnePacket([], p);
      InPieces(s, p);
      InStepAgain(s + p, later);
      assert s + Joined(more) == s + p + Joined(later);
      FirstMoved(Frames(s), more);
    }
  }

  /** For example, three times the byte 0x08 is a well-formed packet; if the first byte of the first such packet
      is lost, no number of them gets the framing back in step. */
  lemma NeverInStep(n: nat)
    ensures var packets := seq(n, _ => [0x08, 0x08, 0x08]);
            WellFormed(packets) && Rest([0x08, 0x08] + Joined(packets)) != []
  {
    var packets := seq(n, _ => [0x08, 0x08, 0x08]);
    RealignsIff([0x08, 0x08], packets);
  }
}
