/** How many frames of voice the daemon makes out of a stream of packets, some of which are lost.
    Packets carry a sequence number modulo 4; a gap in it is filled with concealed frames. */
module FrameAlignment {

  const NUM_SEQ_CODES := 4

  /** What becomes of one packet sent by the remote control. A packet that never arrives, has no
      sync byte or has a bad sequence code is Lost. */
  datatype Arrival = Lost | Undecodable | Decoded

  /** The packets the sequence numbers say were lost since the last received one. */
  function NumLost(seqNum: nat, last: nat): (r: nat)
    requires seqNum < NUM_SEQ_CODES && last < NUM_SEQ_CODES
    ensures r < NUM_SEQ_CODES && (last + 1 + r) % NUM_SEQ_CODES == seqNum
  {
    (seqNum + NUM_SEQ_CODES - last - 1) % NUM_SEQ_CODES
  }

  /** last_seq_num, and the frames written so far. */
  datatype Count = Count(last: nat, frames: nat)

  /** handle_msbc_data for the packet with sequence number seqNum. */
  function Handle(c: Count, seqNum: nat, a: Arrival): (r: Count)
    requires c.last < NUM_SEQ_CODES && seqNum < NUM_SEQ_CODES
    ensures r.last < NUM_SEQ_CODES
  {
    match a
    case Lost => c
    case Undecodable => Count(seqNum, c.frames + NumLost(seqNum, c.last))
    case Decoded => Count(seqNum, c.frames + NumLost(seqNum, c.last) + 1)
  }

  /** After a session in which packet i carried the number i modulo 4. */
  function Session(arrivals: seq<Arrival>): (r: Count)
    ensures r.last < NUM_SEQ_CODES
  {
    if arrivals == [] then Count(3, 0)
    else
      var n := |arrivals| - 1;
      Handle(Session(arrivals[..n]), n % NUM_SEQ_CODES, arrivals[n])
  }

  /** The length of the run of losses at the end. */
  function Trailing(arrivals: seq<Arrival>): (r: nat)
    ensures r <= |arrivals|
  {
    if arrivals == [] || arrivals[|arrivals| - 1] != Lost then 0
    else Trailing(arrivals[..|arrivals| - 1]) + 1
  }

  /** Frames never made up for: four for every four packets of one gap, and one for every received
      packet that does not decode. */
  function Missing(arrivals: seq<Arrival>): nat {
    if arrivals == [] then 0
    else
      var before := arrivals[..|arrivals| - 1];
      match arrivals[|arrivals| - 1]
      case Lost => Missing(before)
      case Undecodable => Missing(before) + Trailing(before) / 4 * 4 + 1
      case Decoded => Missing(before) + Trailing(before) / 4 * 4
  }

  /** Every received packet decodes and follows at most three losses. */
  ghost predicate ShortGaps(arrivals: seq<Arrival>) {
    forall i :: 0 <= i < |arrivals| && arrivals[i] != Lost ==> arrivals[i] == Decoded && Trailing(arrivals[..i]) <= 3
  }

  ghost predicate AllDecode(arrivals: seq<Arrival>) {
    Undecodable !in arrivals
  }

  lemma GapBelowFour(r: nat, g: nat)
    requires r < 4 && g < 4
    ensures NumLost((r + g) % 4, (r + 3) % 4) == g
  {
  }

  lemma ModuloFour(x: nat, q: int, r: nat)
    requires x == 4 * q + r
    ensures x % 4 == r % 4
  {
    assert x == 4 * (q + r / 4) + r % 4;
  }

  /** A gap of g packets is seen as one of g modulo 4. */
  lemma GapSeen(n: nat, gap: nat, last: nat)
    requires gap <= n && last == (n - gap + 3) % NUM_SEQ_CODES
    ensures NumLost(n % NUM_SEQ_CODES, last) == gap - gap / 4 * 4
  {
    hide NumLost;
    var m := n - gap;
    ModuloFour(n, m / 4 + gap / 4, m % 4 + gap % 4);
    ModuloFour(m + 3, m / 4, m % 4 + 3);
    GapBelowFour(m % 4, gap % 4);
  }

  /** Every packet is accounted for: written, missing, or lost since the last received one. */
  lemma {:induction false} EveryPacketAccounted(arrivals: seq<Arrival>)
    ensures Session(arrivals).frames + Missing(arrivals) + Trailing(arrivals) == |arrivals|
    ensures Session(arrivals).last == (|arrivals| - Trailing(arrivals) + 3) % NUM_SEQ_CODES
  {
    hide NumLost;
    if arrivals != [] {
      var n := |arrivals| - 1;
      EveryPacketAccounted(arrivals[..n]);
      GapSeen(n, Trailing(arrivals[..n]), Session(arrivals[..n]).last);
      assert n % NUM_SEQ_CODES == (n + 1 + 3) % NUM_SEQ_CODES;
    }
  }

  lemma {:induction false} MissingNothing(arrivals: seq<Arrival>)
    ensures Missing(arrivals) == 0 <==> ShortGaps(arrivals)
  {
    if arrivals != [] {
      var n := |arrivals| - 1;
      var before := arrivals[..n];
      MissingNothing(before);
      assert forall i :: 0 <= i < n ==> before[i] == arrivals[i] && before[..i] == arrivals[..i];
      assert Trailing(before) / 4 * 4 == 0 <==> Trailing(before) <= 3;
    }
  }

  lemma {:induction false} MissingByFours(arrivals: seq<Arrival>)
    requires AllDecode(arrivals)
    ensures Missing(arrivals) % 4 == 0
  {
    if arrivals != [] {
      var n := |arrivals| - 1;
      assert arrivals[n] in arrivals;
      assert forall a :: a in arrivals[..n] ==> a in arrivals;
      MissingByFours(arrivals[..n]);
    }
  }

  /** After every received packet i the daemon has written exactly i + 1 frames if and only if
      every packet received so far decoded and no gap was longer than three packets. */
  lemma AlignedExactlyWhen(arrivals: seq<Arrival>)
    requires arrivals != [] && arrivals[|arrivals| - 1] != Lost
    ensures Session(arrivals).frames == |arrivals| <==> ShortGaps(arrivals)
  {
    hide Session, Missing;
    EveryPacketAccounted(arrivals);
    MissingNothing(arrivals);
  }

  /** Whatever is lost, the frame count agrees with the packet count modulo 4. */
  lemma AlignedModuloFour(arrivals: seq<Arrival>)
    requires arrivals != [] && arrivals[|arrivals| - 1] != Lost && AllDecode(arrivals)
    ensures Session(arrivals).frames % 4 == |arrivals| % 4
    ensures Session(arrivals).frames <= |arrivals|
  {
    hide Session, Missing;
    EveryPacketAccounted(arrivals);
    MissingByFours(arrivals);
  }
}
