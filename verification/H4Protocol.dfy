/** The H4 protocol objects of the HAL: the packetizer and the type byte, reading a file descriptor
    in whatever pieces read() returns, and the writer.

    read() is modelled by what is waiting in the descriptor and by the number of bytes it returns at
    most; it returns zero or less for the end of the file and for errors. */
module H4Protocol {
  import opened Bits
  import opened H4Stream
  import HciProtocol

  datatype State = HciPreamble | HciPayload

  const HCI_PREAMBLE_SIZE_MAX := 4

  /** How many bytes read() returns. */
  function ReadCount(wanted: nat, waiting: nat, limit: int): (r: nat)
    ensures r <= wanted && r <= waiting
    ensures r > 0 <==> wanted > 0 && waiting > 0 && limit > 0
  {
    var most := if wanted < waiting then wanted else waiting;
    if limit <= 0 then 0 else if limit < most then limit else most
  }

  class HciPacketizer {
    var state: State
    const preamble: array<byte>
    var packet: array<byte>
    var bytesRead: nat
    var bytesRemaining: nat

    /** Between two calls, while a packet of this kind is under way. */
    ghost predicate Valid(kind: byte)
      reads this, preamble, packet
    {
      && preamble.Length == HCI_PREAMBLE_SIZE_MAX && preamble != packet && Receivable(kind)
      && (state == HciPreamble ==> bytesRead < PreambleSize(kind))
      && (state == HciPayload ==>
        && packet.Length == PreambleSize(kind) + bytesRead + bytesRemaining
        && packet.Length == PreambleSize(kind) + PayloadSize(kind, packet[..])
        && (bytesRemaining == 0 ==> bytesRead == 0))
    }

    /** Between two packets. */
    ghost predicate Initial()
      reads this
    {
      state == HciPreamble && bytesRead == 0 && preamble.Length == HCI_PREAMBLE_SIZE_MAX && preamble != packet
    }

    /** The packet under way, its type first. */
    ghost function Current(kind: byte): seq<byte>
      requires Valid(kind)
      reads this, preamble, packet
    {
      [kind] + if state == HciPreamble then preamble[..bytesRead] else packet[..PreambleSize(kind) + bytesRead]
    }

    constructor ()
      ensures Initial() && fresh(preamble) && fresh(packet)
    {
      state, bytesRead, bytesRemaining := HciPreamble, 0, 0;
      preamble := new byte[HCI_PREAMBLE_SIZE_MAX](_ => 0);
      packet := new byte[0](_ => 0);
    }

    /** The HCI_PREAMBLE case of OnDataReady. */
    method ReadPreamble(kind: byte, waiting: seq<byte>, limit: int) returns (ok: bool, taken: nat)
      requires Valid(kind) && state == HciPreamble
      modifies this, preamble
      ensures ok <==> waiting != [] && limit > 0
      ensures ok ==> 0 < taken <= |waiting| && Valid(kind) && Current(kind) == old(Current(kind)) + waiting[..taken]
      ensures ok ==> |Current(kind)| <= 1 + PreambleSize(kind)
      ensures packet == old(packet) || fresh(packet)
    {
      taken := ReadCount(PreambleSize(kind) - bytesRead, |waiting|, limit);
      if taken <= 0 {
        return false, taken;
      }
      ghost var before := preamble[..bytesRead];
      CopyInto(preamble, bytesRead, waiting[..taken]);
      bytesRead := bytesRead + taken;
      assert preamble[..bytesRead] == before + waiting[..taken];
      assert [kind] + (before + waiting[..taken]) == [kind] + before + waiting[..taken];
      if bytesRead == PreambleSize(kind) {
        StartPayload(kind);
      }
      return true, taken;
    }

    /** The preamble is complete: the packet gets its size, and the preamble its place in it. */
    method StartPayload(kind: byte)
      requires preamble.Length == HCI_PREAMBLE_SIZE_MAX && Receivable(kind) && bytesRead == PreambleSize(kind)
      modifies this
      ensures Valid(kind) && Current(kind) == [kind] + preamble[..PreambleSize(kind)] && fresh(packet)
    {
      var size := PreambleSize(kind);
      var packetLength := PayloadSize(kind, preamble[..size]);
      packet := new byte[size + packetLength](_ => 0);
      CopyInto(packet, 0, preamble[..size]);
      assert packet[..size] == preamble[..size];
      assert forall k :: 0 <= k < size ==> packet[k] == packet[..size][k];
      bytesRemaining := packetLength;
      state := HciPayload;
      bytesRead := 0;
    }

    /** The HCI_PAYLOAD case of OnDataReady; `ready` says that the packet-ready callback is due. */
    method ReadPayload(kind: byte, waiting: seq<byte>, limit: int) returns (ok: bool, taken: nat, ready: bool)
      requires Valid(kind) && state == HciPayload
      modifies this, packet
      ensures ok <==> waiting != [] && limit > 0 && old(bytesRemaining) > 0
      ensures ok ==> 0 < taken <= |waiting| && 1 + packet.Length >= |old(Current(kind))| + taken
      ensures ok ==> (ready <==> |old(Current(kind))| + taken == 1 + packet.Length)
      ensures ok && !ready ==> Valid(kind) && Current(kind) == old(Current(kind)) + waiting[..taken]
      ensures ok && ready ==> Initial() && [kind] + packet[..] == old(Current(kind)) + waiting[..taken]
      ensures packet == old(packet)
    {
      ready := false;
      taken := ReadCount(bytesRemaining, |waiting|, limit);
      if taken <= 0 {
        return false, taken, ready;
      }
      var at := PreambleSize(kind) + bytesRead;
      ghost var before := packet[..at];
      CopyInto(packet, at, waiting[..taken]);
      assert packet[..at + taken] == before + waiting[..taken];
      assert forall k :: 0 <= k < at ==> packet[k] == packet[..at + taken][k] == before[k];
      assert [kind] + (before + waiting[..taken]) == [kind] + before + waiting[..taken];
      bytesRemaining := bytesRemaining - taken;
      bytesRead := bytesRead + taken;
      if bytesRemaining == 0 {
        ready := true;
        state := HciPreamble;
        bytesRead := 0;
        assert packet[..] == packet[..at + taken];
      }
      return true, taken, ready;
    }

    lemma PayloadUnderWay(kind: byte)
      requires Valid(kind) && state == HciPayload
      ensures HasPreamble(Current(kind)) && Length(Current(kind)) == 1 + packet.Length
      ensures Empty(Current(kind)) <==> bytesRemaining == 0
      ensures [kind] + packet[..] == [Current(kind)[0]] + packet[..]
    {
      var current := Current(kind);
      assert forall k :: 0 <= k < PreambleSize(kind) ==> current[1..][k] == packet[..][k];
    }

    /** OnDataReady: what has been read changes as in the reference reader; `ok` is false where the
        source aborts. */
    method OnDataReady(kind: byte, waiting: seq<byte>, limit: int, ghost done: seq<Packet>)
      returns (ok: bool, taken: nat, ready: bool)
      requires Valid(kind)
      modifies this, preamble, packet
      ensures ok <==> waiting != [] && limit > 0 && !Empty(old(Current(kind)))
      ensures ok ==> 0 < taken <= |waiting|
      ensures ok && !ready ==> Valid(kind)
      ensures ok && ready ==> Initial()
      ensures ok ==> (FeedAll(Reading(done, old(Current(kind))), waiting[..taken]) ==
                if ready then Reading(done + [Packet(kind, packet[..])], []) else Reading(done, Current(kind)))
      ensures packet == old(packet) || fresh(packet)
    {
      hide PayloadSize, Feed, FeedAll, HasPreamble, Length, Empty;
      ready := false;
      ghost var current := Current(kind);
      match state
      case HciPreamble =>
        NoPreamble(current);
        ok, taken := ReadPreamble(kind, waiting, limit);
        if ok {
          FeedPreamble(done, current, waiting[..taken]);
        }
      case HciPayload =>
        PayloadUnderWay(kind);
        ok, taken, ready := ReadPayload(kind, waiting, limit);
        if ok {
          NotEmpty(current);
          FeedPayload(done, current, waiting[..taken]);
          assert ready ==> ([kind] + packet[..])[1..] == packet[..];
        }
    }
  }

  lemma FeedUnderWay(done: seq<Packet>, current: seq<byte>, waiting: seq<byte>)
    requires current != []
    ensures waiting != [] ==> (Feed(Reading(done, current), waiting[0]).Reading? <==> !Empty(current))
  {
  }

  lemma NoPreamble(current: seq<byte>)
    requires current != [] && (Receivable(current[0]) ==> |current| <= PreambleSize(current[0]))
    ensures !Empty(current)
  {
  }

  lemma NotEmpty(current: seq<byte>)
    requires HasPreamble(current)
    ensures Empty(current) <==> Length(current) == 1 + PreambleSize(current[0])
  {
  }

  /** read() into a buffer. */
  method CopyInto(buffer: array<byte>, at: nat, bytes: seq<byte>)
    requires at + |bytes| <= buffer.Length
    modifies buffer
    ensures buffer[..] == old(buffer[..at]) + bytes + old(buffer[at + |bytes|..])
  {
    forall i | 0 <= i < |bytes| {
      buffer[at + i] := bytes[i];
    }
  }

  class H4Protocol {
    var hciPacketType: byte
    const packetizer: HciPacketizer

    /** The packets passed to the callbacks, each to that of its type; and all bytes read. */
    var delivered: seq<Packet>
    ghost var consumed: seq<byte>

    ghost predicate Valid()
      reads this, packetizer, packetizer.preamble, packetizer.packet
    {
      UnderWay() && FeedAll(Reading([], []), consumed) == Reading(delivered, Current())
    }

    ghost predicate UnderWay()
      reads this, packetizer, packetizer.preamble, packetizer.packet
    {
      if hciPacketType == UNKNOWN then packetizer.Initial() else packetizer.Valid(hciPacketType)
    }

    /** What has been read of the packet under way. */
    ghost function Current(): seq<byte>
      requires UnderWay()
      reads this, packetizer, packetizer.preamble, packetizer.packet
    {
      if hciPacketType == UNKNOWN then [] else packetizer.Current(hciPacketType)
    }

    constructor ()
      ensures Valid() && delivered == [] && consumed == []
      ensures fresh(packetizer) && fresh(packetizer.preamble) && fresh(packetizer.packet)
    {
      hciPacketType := UNKNOWN;
      packetizer := new HciPacketizer();
      delivered, consumed := [], [];
    }

    /** OnDataReady: it aborts exactly when the reference reader does, or read() gives nothing. */
    method OnDataReady(waiting: seq<byte>, limit: int) returns (ok: bool, taken: nat)
      requires Valid()
      modifies this, packetizer, packetizer.preamble, packetizer.packet
      ensures ok ==> Valid() && 0 < taken <= |waiting| && consumed == old(consumed) + waiting[..taken]
      ensures ok ==> Reading(delivered, Current()) == FeedAll(Reading(old(delivered), old(Current())), waiting[..taken])
      ensures packetizer.packet == old(packetizer.packet) || fresh(packetizer.packet)
      ensures ok <==> waiting != [] && limit > 0 && Feed(Reading(old(delivered), old(Current())), waiting[0]).Reading?
    {
      hide Feed, FeedAll;
      ghost var done, current := delivered, Current();
      if hciPacketType == UNKNOWN {
        ok, taken := ReadType(waiting, limit);
      } else {
        FeedUnderWay(done, current, waiting);
        ok, taken := ReadPacket(waiting, limit);
      }
      if ok {
        FeedConcat(Reading([], []), consumed, waiting[..taken]);
        consumed := consumed + waiting[..taken];
      }
    }

    /** The branch of OnDataReady that reads the type byte. */
    method ReadType(waiting: seq<byte>, limit: int) returns (ok: bool, taken: nat)
      requires UnderWay() && hciPacketType == UNKNOWN
      modifies this`hciPacketType
      ensures ok <==> waiting != [] && limit > 0 && Feed(Reading(delivered, []), waiting[0]).Reading?
      ensures ok ==> UnderWay() && taken == 1 && FeedAll(Reading(delivered, []), waiting[..1]) == Reading(delivered, Current())
    {
      taken := ReadCount(1, |waiting|, limit);
      if taken != 1 {
        return false, taken;
      }
      hciPacketType := waiting[0];
      if hciPacketType != ACL_DATA && hciPacketType != SCO_DATA && hciPacketType != EVENT {
        return false, taken;
      }
      assert waiting[..1] == [waiting[0]];
      FirstByte(delivered, waiting[0]);
      assert Current() == [waiting[0]];
      return true, taken;
    }

    /** The branch that goes on with the packet. */
    method ReadPacket(waiting: seq<byte>, limit: int) returns (ok: bool, taken: nat)
      requires UnderWay() && hciPacketType != UNKNOWN
      modifies this`delivered, this`hciPacketType, packetizer, packetizer.preamble, packetizer.packet
      ensures ok <==> waiting != [] && limit > 0 && !Empty(old(Current()))
      ensures ok ==> UnderWay() && 0 < taken <= |waiting|
      ensures ok ==> FeedAll(Reading(old(delivered), old(Current())), waiting[..taken]) == Reading(delivered, Current())
      ensures packetizer.packet == old(packetizer.packet) || fresh(packetizer.packet)
    {
      hide Feed, FeedAll, Empty;
      var ready;
      ok, taken, ready := packetizer.OnDataReady(hciPacketType, waiting, limit, delivered);
      if ok && ready {
        OnPacketReady();
      }
    }

    /** OnPacketReady */
    method OnPacketReady()
      requires Receivable(hciPacketType)
      modifies this`delivered, this`hciPacketType
      ensures hciPacketType == UNKNOWN
      ensures delivered == old(delivered) + [Packet(old(hciPacketType), packetizer.packet[..])]
    {
      delivered := delivered + [Packet(hciPacketType, packetizer.packet[..])];
      hciPacketType := UNKNOWN;
    }

    /** All of a stream, in pieces of at most limits[i] bytes, whatever these are: the outcome is
        that of the reference reader on the whole stream. */
    method Receive(stream: seq<byte>, limits: seq<int>) returns (ok: bool)
      requires Valid() && |limits| >= |stream| && forall limit :: limit in limits ==> limit > 0
      modifies this, packetizer, packetizer.preamble, packetizer.packet
      ensures ok ==> Valid() && consumed == old(consumed) + stream
      ensures ok ==> Reading(delivered, Current()) == FeedAll(Reading(old(delivered), old(Current())), stream)
      ensures ok <==> FeedAll(Reading(old(delivered), old(Current())), stream).Reading?
    {
      hide Feed, FeedAll, UnderWay, Current;
      ghost var start := Reading(delivered, Current());
      StartOfStream(start, stream);
      var at, calls := 0, 0;
      while at < |stream|
        invariant calls <= at <= |stream| && Valid()
        invariant consumed == old(consumed) + stream[..at]
        invariant Reading(delivered, Current()) == FeedAll(start, stream[..at])
        invariant packetizer.packet == old(packetizer.packet) || fresh(packetizer.packet)
      {
        ghost var done, current := delivered, Current();
        assert limits[calls] in limits;
        var taken;
        ok, taken := OnDataReady(stream[at..], limits[calls]);
        if !ok {
          StopsAt(start, stream, at);
          return;
        }
        assert stream[at..][..taken] == stream[at..at + taken];
        NextPiece(start, stream, at, taken);
        at := at + taken;
        calls := calls + 1;
      }
      assert stream[..at] == stream;
      ok := true;
    }

    /** Well-formed packets arrive as they were sent, in order, and the parser is back in its
        initial state. */
    lemma DeliveredAsSent(packets: seq<Packet>)
      requires Valid() && consumed == Serialize(packets) && forall p :: p in packets ==> WellFormed(p)
      ensures delivered == packets && hciPacketType == UNKNOWN && packetizer.Initial()
    {
      SerializedIsRead(packets);
    }
  }

  lemma StopsAt(start: Reader, stream: seq<byte>, at: nat)
    requires at < |stream| && Feed(FeedAll(start, stream[..at]), stream[at]) == Fatal
    ensures FeedAll(start, stream) == Fatal
  {
    assert stream[..at + 1][..at] == stream[..at];
    assert FeedAll(start, stream[..at + 1]) == Fatal;
    FeedConcat(start, stream[..at + 1], stream[at + 1..]);
    FatalStays(stream[at + 1..]);
    assert stream == stream[..at + 1] + stream[at + 1..];
  }

  lemma StartOfStream(start: Reader, stream: seq<byte>)
    ensures FeedAll(start, stream[..0]) == start
  {
  }

  lemma NextPiece(start: Reader, stream: seq<byte>, at: nat, taken: nat)
    requires at + taken <= |stream|
    ensures FeedAll(start, stream[..at + taken]) == FeedAll(FeedAll(start, stream[..at]), stream[at..at + taken])
  {
    FeedConcat(start, stream[..at], stream[at..at + taken]);
    assert stream[..at + taken] == stream[..at] + stream[at..at + taken];
  }

  /** Send: the type byte, then the packet. */
  method Send(kind: byte, data: seq<byte>, results: seq<HciProtocol.WriteResult>)
    returns (rv: nat, wire: seq<byte>, waiting: bool)
    ensures rv == HciProtocol.Min(1 + |data|, HciProtocol.Accepted(results))
    ensures wire == Wire(Packet(kind, data))[..rv]
  {
    rv, wire, waiting := HciProtocol.WriteSafely([kind] + data, results);
  }
}
