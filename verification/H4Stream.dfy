/** The H4 transport as a stream of bytes: what Send puts on the wire, and a reference reader that
    takes one byte at a time. */
module H4Stream {
  import opened Bits

  const UNKNOWN: byte := 0
  const ACL_DATA: byte := 2
  const SCO_DATA: byte := 3
  const EVENT: byte := 4

  /** The packet types a host receives. */
  predicate Receivable(kind: byte) {
    kind == ACL_DATA || kind == SCO_DATA || kind == EVENT
  }

  function PreambleSize(kind: byte): nat {
    if kind == ACL_DATA then 4 else if kind == SCO_DATA then 3 else 2
  }

  /** HciGetPacketLengthForType: two bytes, low byte first, for ACL data; one byte for the others. */
  function PayloadSize(kind: byte, data: seq<byte>): nat
    requires Receivable(kind) && |data| >= PreambleSize(kind)
  {
    if kind == ACL_DATA then (data[3] as int) * 256 + data[2] else if kind == SCO_DATA then data[2] else data[1]
  }

  datatype Packet = Packet(kind: byte, data: seq<byte>)

  /** A packet with a correct length field. */
  predicate Framed(p: Packet) {
    && Receivable(p.kind) && |p.data| >= PreambleSize(p.kind)
    && |p.data| == PreambleSize(p.kind) + PayloadSize(p.kind, p.data)
  }

  /** And with something behind its preamble. */
  predicate WellFormed(p: Packet) {
    Framed(p) && |p.data| > PreambleSize(p.kind)
  }

  /** One packet on the wire. */
  function Wire(p: Packet): seq<byte> {
    [p.kind] + p.data
  }

  function Serialize(packets: seq<Packet>): seq<byte> {
    if packets == [] then [] else Serialize(packets[..|packets| - 1]) + Wire(packets[|packets| - 1])
  }

  // ----- the reference reader

  /** The packets read and the bytes of the packet under way, its type first; or aborted. */
  datatype Reader = Reading(done: seq<Packet>, current: seq<byte>) | Fatal

  /** Whether the preamble of the packet under way is complete. */
  predicate HasPreamble(current: seq<byte>) {
    current != [] && Receivable(current[0]) && |current| > PreambleSize(current[0])
  }

  function Length(current: seq<byte>): nat
    requires HasPreamble(current)
  {
    1 + PreambleSize(current[0]) + PayloadSize(current[0], current[1..])
  }

  /** An announced length of zero leaves nothing to read, which is taken for the end of the file. */
  predicate Empty(current: seq<byte>) {
    HasPreamble(current) && Length(current) == 1 + PreambleSize(current[0])
  }

  function Feed(r: Reader, b: byte): Reader {
    match r
    case Fatal => Fatal
    case Reading(done, current) =>
      var next := current + [b];
      if current == [] then if Receivable(b) then Reading(done, next) else Fatal
      else if Empty(current) then Fatal
      else if HasPreamble(next) && !Empty(next) && |next| == Length(next) then
        Reading(done + [Packet(next[0], next[1..])], [])
      else Reading(done, next)
  }

  function FeedAll(r: Reader, bytes: seq<byte>): Reader {
    if bytes == [] then r else Feed(FeedAll(r, bytes[..|bytes| - 1]), bytes[|bytes| - 1])
  }

  lemma {:induction false} FeedConcat(r: Reader, a: seq<byte>, b: seq<byte>)
    ensures FeedAll(r, a + b) == FeedAll(FeedAll(r, a), b)
    decreases |b|
  {
    hide Feed;
    if b == [] {
      assert a + b == a;
    } else {
      var n := |b| - 1;
      FeedConcat(r, a, b[..n]);
      assert (a + b)[..|a| + n] == a + b[..n];
    }
  }

  lemma {:induction false} FatalStays(bytes: seq<byte>)
    ensures FeedAll(Fatal, bytes) == Fatal
  {
    if bytes != [] {
      FatalStays(bytes[..|bytes| - 1]);
    }
  }

  /** Bytes up to the end of the preamble only accumulate. */
  lemma {:induction false} FeedPreamble(done: seq<Packet>, current: seq<byte>, bytes: seq<byte>)
    requires current != [] && Receivable(current[0]) && |current| + |bytes| <= 1 + PreambleSize(current[0])
    ensures FeedAll(Reading(done, current), bytes) == Reading(done, current + bytes)
  {
    if bytes == [] {
      assert current + bytes == current;
    } else {
      var n := |bytes| - 1;
      FeedPreamble(done, current, bytes[..n]);
      assert current + bytes[..n] + [bytes[n]] == current + bytes;
    }
  }

  /** Later bytes accumulate up to the announced length, which completes the packet. */
  lemma {:induction false} FeedPayload(done: seq<Packet>, current: seq<byte>, bytes: seq<byte>)
    requires HasPreamble(current) && |current| < Length(current) && |current| + |bytes| <= Length(current)
    ensures FeedAll(Reading(done, current), bytes) ==
      if |current| + |bytes| == Length(current) then Reading(done + [Packet(current[0], (current + bytes)[1..])], [])
      else Reading(done, current + bytes)
  {
    if bytes == [] {
      assert current + bytes == current;
    } else {
      var n := |bytes| - 1;
      FeedPayload(done, current, bytes[..n]);
      assert current + bytes[..n] + [bytes[n]] == current + bytes;
      SameLength(current, bytes[..n]);
      SameLength(current, bytes);
    }
  }

  lemma SameLength(current: seq<byte>, bytes: seq<byte>)
    requires HasPreamble(current)
    ensures HasPreamble(current + bytes) && Length(current + bytes) == Length(current)
  {
    assert (current + bytes)[1..] == current[1..] + bytes;
  }

  /** A well-formed packet is read back as it was sent. */
  lemma FeedPacket(done: seq<Packet>, p: Packet)
    requires WellFormed(p)
    ensures FeedAll(Reading(done, []), Wire(p)) == Reading(done + [p], [])
  {
    hide PayloadSize;
    var size := PreambleSize(p.kind);
    var (head, tail) := (p.data[..size], p.data[size..]);
    assert Wire(p) == [p.kind] + (head + tail);
    FeedConcat(Reading(done, []), [p.kind], head + tail);
    FirstByte(done, p.kind);
    FeedConcat(Reading(done, [p.kind]), head, tail);
    FeedPreamble(done, [p.kind], head);
    LengthOfPreamble(p);
    FeedPayload(done, [p.kind] + head, tail);
    assert ([p.kind] + head + tail)[1..] == p.data;
  }

  lemma FirstByte(done: seq<Packet>, kind: byte)
    requires Receivable(kind)
    ensures FeedAll(Reading(done, []), [kind]) == Reading(done, [kind])
  {
    assert [kind][..0] == [];
    assert [] + [kind] == [kind];
  }

  lemma LengthOfPreamble(p: Packet)
    requires WellFormed(p)
    ensures var current := [p.kind] + p.data[..PreambleSize(p.kind)];
      HasPreamble(current) && Length(current) == 1 + |p.data|
  {
    var current := [p.kind] + p.data[..PreambleSize(p.kind)];
    assert current[1..] == p.data[..PreambleSize(p.kind)];
  }

  /** Round trip: well-formed packets are read back, in order, and nothing is left over. */
  lemma {:induction false} SerializedIsRead(packets: seq<Packet>)
    requires forall p :: p in packets ==> WellFormed(p)
    ensures FeedAll(Reading([], []), Serialize(packets)) == Reading(packets, [])
  {
    if packets != [] {
      var n := |packets| - 1;
      SerializedIsRead(packets[..n]);
      FeedConcat(Reading([], []), Serialize(packets[..n]), Wire(packets[n]));
      FeedPacket(packets[..n], packets[n]);
      assert packets[..n] + [packets[n]] == packets;
    }
  }

  /** Conversely, whatever has been read without an abort is the serialisation of the packets
      delivered, all of them well-formed, and of the packet under way. */
  lemma {:induction false} ReadIsSerialized(bytes: seq<byte>)
    ensures var r := FeedAll(Reading([], []), bytes);
      r.Reading? ==> Serialize(r.done) + r.current == bytes && forall p :: p in r.done ==> WellFormed(p)
    ensures var r := FeedAll(Reading([], []), bytes);
      r.Reading? && r.current != [] ==> Receivable(r.current[0]) && (HasPreamble(r.current) ==> Empty(r.current) || |r.current| < Length(r.current))
  {
    if bytes != [] {
      var n := |bytes| - 1;
      ReadIsSerialized(bytes[..n]);
      var r := FeedAll(Reading([], []), bytes[..n]);
      if r.Reading? {
        SerializedByte(r, bytes[n]);
        assert bytes == bytes[..n] + [bytes[n]];
      }
    }
  }

  lemma SerializedByte(r: Reader, b: byte)
    requires r.Reading? && (forall p :: p in r.done ==> WellFormed(p))
    requires r.current != [] ==> Receivable(r.current[0]) && (HasPreamble(r.current) ==> Empty(r.current) || |r.current| < Length(r.current))
    ensures var s := Feed(r, b);
      s.Reading? ==> Serialize(s.done) + s.current == Serialize(r.done) + r.current + [b] && forall p :: p in s.done ==> WellFormed(p)
    ensures var s := Feed(r, b);
      s.Reading? && s.current != [] ==> Receivable(s.current[0]) && (HasPreamble(s.current) ==> Empty(s.current) || |s.current| < Length(s.current))
  {
    var s := Feed(r, b);
    var next := r.current + [b];
    if HasPreamble(r.current) {
      SameLength(r.current, [b]);
    }
    if s.Reading? {
      assert Serialize(r.done) + next == Serialize(r.done) + r.current + [b];
      if s.current == [] {
        var p := Packet(next[0], next[1..]);
        assert Wire(p) == next && s.done[..|r.done|] == r.done;
      }
    }
  }

  /** A packet whose length field is zero is never delivered: the next byte aborts the reader. */
  lemma EmptyPacketIsFatal(done: seq<Packet>, kind: byte, preamble: seq<byte>, b: byte)
    requires Receivable(kind) && |preamble| == PreambleSize(kind) && PayloadSize(kind, preamble) == 0
    ensures FeedAll(Reading(done, []), [kind] + preamble) == Reading(done, [kind] + preamble)
    ensures FeedAll(Reading(done, []), [kind] + preamble + [b]) == Fatal
  {
    FeedConcat(Reading(done, []), [kind], preamble);
    FirstByte(done, kind);
    FeedPreamble(done, [kind], preamble);
    assert ([kind] + preamble + [b])[..1 + |preamble|] == [kind] + preamble;
    assert ([kind] + preamble)[1..] == preamble;
  }

  predicate AllFramed(packets: seq<Packet>) {
    forall i :: 0 <= i < |packets| ==> Framed(packets[i])
  }

  predicate NoneEmpty(packets: seq<Packet>)
    requires AllFramed(packets)
  {
    forall i :: 0 <= i < |packets| ==> PayloadSize(packets[i].kind, packets[i].data) > 0
  }

  /** Packets with correct length fields are read back as they were sent if and only if none of the
      length fields is zero. */
  lemma ReadBackExactlyWhen(packets: seq<Packet>)
    requires AllFramed(packets)
    ensures FeedAll(Reading([], []), Serialize(packets)) == Reading(packets, []) <==> NoneEmpty(packets)
  {
    hide Feed, FeedAll, PayloadSize, Serialize;
    if NoneEmpty(packets) {
      forall p | p in packets ensures WellFormed(p) {
        var i :| 0 <= i < |packets| && packets[i] == p;
      }
      SerializedIsRead(packets);
    } else {
      ReadIsSerialized(Serialize(packets));
      var i :| 0 <= i < |packets| && PayloadSize(packets[i].kind, packets[i].data) == 0;
      assert packets[i] in packets && !WellFormed(packets[i]);
    }
  }

  // ----- the layouts of the standard, byte by byte

  /** ACL data: handle and flags, then the length, low byte first. */
  lemma AclLayout(h0: byte, h1: byte, x: seq<byte>)
    requires 0 < |x| < 0x1_0000
    ensures var data: seq<byte> := [h0, h1, |x| % 256, |x| / 256] + x;
      FeedAll(Reading([], []), [2] + data) == Reading([Packet(2, data)], [])
  {
    var data: seq<byte> := [h0, h1, |x| % 256, |x| / 256] + x;
    assert data[2] == |x| % 256 && data[3] == |x| / 256;
    FeedOne(Packet(2, data));
  }

  /** SCO data: handle and flags, then the length. */
  lemma ScoLayout(h0: byte, h1: byte, x: seq<byte>)
    requires 0 < |x| < 256
    ensures var data: seq<byte> := [h0, h1, |x|] + x;
      FeedAll(Reading([], []), [3] + data) == Reading([Packet(3, data)], [])
  {
    var data: seq<byte> := [h0, h1, |x|] + x;
    assert data[2] == |x|;
    FeedOne(Packet(3, data));
  }

  /** An event: its code, then the length. */
  lemma EventLayout(code: byte, x: seq<byte>)
    requires 0 < |x| < 256
    ensures var data: seq<byte> := [code, |x|] + x;
      FeedAll(Reading([], []), [4] + data) == Reading([Packet(4, data)], [])
  {
    var data: seq<byte> := [code, |x|] + x;
    assert data[1] == |x|;
    FeedOne(Packet(4, data));
  }

  lemma FeedOne(p: Packet)
    requires WellFormed(p)
    ensures FeedAll(Reading([], []), [p.kind] + p.data) == Reading([p], [])
  {
    hide Feed;
    FeedPacket([], p);
    assert [] + [p] == [p];
  }
}
