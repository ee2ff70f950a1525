/** Bus packets: building a management command and putting it on the wire (src/busmgt.c, src/packet.c). */
module Packets {
  import opened Bytes
  import Serial

  const HEADER_LEN := 5
  const DATA_LEN := 45
  const FLAG_NOACK := 8
  const FLAG_MGT := 16
  const FLAG_UNSOLICITED := 32
  const HOST: byte := 1
  const BRIDGE: byte := 2
  const BROADCAST: byte := 255

  /** An outgoing struct ubpacket, the first `len` bytes of its data only. */
  datatype Packet = Packet(dest: byte, flags: byte, data: seq<byte>)

  predicate HasFlag(flags: byte, flag: int)
    requires flag > 0
  {
    flags / flag % 2 == 1
  }

  /** p->flags &= UB_PACKET_MGT | UB_PACKET_NOACK. */
  function Masked(flags: byte): (r: byte)
    ensures HasFlag(r, FLAG_MGT) == HasFlag(flags, FLAG_MGT) && HasFlag(r, FLAG_NOACK) == HasFlag(flags, FLAG_NOACK)
    ensures r == flags / 8 % 4 * 8
  {
    (if HasFlag(flags, FLAG_MGT) then FLAG_MGT else 0) + (if HasFlag(flags, FLAG_NOACK) then FLAG_NOACK else 0)
  }

  /** The packed struct. The class byte of a management packet is never set by its sender. */
  function Packed(p: Packet, cls: byte): seq<byte>
    requires |p.data| <= DATA_LEN
  {
    [HOST, p.dest, Masked(p.flags), cls, ToByte(|p.data|)] + p.data
  }

  /** The command packet for `data`, unless it would not fit. */
  function Command(adr: byte, cmd: byte, data: seq<byte>): seq<Packet> {
    if |data| + 1 > DATA_LEN then [] else [Packet(adr, FLAG_MGT, [cmd] + data)]
  }

  /** What the bridge reads out of a frame: source, destination, flags and the announced payload. */
  datatype Received = Received(src: byte, dest: byte, flags: byte, data: seq<byte>)

  function Unpacked(frame: seq<byte>): Option<Received> {
    if |frame| < HEADER_LEN || |frame| != HEADER_LEN + frame[4] then None
    else Some(Received(frame[0], frame[1], frame[2], frame[HEADER_LEN..]))
  }

  /**
    * From command to wire and back: a command of at most 44 data bytes is queued as one packet whose serial frame
    * the bridge decodes to the same command; a longer one queues nothing.
    */
  lemma CommandReachesBridge(d: Serial.Decoder, adr: byte, cmd: byte, data: seq<byte>, cls: byte)
    requires !d.escaped && Serial.InBounds(d)
    ensures |data| > DATA_LEN - 1 ==> Command(adr, cmd, data) == []
    ensures |data| <= DATA_LEN - 1 ==>
              && |Command(adr, cmd, data)| == 1
              && var frames := Serial.Delivered(d, Serial.Frame(Packed(Command(adr, cmd, data)[0], cls))).0;
                 && |frames| == 1
                 && Unpacked(frames[0]) == Some(Received(HOST, adr, FLAG_MGT, [cmd] + data))
  {
    if |data| <= DATA_LEN - 1 {
      var packet := Command(adr, cmd, data)[0];
      var packed := Packed(packet, cls);
      var messages := [packed];
      assert Serial.Frames(messages) == Serial.Frame(packed) + Serial.Frames(messages[1..]);
      assert messages[1..] == [] && Serial.Frame(packed) + [] == Serial.Frame(packed);
      Serial.RoundTrip(d, messages);
      assert packed[HEADER_LEN..] == packet.data;
    }
  }

  /** A command on the wire, before it is escaped: from address 1, flag bit 4, any class, length, command, data. */
  lemma CommandBytes(adr: byte, cmd: byte, data: seq<byte>, cls: byte)
    requires |data| <= 44
    ensures Command(adr, cmd, data) != []
    ensures Packed(Command(adr, cmd, data)[0], cls) == [1, adr, 16, cls, |data| + 1, cmd] + data
  {
    assert [cmd] + data == Command(adr, cmd, data)[0].data;
  }

  /** busmgt_sendCmdData: fills p.data from the back with a counted-down index. */
  method BuildCommand(adr: byte, cmd: byte, data: seq<byte>) returns (packets: seq<Packet>)
    requires |data| <= 254
    ensures packets == Command(adr, cmd, data)
  {
    var payload := new byte[DATA_LEN];
    payload[0] := cmd;
    if |data| + 1 > DATA_LEN {
      return [];
    }
    var len := |data|;
    while len > 0
      invariant 0 <= len <= |data|
      invariant payload[0] == cmd && forall i | len <= i < |data| :: payload[i + 1] == data[i]
    {
      len := len - 1;
      payload[len + 1] := data[len];
    }
    assert payload[..|data| + 1] == [cmd] + data;
    return [Packet(adr, FLAG_MGT, payload[..|data| + 1])];
  }
}
