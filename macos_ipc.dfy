/**
 * The framing of the named-pipe IPC between the macOS packet source and its
 * redirector: one `raw_packet::Packet` protobuf message per pipe read or write.
 */
module MacosIpc {
  import opened Common
  import ProtoWire
  import Utf8

  /**
   * `IPC_BUF_SIZE`: the read buffer holds the largest packet of the network
   * stack plus four bytes of framing. `MAX_PACKET_SIZE` is defined outside
   * this model and is a parameter.
   */
  function IpcBufSize(maxPacketSize: nat): nat
  {
    maxPacketSize + 4
  }

  /** The interception configuration is not part of this model; it is carried as opaque bytes. */
  datatype InterceptConf = InterceptConf(blob: seq<byte>)

  /** `MacosIpcSend`: what the proxy can hand to the redirector. */
  datatype IpcSend = Packet(data: seq<byte>) | SetIntercept(conf: InterceptConf)

  /** `MacosIpcRecv`: what the redirector sends; the process name is optional in the type. */
  datatype IpcRecv = RecvPacket(data: seq<byte>, processName: Option<seq<byte>>)

  /** `prost::DecodeError("Failed to decode packet")`: every decode failure is reported alike. */
  datatype DecodeError = FailedToDecodePacket

  /** The panic message of `serialize_packet` when it is given anything but a packet. */
  const INVALID_PACKET := "Invalid packet"

  /**
   * `serialize_packet`: a packet is encoded with an empty process name; a
   * `SetIntercept` command makes it panic (here: `Err` with the panic message).
   */
  function SerializePacket(sc: ProtoWire.Schema, cmd: IpcSend): (r: Result<seq<byte>, string>)
    requires cmd.Packet? ==> |cmd.data| < ProtoWire.U64_LIMIT
    ensures r.Err? <==> cmd.SetIntercept?
    ensures r.Err? ==> r.error == INVALID_PACKET
    ensures r.Ok? && ProtoWire.ValidSchema(sc) ==>
              ProtoWire.Decode(sc, r.value) == Some(ProtoWire.RawPacket(cmd.data, []))
  {
    match cmd
    case SetIntercept(_) => Err(INVALID_PACKET)
    case Packet(data) =>
      var m := ProtoWire.RawPacket(data, []);
      EmptyNameRoundTrip(sc, data);
      Ok(ProtoWire.Encode(sc, m))
  }

  lemma EmptyNameRoundTrip(sc: ProtoWire.Schema, data: seq<byte>)
    requires |data| < ProtoWire.U64_LIMIT
    ensures ProtoWire.ValidSchema(sc) ==>
              ProtoWire.Decode(sc, ProtoWire.Encode(sc, ProtoWire.RawPacket(data, []))) == Some(ProtoWire.RawPacket(data, []))
  {
    if ProtoWire.ValidSchema(sc) {
      ProtoWire.RoundTrip(sc, ProtoWire.RawPacket(data, []));
    }
  }

  /**
   * `deserialize_packet`: a frame that decodes as a message yields its data
   * and always `Some` process name; any decode failure yields the one error.
   */
  function DeserializePacket(sc: ProtoWire.Schema, buf: seq<byte>): (r: Result<IpcRecv, DecodeError>)
    ensures r.Ok? ==> r.value.processName.Some? && Utf8.IsUtf8(r.value.processName.value)
    ensures r.Err? <==> ProtoWire.Decode(sc, buf).None?
    ensures |buf| == 0 ==> r == Ok(RecvPacket([], Some([])))
  {
    match ProtoWire.Decode(sc, buf)
    case Some(m) => Ok(RecvPacket(m.data, Some(m.processName)))
    case None => Err(FailedToDecodePacket)
  }

  /**
   * Round trip: a serialized packet deserializes to the same bytes with the
   * empty process name, also for an empty packet (which encodes to nothing).
   */
  lemma SerializeDeserialize(sc: ProtoWire.Schema, data: seq<byte>)
    requires ProtoWire.ValidSchema(sc) && |data| < ProtoWire.U64_LIMIT
    ensures SerializePacket(sc, Packet(data)).Ok?
    ensures DeserializePacket(sc, SerializePacket(sc, Packet(data)).value) == Ok(RecvPacket(data, Some([])))
  {
  }

  /**
   * A frame written by the redirector with a process name decodes to that
   * packet and name.
   */
  lemma RedirectorFrameDecodes(sc: ProtoWire.Schema, data: seq<byte>, name: seq<byte>)
    requires ProtoWire.ValidSchema(sc) && Utf8.IsUtf8(name)
    requires |data| < ProtoWire.U64_LIMIT && |name| < ProtoWire.U64_LIMIT
    ensures DeserializePacket(sc, ProtoWire.Encode(sc, ProtoWire.RawPacket(data, name)))
         == Ok(RecvPacket(data, Some(name)))
  {
    ProtoWire.RoundTrip(sc, ProtoWire.RawPacket(data, name));
  }

  /**
   * The four bytes of `IPC_BUF_SIZE` are enough framing for an outgoing
   * packet when the data field number is below 16 (a one-byte key) and the
   * largest packet is below 2^21 bytes (a length of at most three bytes).
   */
  lemma {:induction false} SerializedFitsIpcBuffer(sc: ProtoWire.Schema, data: seq<byte>, maxPacketSize: nat)
    requires 1 <= sc.dataTag < 16
    requires |data| <= maxPacketSize < 0x20_0000
    ensures SerializePacket(sc, Packet(data)).Ok?
    ensures |SerializePacket(sc, Packet(data)).value| <= IpcBufSize(maxPacketSize)
  {
    Pow2Add(7, 0);
    Pow2Add(7, 7);
    Pow2Add(14, 7);
    ProtoWire.VarintLength(sc.dataTag * 8 + ProtoWire.LEN, 1);
    ProtoWire.VarintLength(|data|, 3);
  }

  /**
   * The buffer bounds outgoing frames only. A frame the redirector sends
   * with a packet of `MAX_PACKET_SIZE` bytes and a process name is longer
   * than `IPC_BUF_SIZE`, so one `try_read` cannot take it whole.
   */
  lemma NamedFullPacketExceedsBuffer(sc: ProtoWire.Schema, data: seq<byte>, name: seq<byte>, maxPacketSize: nat)
    requires 0 < |data| == maxPacketSize && 0 < |name|
    ensures |ProtoWire.Encode(sc, ProtoWire.RawPacket(data, name))| > IpcBufSize(maxPacketSize)
  {
  }
}
