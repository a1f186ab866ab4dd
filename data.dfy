/** The message envelopes and the top-level dispatcher.

    A `PacketMessage` carries an application command (the connect handshake) behind an id byte,
    a 16-bit length and a compression flag; a `FrameworkMessage` carries a transport-control
    command behind the marker byte 0xfe. A datagram is one encoded message; a TCP frame is one
    encoded message behind a 16-bit length. The source's boxed trait objects and run-time type
    lookup become the datatypes below. */
module Data {
  import opened Wrappers
  import opened Bytes
  import opened Stream
  import opened Packets

  /** A packet-family value and whether its body travels LZ4-compressed. */
  datatype PacketMessage = PacketMessage(packet: Packet, compressed: bool)

  /** A framework-family value behind the 0xfe marker. */
  datatype FrameworkMessage = FrameworkMessage(inner: Framework)

  /** A top-level transmittable unit of either family: what the dispatcher decodes. */
  datatype Message = PacketMsg(packetMsg: PacketMessage) | FrameworkMsg(frameworkMsg: FrameworkMessage)

  /** LZ4 block compression, supplied by the caller; no law about it is assumed. */
  type Compress = seq<uint8> -> seq<uint8>

  /** LZ4 block decompression with the expected decompressed size; `None` when it fails. */
  type Decompress = (seq<uint8>, nat) -> Option<seq<uint8>>

  /** The marker byte that opens every framework message. */
  const FrameworkMarker: uint8 := 0xfe

  // ---------------------------------------------------------------------------------------
  // PacketMessage

  /** The wire id of a packet's variant. Connect is the only variant, so the source's panic for
      a packet type without an id cannot happen. No id is the framework marker, which is what
      lets the dispatcher tell the two families apart by their first byte. */
  function PacketId(p: Packet): (id: uint8)
    ensures id != FrameworkMarker
  {
    match p
    case Connect(_) => 3
  }

  /** What a packet's own serializer writes. */
  function EncodePacket(p: Packet): seq<uint8> {
    match p
    case Connect(c) => EncodeConnect(c)
  }

  method SerializePacket(p: Packet, w: Writer)
    modifies w
    ensures w.buf == old(w.buf) + EncodePacket(p)
  {
    match p
    case Connect(c) => SerializeConnect(c, w);
  }

  /** The envelope around a packet: its id, the length of its uncompressed encoding cut to 16
      bits, the flag, then the encoding itself or its compression. */
  function EncodePacketMessage(m: PacketMessage, compress: Compress): (r: seq<uint8>)
    ensures |r| >= 4 && r[0] == PacketId(m.packet) && (r[3] != 0) == m.compressed
    ensures r[3] == if m.compressed then 1 else 0
    ensures FromBigEndian(r[1..3]) == |EncodePacket(m.packet)| % 0x1_0000
    ensures r[4..] == if m.compressed then compress(EncodePacket(m.packet)) else EncodePacket(m.packet)
  {
    var body := EncodePacket(m.packet);
    var header := [PacketId(m.packet)] + BigEndian(|body| % 0x1_0000, 2) +
                  [if m.compressed then 1 else 0];
    var rest := if m.compressed then compress(body) else body;
    HeaderLayout(header, rest);
    header + rest
  }

  /** The four header bytes of a packet message come before the rest, each where the
      decoder looks for it. */
  lemma HeaderLayout(header: seq<uint8>, rest: seq<uint8>)
    requires |header| == 4
    ensures var r := header + rest;
      |r| == 4 + |rest| && r[0] == header[0] && r[3] == header[3] && r[1..3] == header[1..3]
      && r[4..] == rest
  {
  }

  /** Writes the id, serializes the packet into a scratch writer, then writes the length, the
      flag and the (compressed) scratch bytes. */
  method SerializePacketMessage(m: PacketMessage, compress: Compress, w: Writer)
    modifies w
    ensures w.buf == old(w.buf) + EncodePacketMessage(m, compress)
  {
    ghost var start := w.buf;
    w.U8(PacketId(m.packet));
    var packetData := new Writer();
    SerializePacket(m.packet, packetData);
    assert packetData.buf == EncodePacket(m.packet);
    var len := |packetData.buf|;
    w.U16(len % 0x1_0000);
    w.Bool(m.compressed);
    ghost var header := [PacketId(m.packet)] + BigEndian(len % 0x1_0000, 2) +
                        [if m.compressed then 1 else 0];
    assert w.buf == start + header;
    var body := if m.compressed then compress(packetData.buf) else packetData.buf;
    w.Bytes(body);
    AppendAssoc(start, header, body);
    assert header + body == EncodePacketMessage(m, compress);
  }

  /** What `DeserializePacketMessage` returns. The id, length and flag take the first four
      bytes; the body is every byte after them, whatever the length field says, which only
      serves as the expected size for decompression. The id must be 3. */
  function DecodePacketMessage(data: seq<uint8>, decompress: Decompress): (r: Option<PacketMessage>)
    ensures |data| < 4 ==> r == None
    ensures r.Some? ==> data[0] == 3 && r.value.compressed == (data[3] != 0)
  {
    if |data| < 4 then None
    else
      var compressed := data[3] != 0;
      var body :- if compressed then decompress(data[4..], FromBigEndian(data[1..3]))
                  else Some(data[4..]);
      if data[0] != 3 then None
      else match DecodeConnect(body)
        case None => None
        case Some(c) => Some(PacketMessage(Connect(c), compressed))
  }

  method DeserializePacketMessage(data: seq<uint8>, decompress: Decompress)
    returns (r: Option<PacketMessage>)
    ensures r == DecodePacketMessage(data, decompress)
  {
    var reader := new Reader(data);
    var id :- reader.U8();
    var len :- reader.U16();
    var compressed :- reader.Bool();
    assert reader.pos == 4 && data[1..3] == data[1..reader.pos - 1];
    var original := reader.BytesRemaining();
    var body: seq<uint8>;
    if compressed {
      body :- decompress(original, len);
    } else {
      body := original;
    }
    if id != 3 {
      return None;
    }
    var packet :- DeserializeConnect(body);
    r := Some(PacketMessage(Connect(packet), compressed));
  }

  /** Uncompressed, the envelope decodes exactly when its id is 3 and the bytes after the
      flag decode as a connect packet. */
  lemma UncompressedPacketMessage(data: seq<uint8>, decompress: Decompress)
    requires |data| >= 4 && data[3] == 0
    ensures DecodePacketMessage(data, decompress).Some? <==>
      data[0] == 3 && DecodeConnect(data[4..]).Some?
    ensures DecodePacketMessage(data, decompress).Some? ==>
      DecodePacketMessage(data, decompress).value ==
        PacketMessage(Connect(DecodeConnect(data[4..]).value), false)
  {
  }

  /** Compressed, the bytes after the flag go to the decompressor with the length field as the
      expected size. When it fails the envelope fails; otherwise the envelope decodes exactly
      when its id is 3 and the decompressed bytes decode as a connect packet. */
  lemma CompressedPacketMessage(data: seq<uint8>, decompress: Decompress)
    requires |data| >= 4 && data[3] != 0
    ensures decompress(data[4..], FromBigEndian(data[1..3])).None? ==>
      DecodePacketMessage(data, decompress) == None
    ensures var body := decompress(data[4..], FromBigEndian(data[1..3]));
      DecodePacketMessage(data, decompress).Some? <==>
        data[0] == 3 && body.Some? && DecodeConnect(body.value).Some?
    ensures var body := decompress(data[4..], FromBigEndian(data[1..3]));
      DecodePacketMessage(data, decompress).Some? ==>
        DecodePacketMessage(data, decompress).value ==
          PacketMessage(Connect(DecodeConnect(body.value).value), true)
  {
  }

  /** The length field never bounds an uncompressed body: rewriting it changes nothing. */
  lemma LengthFieldIgnored(data: seq<uint8>, decompress: Decompress, hi: uint8, lo: uint8)
    requires |data| >= 4 && data[3] == 0
    ensures DecodePacketMessage(data[1 := hi][2 := lo], decompress) ==
      DecodePacketMessage(data, decompress)
  {
    assert data[1 := hi][2 := lo][4..] == data[4..];
  }

  /** An id other than 3 never decodes, compressed or not. */
  lemma UnknownPacketId(data: seq<uint8>, decompress: Decompress)
    requires |data| >= 1 && data[0] != 3
    ensures DecodePacketMessage(data, decompress) == None
  {
  }

  /** The decoded value of a packet message's own encoding is whatever the connect decoder
      makes of the packet's encoding: the envelope adds nothing and loses nothing. For a
      compressed message this needs decompression to undo compression on that body, given the
      body's exact length, which the 16-bit field carries only below 65536 bytes. */
  lemma PacketMessageRoundTrip(m: PacketMessage, compress: Compress, decompress: Decompress)
    requires m.compressed ==> |EncodePacket(m.packet)| < 0x1_0000
    requires m.compressed ==>
      decompress(compress(EncodePacket(m.packet)), |EncodePacket(m.packet)|) ==
        Some(EncodePacket(m.packet))
    ensures DecodePacketMessage(EncodePacketMessage(m, compress), decompress) ==
      match DecodeConnect(EncodeConnect(m.packet.connect))
      case None => None
      case Some(c) => Some(PacketMessage(Connect(c), m.compressed))
  {
    var data := EncodePacketMessage(m, compress);
    var body := EncodePacket(m.packet);
    if m.compressed {
      assert FromBigEndian(data[1..3]) == |body| by {
        DivModUnique(|body|, 0x1_0000, 0, |body|);
      }
    }
  }

  /** So a packet message around a connect packet with four empty strings decodes to that
      packet with its mobile flag and color taken from the UUID bytes. */
  lemma EmptyStringsPacketMessage(m: PacketMessage, compress: Compress, decompress: Decompress)
    requires !m.compressed
    requires var c := m.packet.connect;
      c.versionType == [] && c.playerName == [] && c.locale == [] && c.usid == []
    ensures var c := m.packet.connect;
      DecodePacketMessage(EncodePacketMessage(m, compress), decompress) ==
        Some(m.(packet := Connect(c.(mobile := c.uuid[0] != 0,
                                     color := FromBigEndian(c.uuid[1..5])))))
  {
    PacketMessageRoundTrip(m, compress, decompress);
    EmptyStringsDecode(m.packet.connect);
  }

  // ---------------------------------------------------------------------------------------
  // FrameworkMessage

  /** The marker, then the variant's own encoding, discriminant included. */
  function EncodeFrameworkMessage(f: FrameworkMessage): (r: seq<uint8>)
    ensures |r| >= 2 && r[0] == FrameworkMarker && r[1..] == EncodeFramework(f.inner)
  {
    [FrameworkMarker] + EncodeFramework(f.inner)
  }

  method SerializeFrameworkMessage(f: FrameworkMessage, w: Writer)
    modifies w
    ensures w.buf == old(w.buf) + EncodeFrameworkMessage(f)
  {
    ghost var start := w.buf;
    w.U8(FrameworkMarker);
    SerializeFramework(f.inner, w);
    AppendAssoc(start, [FrameworkMarker], EncodeFramework(f.inner));
  }

  /** What `DeserializeFrameworkMessage` returns: after the marker, the next byte is peeked
      and picks the variant. Discover-host is returned without reading further; the register
      variants are decoded by their own decoders from the peeked byte on. */
  function DecodeFrameworkMessage(data: seq<uint8>): (r: Option<FrameworkMessage>)
    ensures r.Some? ==> |data| >= 2 && data[0] == FrameworkMarker
    ensures r.Some? ==> (r.value.inner.DiscoverHost? <==> data[1] == 1)
    ensures r.Some? ==> (r.value.inner.RegisterUdp? <==> data[1] == 3)
    ensures r.Some? ==> (r.value.inner.RegisterTcp? <==> data[1] == 4)
  {
    if |data| == 0 || data[0] != FrameworkMarker || |data| == 1 then None
    else if data[1] == 1 then Some(FrameworkMessage(DiscoverHost))
    else if data[1] == 3 then
      match DecodeRegisterUdp(data[1..])
      case None => None
      case Some(inner) => Some(FrameworkMessage(inner))
    else if data[1] == 4 then
      match DecodeRegisterTcp(data[1..])
      case None => None
      case Some(inner) => Some(FrameworkMessage(inner))
    else None
  }

  method DeserializeFrameworkMessage(data: seq<uint8>) returns (r: Option<FrameworkMessage>)
    ensures r == DecodeFrameworkMessage(data)
  {
    var reader := new Reader(data);
    var marker := reader.U8();
    if marker != Some(FrameworkMarker) {
      return None;
    }
    var tag := reader.PeekU8();
    match tag
    case Some(1) =>
      r := Some(FrameworkMessage(DiscoverHost));
    case Some(3) =>
      var rest := reader.BytesRemaining();
      var inner :- DeserializeRegisterUdp(rest);
      r := Some(FrameworkMessage(inner));
    case Some(4) =>
      var rest := reader.BytesRemaining();
      var inner :- DeserializeRegisterTcp(rest);
      r := Some(FrameworkMessage(inner));
    case _ =>
      r := None;
  }

  /** Exactly which byte strings decode: the marker, then either discriminant 1 or
      discriminant 3 or 4 followed by at least four id bytes. Anything after is ignored. */
  lemma FrameworkMessageDecodes(data: seq<uint8>)
    ensures DecodeFrameworkMessage(data).Some? <==>
      |data| >= 2 && data[0] == FrameworkMarker &&
      (data[1] == 1 || ((data[1] == 3 || data[1] == 4) && |data| >= 6))
    ensures |data| >= 6 && data[0] == FrameworkMarker && (data[1] == 3 || data[1] == 4) ==>
      DecodeFrameworkMessage(data).value.inner.id == FromBigEndian(data[2..6])
  {
    if |data| >= 6 {
      assert data[1..][1..5] == data[2..6];
    }
  }

  /** Every framework message decodes back from its encoding, whatever follows it. */
  lemma FrameworkMessageRoundTrip(f: FrameworkMessage, rest: seq<uint8>)
    ensures DecodeFrameworkMessage(EncodeFrameworkMessage(f) + rest) == Some(f)
  {
    var data := EncodeFrameworkMessage(f) + rest;
    assert data[1..] == EncodeFramework(f.inner) + rest;
    FrameworkRoundTrip(f.inner, rest);
  }

  /** The byte strings of the repository's framework-message test, and two that fail. */
  lemma FrameworkTestVectors()
    ensures DecodeFrameworkMessage([0xfe, 1]) == Some(FrameworkMessage(DiscoverHost))
    ensures DecodeFrameworkMessage([0xfe, 3, 0, 0, 0, 5]) == Some(FrameworkMessage(RegisterUdp(5)))
    ensures DecodeFrameworkMessage([0xfe, 4, 0, 0, 0, 5]) == Some(FrameworkMessage(RegisterTcp(5)))
    ensures DecodeFrameworkMessage([0xfe, 99]) == None
    ensures DecodeFrameworkMessage([0xfe, 3, 0, 0, 5]) == None
    ensures DecodeFrameworkMessage([]) == None
  {
    FromBigEndian4([0, 0, 0, 5]);
    assert [0xfe, 3, 0, 0, 0, 5][1..][1..5] == [0, 0, 0, 5];
    assert [0xfe, 4, 0, 0, 0, 5][1..][1..5] == [0, 0, 0, 5];
  }

  // ---------------------------------------------------------------------------------------
  // Top-level messages: serialization, UDP dispatch and TCP framing

  /** What a message's serializer writes, whichever family it belongs to. */
  function EncodeMessage(m: Message, compress: Compress): (r: seq<uint8>)
    ensures |r| >= 2
    ensures m.FrameworkMsg? <==> r[0] == FrameworkMarker
  {
    match m
    case PacketMsg(p) => EncodePacketMessage(p, compress)
    case FrameworkMsg(f) => EncodeFrameworkMessage(f)
  }

  method SerializeMessage(m: Message, compress: Compress, w: Writer)
    modifies w
    ensures w.buf == old(w.buf) + EncodeMessage(m, compress)
  {
    match m
    case PacketMsg(p) => SerializePacketMessage(p, compress, w);
    case FrameworkMsg(f) => SerializeFrameworkMessage(f, w);
  }

  /** `parse_udp`: an empty datagram is nothing; the marker 0xfe picks the framework decoder
      and any other first byte the packet decoder. */
  function ParseUdp(data: seq<uint8>, decompress: Decompress): (r: Option<Message>)
    ensures |data| == 0 ==> r == None
    ensures |data| > 0 && data[0] == FrameworkMarker ==>
      (r.Some? <==> DecodeFrameworkMessage(data).Some?)
    ensures |data| > 0 && data[0] != FrameworkMarker ==>
      (r.Some? <==> DecodePacketMessage(data, decompress).Some?)
    ensures r.Some? ==> (r.value.FrameworkMsg? <==> data[0] == FrameworkMarker)
    ensures r.Some? && r.value.FrameworkMsg? ==>
      DecodeFrameworkMessage(data) == Some(r.value.frameworkMsg)
    ensures r.Some? && r.value.PacketMsg? ==>
      DecodePacketMessage(data, decompress) == Some(r.value.packetMsg)
  {
    if |data| == 0 then None
    else if data[0] == FrameworkMarker then
      match DecodeFrameworkMessage(data)
      case None => None
      case Some(f) => Some(FrameworkMsg(f))
    else
      match DecodePacketMessage(data, decompress)
      case None => None
      case Some(p) => Some(PacketMsg(p))
  }

  /** The dispatcher never confuses the two families: a framework message's encoding comes
      back whole, and a packet message's encoding goes to the packet decoder (its first byte
      is the id 3, never the marker). */
  lemma ParseUdpRoundTrip(m: Message, compress: Compress, decompress: Decompress, rest: seq<uint8>)
    requires m.PacketMsg? ==> rest == []
    requires m.PacketMsg? && m.packetMsg.compressed ==>
      var body := EncodePacket(m.packetMsg.packet);
      |body| < 0x1_0000 && decompress(compress(body), |body|) == Some(body)
    ensures m.FrameworkMsg? ==> ParseUdp(EncodeMessage(m, compress) + rest, decompress) == Some(m)
    ensures m.PacketMsg? ==>
      ParseUdp(EncodeMessage(m, compress), decompress) ==
        match DecodeConnect(EncodeConnect(m.packetMsg.packet.connect))
        case None => None
        case Some(c) => Some(PacketMsg(PacketMessage(Connect(c), m.packetMsg.compressed)))
  {
    match m
    case FrameworkMsg(f) =>
      var data := EncodeMessage(m, compress) + rest;
      assert data[0] == FrameworkMarker;
      FrameworkMessageRoundTrip(f, rest);
    case PacketMsg(p) =>
      PacketMessageRoundTrip(p, compress, decompress);
  }

  /** The bytes `send_udp` puts in one datagram: the message's serialization, unframed. */
  method UdpDatagram(m: Message, compress: Compress) returns (datagram: seq<uint8>)
    ensures datagram == EncodeMessage(m, compress)
  {
    var buf := new Writer();
    SerializeMessage(m, compress, buf);
    datagram := buf.buf;
  }

  /** The bytes `send_tcp` writes to the stream: the serialization's length cut to 16 bits,
      then the serialization. The prefix counts the bytes that follow it exactly when the
      message is shorter than 65536 bytes. */
  method TcpFrame(m: Message, compress: Compress) returns (frame: seq<uint8>)
    ensures |frame| == 2 + |EncodeMessage(m, compress)|
    ensures frame[2..] == EncodeMessage(m, compress)
    ensures FromBigEndian(frame[..2]) == (|frame| - 2) % 0x1_0000
    ensures FromBigEndian(frame[..2]) == |frame| - 2 <==> |frame| - 2 < 0x1_0000
  {
    var buf := new Writer();
    SerializeMessage(m, compress, buf);
    var body := buf.buf;
    assert body == EncodeMessage(m, compress);
    var bufTcp := new Writer();
    bufTcp.U16(|body| % 0x1_0000);
    bufTcp.Bytes(body);
    frame := bufTcp.buf;
    LengthPrefixed(body, frame);
  }

  /** A 16-bit length prefix followed by the body: the prefix holds the body's length modulo
      65536, which is the length itself exactly when the body is shorter than 65536 bytes. */
  lemma LengthPrefixed(body: seq<uint8>, frame: seq<uint8>)
    requires frame == [] + BigEndian(|body| % 0x1_0000, 2) + body
    ensures |frame| == 2 + |body| && frame[2..] == body
    ensures FromBigEndian(frame[..2]) == (|frame| - 2) % 0x1_0000
    ensures FromBigEndian(frame[..2]) == |frame| - 2 <==> |frame| - 2 < 0x1_0000
  {
    assert frame[..2] == BigEndian(|body| % 0x1_0000, 2);
    UnsignedRoundTrip(|body| % 0x1_0000, 2);
    if |body| >= 0x1_0000 {
      assert |body| % 0x1_0000 < 0x1_0000;
    } else {
      DivModUnique(|body|, 0x1_0000, 0, |body|);
    }
  }
}
