/** The concrete message variants: the connection handshake packet and the three framework
    (transport-control) messages, each with its byte layout, a serializer that appends to a
    `Writer` and a deserializer that drives its own `Reader`. */
module Packets {
  import opened Wrappers
  import opened Bytes
  import opened Utf8
  import opened Stream

  /** The 16 raw bytes of a UUID. */
  type Uuid = s: seq<uint8> | |s| == 16 witness seq(16, _ => 0)

  datatype ConnectPacket = ConnectPacket(
    versionBuild: uint32,
    versionType: Text,
    playerName: Text,
    locale: Text,
    usid: Text,
    uuid: Uuid,
    mobile: bool,
    color: uint32)

  /** The variants that travel inside a `PacketMessage`. */
  datatype Packet = Connect(connect: ConnectPacket)

  /** The variants that travel inside a `FrameworkMessage`; each encoding starts with its own
      discriminant byte (1, 3 and 4). */
  datatype Framework = DiscoverHost | RegisterUdp(id: uint32) | RegisterTcp(id: uint32)

  // ---------------------------------------------------------------------------------------
  // ConnectPacket

  /** What `SerializeConnect` appends: the build number, the four length-prefixed strings, the
      16 UUID bytes, the mobile flag, the color and a final 0 ("no mods"). */
  function EncodeConnect(p: ConnectPacket): (r: seq<uint8>)
    ensures |r| == 34 + |p.versionType| + |p.playerName| + |p.locale| + |p.usid|
  {
    var strings := EncodeStr(p.versionType) + EncodeStr(p.playerName) + EncodeStr(p.locale) +
                   EncodeStr(p.usid);
    var tail := p.uuid + [if p.mobile then 1 else 0] + BigEndian(p.color, 4) + [0];
    BigEndian(p.versionBuild, 4) + strings + tail
  }

  method SerializeConnect(p: ConnectPacket, w: Writer)
    modifies w
    ensures w.buf == old(w.buf) + EncodeConnect(p)
  {
    ghost var start := w.buf;
    w.U32(p.versionBuild);
    w.Str(p.versionType);
    w.Str(p.playerName);
    w.Str(p.locale);
    w.Str(p.usid);
    w.Bytes(p.uuid);
    w.Bool(p.mobile);
    w.U32(p.color);
    w.U8(0);
    Regroup(start, BigEndian(p.versionBuild, 4), EncodeStr(p.versionType),
            EncodeStr(p.playerName), EncodeStr(p.locale), EncodeStr(p.usid), p.uuid,
            [if p.mobile then 1 else 0], BigEndian(p.color, 4), [0]);
  }

  /** The appends of `SerializeConnect`, one after the other, grouped as `EncodeConnect`
      groups them. */
  lemma Regroup<T>(start: seq<T>, head: seq<T>, e1: seq<T>, e2: seq<T>, e3: seq<T>, e4: seq<T>,
                   uuid: seq<T>, m: seq<T>, color: seq<T>, z: seq<T>)
    ensures start + head + e1 + e2 + e3 + e4 + uuid + m + color + z ==
      start + (head + (e1 + e2 + e3 + e4) + (uuid + m + color + z))
  {
  }

  /** What `DeserializeConnect` returns. Because `Reader.Str` leaves the cursor just past each
      length prefix, the four prefixes are read at the fixed offsets 4, 6, 8 and 10 whatever the
      strings' lengths, the UUID is the 16 bytes at offset 12, and the mobile flag and the color
      are read from offsets 12 and 13..17, inside those same UUID bytes. So 28 bytes suffice:
      no trailing byte for the mods (src/minet/packets.rs:34, 48) is required. */
  function DecodeConnect(data: seq<uint8>): (r: Option<ConnectPacket>)
    ensures r.Some? ==> |data| >= 28 && r.value.uuid == data[12..28]
    ensures r.Some? ==> r.value.versionBuild == FromBigEndian(data[..4])
    ensures r.Some? ==> (StrAt(data, 4) == Some(r.value.versionType) &&
                         StrAt(data, 6) == Some(r.value.playerName) &&
                         StrAt(data, 8) == Some(r.value.locale) &&
                         StrAt(data, 10) == Some(r.value.usid))
    ensures r.Some? ==> r.value.mobile == (r.value.uuid[0] != 0)
    ensures r.Some? ==> r.value.color == FromBigEndian(r.value.uuid[1..5])
  {
    if |data| < 4 then None
    else match (StrAt(data, 4), StrAt(data, 6), StrAt(data, 8), StrAt(data, 10))
      case (Some(versionType), Some(playerName), Some(locale), Some(usid)) =>
        if |data| - 12 < 16 then None
        else
          assert data[12..28][1..5] == data[13..17];
          Some(ConnectPacket(FromBigEndian(data[..4]), versionType, playerName, locale, usid,
                             data[12..28], data[12] != 0, FromBigEndian(data[13..17])))
      case _ => None
  }

  method DeserializeConnect(data: seq<uint8>) returns (r: Option<ConnectPacket>)
    ensures r == DecodeConnect(data)
  {
    var reader := new Reader(data);
    var versionBuild :- reader.U32();
    assert reader.pos == 4;
    var versionType :- reader.Str();
    assert reader.pos == 6;
    var playerName :- reader.Str();
    assert reader.pos == 8;
    var locale :- reader.Str();
    assert reader.pos == 10;
    var usid :- reader.Str();
    assert reader.pos == 12;
    var uuidBytes :- reader.Bytes(16);
    // The source applies `?` to the next two reads as well, but they cannot fail: `Bytes(16)`
    // has just found 16 bytes at the cursor, and it did not move it.
    var mobile := reader.Bool();
    var color := reader.U32();
    assert data[12..28] == uuidBytes && data[13..17] == data[reader.pos - 4..reader.pos];
    r := Some(ConnectPacket(versionBuild, versionType, playerName, locale, usid, uuidBytes,
                            mobile.value, color.value));
  }

  /** Decoding succeeds exactly when there are at least 28 bytes and each of the four length
      prefixes, at offsets 4, 6, 8 and 10, counts no more bytes than remain after it. */
  lemma DecodeConnectSucceeds(data: seq<uint8>)
    ensures DecodeConnect(data).Some? <==>
      |data| >= 28 && StrFits(data, 4) && StrFits(data, 6) && StrFits(data, 8) && StrFits(data, 10)
  {
  }

  /** Every field of an encoded connect packet is found at its offset and reads back as the
      field's value: the build number, the four length-prefixed strings one after the other,
      then the UUID, the mobile flag, the color and the final 0. */
  lemma ConnectLayout(p: ConnectPacket)
    ensures var data := EncodeConnect(p);
      var a, b, c, d := |p.versionType|, |p.playerName|, |p.locale|, |p.usid|;
      var u := 12 + a + b + c + d;
      && |data| == u + 22
      && FromBigEndian(data[..4]) == p.versionBuild
      && data[4..6 + a] == EncodeStr(p.versionType)
      && data[6 + a..8 + a + b] == EncodeStr(p.playerName)
      && data[8 + a + b..10 + a + b + c] == EncodeStr(p.locale)
      && data[10 + a + b + c..u] == EncodeStr(p.usid)
      && data[u..u + 16] == p.uuid
      && data[u + 16] == (if p.mobile then 1 else 0)
      && FromBigEndian(data[u + 17..u + 21]) == p.color
      && data[u + 21] == 0
  {
    ConnectStringsAt(p);
    ConnectFieldsAt(p);
  }

  /** The four length-prefixed strings of an encoded packet, one after the other from offset 4. */
  lemma ConnectStringsAt(p: ConnectPacket)
    ensures var data := EncodeConnect(p);
      var a, b, c, d := |p.versionType|, |p.playerName|, |p.locale|, |p.usid|;
      && data[4..6 + a] == EncodeStr(p.versionType)
      && data[6 + a..8 + a + b] == EncodeStr(p.playerName)
      && data[8 + a + b..10 + a + b + c] == EncodeStr(p.locale)
      && data[10 + a + b + c..12 + a + b + c + d] == EncodeStr(p.usid)
  {
    StringPiecesAt(EncodeConnect(p), p, BigEndian(p.versionBuild, 4), EncodeStr(p.versionType),
                   EncodeStr(p.playerName), EncodeStr(p.locale), EncodeStr(p.usid),
                   p.uuid + [if p.mobile then 1 else 0] + BigEndian(p.color, 4) + [0]);
  }

  /** The fixed-width fields of an encoded packet: the build number first, and the UUID, the
      mobile flag, the color and the final 0 after the strings. */
  lemma ConnectFieldsAt(p: ConnectPacket)
    ensures var data := EncodeConnect(p);
      var a, b, c, d := |p.versionType|, |p.playerName|, |p.locale|, |p.usid|;
      var u := 12 + a + b + c + d;
      && |data| == u + 22
      && FromBigEndian(data[..4]) == p.versionBuild
      && data[u..u + 16] == p.uuid
      && data[u + 16] == (if p.mobile then 1 else 0)
      && FromBigEndian(data[u + 17..u + 21]) == p.color
      && data[u + 21] == 0
  {
    var strings := EncodeStr(p.versionType) + EncodeStr(p.playerName) + EncodeStr(p.locale) +
                   EncodeStr(p.usid);
    TailPiecesAt(EncodeConnect(p), p, BigEndian(p.versionBuild, 4), strings,
                 BigEndian(p.color, 4));
    UnsignedRoundTrip(p.versionBuild, 4);
    UnsignedRoundTrip(p.color, 4);
  }

  /** Where four pieces, as long as the strings of `p` plus their 2-byte prefixes, sit behind a
      4-byte head. */
  lemma StringPiecesAt(data: seq<uint8>, p: ConnectPacket, head: seq<uint8>, e1: seq<uint8>,
                       e2: seq<uint8>, e3: seq<uint8>, e4: seq<uint8>, tail: seq<uint8>)
    requires |head| == 4
    requires |e1| == 2 + |p.versionType| && |e2| == 2 + |p.playerName|
    requires |e3| == 2 + |p.locale| && |e4| == 2 + |p.usid|
    requires data == head + (e1 + e2 + e3 + e4) + tail
    ensures var a, b, c, d := |p.versionType|, |p.playerName|, |p.locale|, |p.usid|;
      && data[4..6 + a] == e1
      && data[6 + a..8 + a + b] == e2
      && data[8 + a + b..10 + a + b + c] == e3
      && data[10 + a + b + c..12 + a + b + c + d] == e4
  {
  }

  /** Where the 4-byte head sits, and where the UUID, the mobile flag and the color of `p` sit
      after strings as long as those of `p` with their prefixes. */
  lemma TailPiecesAt(data: seq<uint8>, p: ConnectPacket, head: seq<uint8>, strings: seq<uint8>,
                     color: seq<uint8>)
    requires |head| == 4 && |color| == 4
    requires |strings| == 8 + |p.versionType| + |p.playerName| + |p.locale| + |p.usid|
    requires data == head + strings + (p.uuid + [if p.mobile then 1 else 0] + color + [0])
    ensures var a, b, c, d := |p.versionType|, |p.playerName|, |p.locale|, |p.usid|;
      var u := 12 + a + b + c + d;
      && |data| == u + 22 && data[..4] == head
      && data[u..u + 16] == p.uuid
      && data[u + 16] == (if p.mobile then 1 else 0)
      && data[u + 17..u + 21] == color
      && data[u + 21] == 0
  {
  }

  /** Decoding the encoding of a packet whose four strings are empty: the build number, the
      strings and the UUID come back intact, but the mobile flag is the first UUID byte and the
      color the next four, because the UUID read does not move the cursor. */
  lemma EmptyStringsDecode(p: ConnectPacket)
    requires p.versionType == [] && p.playerName == [] && p.locale == [] && p.usid == []
    ensures DecodeConnect(EncodeConnect(p)) ==
      Some(p.(mobile := p.uuid[0] != 0, color := FromBigEndian(p.uuid[1..5])))
  {
    var data := EncodeConnect(p);
    ConnectLayout(p);
    StrRoundTrip(data, 4, p.versionType);
    StrRoundTrip(data, 6, p.playerName);
    StrRoundTrip(data, 8, p.locale);
    StrRoundTrip(data, 10, p.usid);
    assert data[13..17] == p.uuid[1..5];
  }

  /** Whenever the encoding of a packet decodes at all, the build number comes back, and so does
      the first string when it is shorter than 65536 bytes. */
  lemma DecodeKeepsLeadingFields(p: ConnectPacket)
    requires DecodeConnect(EncodeConnect(p)).Some?
    ensures DecodeConnect(EncodeConnect(p)).value.versionBuild == p.versionBuild
    ensures |p.versionType| < 0x1_0000 ==>
      DecodeConnect(EncodeConnect(p)).value.versionType == p.versionType
  {
    var data := EncodeConnect(p);
    ConnectLayout(p);
    if |p.versionType| < 0x1_0000 {
      StrRoundTrip(data, 4, p.versionType);
    }
  }

  /** The packet that the repository's own round-trip test encodes: build 135, "rustbot",
      "allen", "en-US", "AAAAAAAA", not mobile, color 0x00ff00ff, and a random UUID. */
  function RoundTripTestPacket(uuid: Uuid): (p: ConnectPacket)
    ensures |p.versionType| + |p.playerName| + |p.locale| + |p.usid| == 25
  {
    var rustbot := [0x72, 0x75, 0x73, 0x74, 0x62, 0x6f, 0x74];
    var allen := [0x61, 0x6c, 0x6c, 0x65, 0x6e];
    var enUs := [0x65, 0x6e, 0x2d, 0x55, 0x53];
    var usid := [0x41, 0x41, 0x41, 0x41, 0x41, 0x41, 0x41, 0x41];
    AsciiIsValid(rustbot);
    AsciiIsValid(allen);
    AsciiIsValid(enUs);
    AsciiIsValid(usid);
    ConnectPacket(135, rustbot, allen, enUs, usid, uuid, false, 0x00ff00ff)
  }

  /** That packet does not decode, whatever its UUID: the second length prefix is read from the
      bytes 'r', 'u' of "rustbot" and asks for 29301 bytes of a 59-byte message. */
  lemma RoundTripTestFails(uuid: Uuid)
    ensures DecodeConnect(EncodeConnect(RoundTripTestPacket(uuid))) == None
  {
    var p := RoundTripTestPacket(uuid);
    var data := EncodeConnect(p);
    ConnectLayout(p);
    assert data[6..8] == p.versionType[..2];
    FromBigEndian2(data[6..8]);
    assert !StrFits(data, 6);
    DecodeConnectSucceeds(data);
  }

  /** Where the cursor would stand after the string whose prefix is at `p`, had the reader
      consumed the string's bytes. */
  function StrEnd(data: seq<uint8>, p: nat): nat
    requires p + 2 <= |data|
  {
    p + 2 + FromBigEndian(data[p..p + 2])
  }

  lemma StrEndEncodeStr(data: seq<uint8>, p: nat, s: seq<uint8>)
    requires |s| < 0x1_0000
    requires p + 2 + |s| <= |data| && data[p..p + 2 + |s|] == EncodeStr(s)
    ensures StrEnd(data, p) == p + 2 + |s|
  {
    assert data[p..p + 2] == EncodeStr(s)[..2];
  }

  /** The total byte length of a sequence of texts. */
  function TextBytes(ss: seq<Text>): nat {
    if ss == [] then 0 else |ss[0]| + TextBytes(ss[1..])
  }

  /** `n` strings read in a row from `p` by a reader whose every string read consumes the
      string's bytes, with the cursor after the last of them. Each string counts at least its
      prefix and its own bytes, and the cursor never passes the end. */
  function ReadStrs(data: seq<uint8>, p: nat, n: nat): (r: Option<(seq<Text>, nat)>)
    ensures r.Some? ==> |r.value.0| == n && p + 2 * n + TextBytes(r.value.0) <= r.value.1
    ensures r.Some? && n > 0 ==> r.value.1 <= |data|
    decreases n
  {
    if n == 0 then Some(([], p))
    else match StrAt(data, p)
      case None => None
      case Some(s) =>
        match ReadStrs(data, StrEnd(data, p), n - 1)
        case None => None
        case Some((rest, q)) =>
          assert ([s] + rest)[1..] == rest;
          Some(([s] + rest, q))
  }

  lemma TextBytes4(ss: seq<Text>)
    requires |ss| == 4
    ensures TextBytes(ss) == |ss[0]| + |ss[1]| + |ss[2]| + |ss[3]|
  {
    var t1, t2, t3 := ss[1..], ss[2..], ss[3..];
    assert t1[1..] == t2 && t2[1..] == t3 && t3[1..] == [];
    assert TextBytes(t3) == |ss[3]|;
    assert TextBytes(t2) == |ss[2]| + |ss[3]|;
  }

  /** The decoder the round-trip test expects: the same reads, with each string's bytes consumed
      so that the next field starts after them. */
  function DecodeConnectAdvancing(data: seq<uint8>): (r: Option<ConnectPacket>)
    ensures r.Some? ==> |data| >= 4 + 2 * 4 + |r.value.versionType| + |r.value.playerName| +
                                  |r.value.locale| + |r.value.usid| + 21
  {
    if |data| < 4 then None
    else match ReadStrs(data, 4, 4)
      case None => None
      case Some((ss, u)) =>
        if |data| - u < 21 then None
        else
          TextBytes4(ss);
          Some(AssembleConnect(data, ss, u))
  }

  /** The packet made of the build number at offset 0, the four strings read, and the UUID,
      mobile flag and color that follow the strings at `u`. */
  function AssembleConnect(data: seq<uint8>, ss: seq<Text>, u: nat): (p: ConnectPacket)
    requires 4 <= |data| && |ss| == 4 && u + 21 <= |data|
    ensures p.versionType == ss[0] && p.playerName == ss[1] && p.locale == ss[2]
    ensures p.usid == ss[3]
  {
    ConnectPacket(FromBigEndian(data[..4]), ss[0], ss[1], ss[2], ss[3], data[u..u + 16],
                  data[u + 16] != 0, FromBigEndian(data[u + 17..u + 21]))
  }

  /** The fixed-width fields of `p` where the encoding puts them assemble back into `p`. */
  lemma AssembleConnectFields(data: seq<uint8>, p: ConnectPacket, u: nat)
    requires 4 <= |data| && u + 21 <= |data|
    requires FromBigEndian(data[..4]) == p.versionBuild
    requires data[u..u + 16] == p.uuid && data[u + 16] == (if p.mobile then 1 else 0)
    requires FromBigEndian(data[u + 17..u + 21]) == p.color
    ensures AssembleConnect(data, [p.versionType, p.playerName, p.locale, p.usid], u) == p
  {
  }

  /** An encoded string at `p`, ending at `e`, reads back, and the advancing cursor lands on
      `e`. */
  lemma StrStep(data: seq<uint8>, p: nat, e: nat, s: Text)
    requires |s| < 0x1_0000 && e == p + 2 + |s|
    requires e <= |data| && data[p..e] == EncodeStr(s)
    ensures StrAt(data, p) == Some(s) && StrEnd(data, p) == e
  {
    StrRoundTrip(data, p, s);
    StrEndEncodeStr(data, p, s);
  }

  /** One more string in front of a run of advancing reads. */
  lemma ReadStrsCons(data: seq<uint8>, p: nat, n: nat, s: Text, rest: seq<Text>, q: nat)
    requires p + 2 <= |data| && StrAt(data, p) == Some(s)
    requires ReadStrs(data, StrEnd(data, p), n) == Some((rest, q))
    ensures ReadStrs(data, p, n + 1) == Some(([s] + rest, q))
  {
  }

  /** Once the four advancing string reads succeed and leave room for the fixed-width tail,
      the advancing decoder returns what `AssembleConnect` makes of them. */
  lemma AdvancingDecode(data: seq<uint8>, ss: seq<Text>, u: nat)
    requires ReadStrs(data, 4, 4) == Some((ss, u)) && u + 21 <= |data|
    ensures |ss| == 4 && DecodeConnectAdvancing(data) == Some(AssembleConnect(data, ss, u))
  {
  }

  /** With the cursor advanced past each string, every packet whose strings are shorter than
      65536 bytes decodes back to itself. */
  lemma AdvancingRoundTrip(p: ConnectPacket)
    requires |p.versionType| < 0x1_0000 && |p.playerName| < 0x1_0000
    requires |p.locale| < 0x1_0000 && |p.usid| < 0x1_0000
    ensures DecodeConnectAdvancing(EncodeConnect(p)) == Some(p)
  {
    ConnectLayout(p);
    AdvancingFromLayout(EncodeConnect(p), p);
  }

  /** Any bytes with the fields of `p` where its encoding puts them decode to `p`. */
  lemma AdvancingFromLayout(data: seq<uint8>, p: ConnectPacket)
    requires |p.versionType| < 0x1_0000 && |p.playerName| < 0x1_0000
    requires |p.locale| < 0x1_0000 && |p.usid| < 0x1_0000
    requires var a, b, c, d := |p.versionType|, |p.playerName|, |p.locale|, |p.usid|;
      var u := 12 + a + b + c + d;
      && |data| == u + 22
      && FromBigEndian(data[..4]) == p.versionBuild
      && data[4..6 + a] == EncodeStr(p.versionType)
      && data[6 + a..8 + a + b] == EncodeStr(p.playerName)
      && data[8 + a + b..10 + a + b + c] == EncodeStr(p.locale)
      && data[10 + a + b + c..u] == EncodeStr(p.usid)
      && data[u..u + 16] == p.uuid
      && data[u + 16] == (if p.mobile then 1 else 0)
      && FromBigEndian(data[u + 17..u + 21]) == p.color
      && data[u + 21] == 0
    ensures DecodeConnectAdvancing(data) == Some(p)
  {
    var a, b, c, d := |p.versionType|, |p.playerName|, |p.locale|, |p.usid|;
    AdvancingFromOffsets(data, p, 6 + a, 8 + a + b, 10 + a + b + c, 12 + a + b + c + d);
  }

  /** Any bytes with the fields of `p` where its encoding puts them, the four strings ending at
      `q1`, `q2`, `q3` and `u`, decode to `p`. */
  lemma AdvancingFromOffsets(data: seq<uint8>, p: ConnectPacket, q1: nat, q2: nat, q3: nat, u: nat)
    requires |p.versionType| < 0x1_0000 && |p.playerName| < 0x1_0000
    requires |p.locale| < 0x1_0000 && |p.usid| < 0x1_0000
    requires q1 == 6 + |p.versionType| && q2 == q1 + 2 + |p.playerName|
    requires q3 == q2 + 2 + |p.locale| && u == q3 + 2 + |p.usid|
    requires |data| == u + 22
    requires data[4..q1] == EncodeStr(p.versionType) && data[q1..q2] == EncodeStr(p.playerName)
    requires data[q2..q3] == EncodeStr(p.locale) && data[q3..u] == EncodeStr(p.usid)
    requires FromBigEndian(data[..4]) == p.versionBuild
    requires data[u..u + 16] == p.uuid && data[u + 16] == (if p.mobile then 1 else 0)
    requires FromBigEndian(data[u + 17..u + 21]) == p.color
    ensures DecodeConnectAdvancing(data) == Some(p)
  {
    ReadFourStrs(data, p.versionType, p.playerName, p.locale, p.usid, q1, q2, q3, u);
    AdvancingDecode(data, [p.versionType, p.playerName, p.locale, p.usid], u);
    AssembleConnectFields(data, p, u);
  }

  /** Four strings encoded one after the other from offset 4, ending at `q1`, `q2`, `q3` and
      `u`, are read back by four advancing string reads, which end at `u`. */
  lemma ReadFourStrs(data: seq<uint8>, s1: Text, s2: Text, s3: Text, s4: Text,
                     q1: nat, q2: nat, q3: nat, u: nat)
    requires |s1| < 0x1_0000 && |s2| < 0x1_0000 && |s3| < 0x1_0000 && |s4| < 0x1_0000
    requires q1 == 6 + |s1| && q2 == q1 + 2 + |s2| && q3 == q2 + 2 + |s3| && u == q3 + 2 + |s4|
    requires u <= |data|
    requires data[4..q1] == EncodeStr(s1) && data[q1..q2] == EncodeStr(s2)
    requires data[q2..q3] == EncodeStr(s3) && data[q3..u] == EncodeStr(s4)
    ensures ReadStrs(data, 4, 4) == Some(([s1, s2, s3, s4], u))
  {
    StrStep(data, q3, u, s4);
    ReadStrsCons(data, q3, 0, s4, [], u);
    assert [s4] + [] == [s4];
    StrStep(data, q2, q3, s3);
    ReadStrsCons(data, q2, 1, s3, [s4], u);
    assert [s3] + [s4] == [s3, s4];
    StrStep(data, q1, q2, s2);
    ReadStrsCons(data, q1, 2, s2, [s3, s4], u);
    assert [s2] + [s3, s4] == [s2, s3, s4];
    StrStep(data, 4, q1, s1);
    ReadStrsCons(data, 4, 3, s1, [s2, s3, s4], u);
    assert [s1] + [s2, s3, s4] == [s1, s2, s3, s4];
  }

  // ---------------------------------------------------------------------------------------
  // Framework variants

  /** What the framework serializers append: the discriminant, then the 32-bit id when there
      is one. */
  function EncodeFramework(f: Framework): (r: seq<uint8>)
    ensures |r| == if f.DiscoverHost? then 1 else 5
  {
    match f
    case DiscoverHost => [1]
    case RegisterUdp(id) => [3] + BigEndian(id, 4)
    case RegisterTcp(id) => [4] + BigEndian(id, 4)
  }

  method SerializeDiscoverHost(w: Writer)
    modifies w
    ensures w.buf == old(w.buf) + EncodeFramework(DiscoverHost)
  {
    w.U8(1);
  }

  method SerializeRegisterUdp(id: uint32, w: Writer)
    modifies w
    ensures w.buf == old(w.buf) + EncodeFramework(RegisterUdp(id))
  {
    w.U8(3);
    w.U32(id);
  }

  method SerializeRegisterTcp(id: uint32, w: Writer)
    modifies w
    ensures w.buf == old(w.buf) + EncodeFramework(RegisterTcp(id))
  {
    w.U8(4);
    w.U32(id);
  }

  /** The serializer of whichever variant `f` is. */
  method SerializeFramework(f: Framework, w: Writer)
    modifies w
    ensures w.buf == old(w.buf) + EncodeFramework(f)
  {
    match f
    case DiscoverHost => SerializeDiscoverHost(w);
    case RegisterUdp(id) => SerializeRegisterUdp(id, w);
    case RegisterTcp(id) => SerializeRegisterTcp(id, w);
  }

  /** What `DeserializeDiscoverHost` returns: the first byte must be 1; nothing else is read. */
  function DecodeDiscoverHost(data: seq<uint8>): (r: Option<Framework>)
    ensures r.Some? <==> |data| >= 1 && data[0] == 1
    ensures r.Some? ==> r.value == DiscoverHost
  {
    if |data| == 0 || data[0] != 1 then None else Some(DiscoverHost)
  }

  /** What `DeserializeRegisterUdp` returns: discriminant 3, then a 32-bit id; anything after
      the id is ignored. */
  function DecodeRegisterUdp(data: seq<uint8>): (r: Option<Framework>)
    ensures r.Some? <==> |data| >= 5 && data[0] == 3
    ensures r.Some? ==> r.value == RegisterUdp(FromBigEndian(data[1..5]))
  {
    if |data| == 0 || data[0] != 3 then None
    else if |data| - 1 < 4 then None
    else
      assert |data[1..5]| == 4;
      Some(RegisterUdp(FromBigEndian(data[1..5])))
  }

  /** What `DeserializeRegisterTcp` returns: the same with discriminant 4. */
  function DecodeRegisterTcp(data: seq<uint8>): (r: Option<Framework>)
    ensures r.Some? <==> |data| >= 5 && data[0] == 4
    ensures r.Some? ==> r.value == RegisterTcp(FromBigEndian(data[1..5]))
  {
    if |data| == 0 || data[0] != 4 then None
    else if |data| - 1 < 4 then None
    else
      assert |data[1..5]| == 4;
      Some(RegisterTcp(FromBigEndian(data[1..5])))
  }

  method DeserializeDiscoverHost(data: seq<uint8>) returns (r: Option<Framework>)
    ensures r == DecodeDiscoverHost(data)
  {
    var reader := new Reader(data);
    var tag := reader.U8();
    if tag != Some(1) {
      return None;
    }
    r := Some(DiscoverHost);
  }

  method DeserializeRegisterUdp(data: seq<uint8>) returns (r: Option<Framework>)
    ensures r == DecodeRegisterUdp(data)
  {
    var reader := new Reader(data);
    var tag := reader.U8();
    if tag != Some(3) {
      return None;
    }
    var id :- reader.U32();
    r := Some(RegisterUdp(id));
  }

  method DeserializeRegisterTcp(data: seq<uint8>) returns (r: Option<Framework>)
    ensures r == DecodeRegisterTcp(data)
  {
    var reader := new Reader(data);
    var tag := reader.U8();
    if tag != Some(4) {
      return None;
    }
    var id :- reader.U32();
    r := Some(RegisterTcp(id));
  }

  /** Each framework variant decodes back from its own encoding by its own decoder, whatever
      bytes follow it. */
  lemma FrameworkRoundTrip(f: Framework, rest: seq<uint8>)
    ensures f.DiscoverHost? ==> DecodeDiscoverHost(EncodeFramework(f) + rest) == Some(f)
    ensures f.RegisterUdp? ==> DecodeRegisterUdp(EncodeFramework(f) + rest) == Some(f)
    ensures f.RegisterTcp? ==> DecodeRegisterTcp(EncodeFramework(f) + rest) == Some(f)
  {
    var data := EncodeFramework(f) + rest;
    if !f.DiscoverHost? {
      assert data[1..5] == BigEndian(f.id, 4);
      UnsignedRoundTrip(f.id, 4);
    }
  }
}
