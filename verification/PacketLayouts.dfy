/** The legacy UDP packets byte by byte: which bytes stand where in what the encoders emit, and what the
    decoder makes of packets no encoder emits. */
module PacketLayouts {
  import opened Bytes
  import opened Varint
  import opened StreamValues
  import opened LegacyPackets
  import opened Wrappers

  // ----- Which packets are pings

  /** Bytes that are a ping without the legacy header: a ping in the newer format, which starts with 1; an
      answer with information, which has 24 bytes and goes to a client; or a request for information,
      which has 12 bytes, starts with four zeros and goes to a server. */
  predicate IsExtendedPing(role: Role, data: seq<byte>) {
    || (|data| >= 1 && data[0] == 1)
    || (role.Client? && |data| == 24)
    || (role.Server? && |data| == 12 && data[0] == 0 && data[1] == 0 && data[2] == 0 && data[3] == 0)
  }

  /** With the restriction to pings no audio comes out.  The answer is the one without the restriction for
      exactly those packets of at least two bytes that are a ping without the legacy header; everything
      else is refused, plain pings included. */
  lemma RestrictedDecode(role: Role, data: seq<byte>)
    ensures var r := DecodePacket(role, data, true);
            && (r.Some? ==> !r.value.AudioMessage?)
            && (if |data| >= 2 && IsExtendedPing(role, data) then r.Some? && r == DecodePacket(role, data, false)
                else r.None?)
  {
    if |data| == 12 {
      assert data[0..4] == [data[0], data[1], data[2], data[3]];
    }
  }

  /** What the header of every other packet says: a plain ping after 1, audio of four codecs after 0, 2, 3
      and 4, nothing after 5, 6 and 7. */
  lemma HeaderKinds(role: Role, data: seq<byte>)
    requires |data| >= 2 && !IsExtendedPing(role, data)
    ensures var r, kind := DecodePacket(role, data, false), data[0] / 32;
            && (kind == 0 ==> r == AsAudio(DecodeAudio(role, data, CeltAlpha)))
            && (kind == 1 && |data| <= 10 ==> r == Some(PingMessage(NO_PING.(timestamp := Decode(data[1..]).value))))
            && (kind == 2 ==> r == AsAudio(DecodeAudio(role, data, Speex)))
            && (kind == 3 ==> r == AsAudio(DecodeAudio(role, data, CeltBeta)))
            && (kind == 4 ==> r == AsAudio(DecodeAudio(role, data, Opus)))
            && (kind >= 5 ==> r == None)
    ensures data[0] / 32 == 1 && |data| > 10 ==>
              (DecodePacket(role, data, false).Some? <==>
               || (role.Client? && |data| == 25)
               || (role.Server? && |data| == 13 && data[1] == 0 && data[2] == 0 && data[3] == 0 && data[4] == 0))
  {
    if |data| == 12 {
      assert data[0..4] == [data[0], data[1], data[2], data[3]];
    }
    if |data| == 13 {
      assert data[1..][0..4] == [data[1], data[2], data[3], data[4]];
    }
  }

  lemma TooShort(role: Role, data: seq<byte>, restrictToPing: bool)
    requires |data| <= 1
    ensures DecodePacket(role, data, restrictToPing) == None
  {
  }

  /** Two and four bytes as numbers, the high byte first. */
  function Big16(b1: int, b0: int): int {
    b1 * 0x100 + b0
  }

  function Big32(b3: int, b2: int, b1: int, b0: int): int {
    b3 * 0x100_0000 + b2 * 0x1_0000 + b1 * 0x100 + b0
  }

  /** What stands in an answer with information: the version in two bytes and two of one, the timestamp as
      in the sender's memory, the users, their maximum and the bandwidth in four bytes each. */
  lemma AnswerFields(data: seq<byte>)
    requires |data| == 24 && data[0] != 1
    ensures DecodePacket(Client, data, true).Some? && DecodePacket(Client, data, true).value.PingMessage?
    ensures var p := DecodePacket(Client, data, true).value.ping;
            && p.serverVersion.major == Big16(data[0], data[1])
            && p.serverVersion.minor == data[2] && p.serverVersion.patch == data[3]
            && p.userCount == Big32(data[12], data[13], data[14], data[15])
            && p.maxUserCount == Big32(data[16], data[17], data[18], data[19])
            && p.maxBandwidthPerUser == Big32(data[20], data[21], data[22], data[23])
            && !p.requestAdditionalInformation && !p.containsAdditionalInformation
  {
  }

  /** The bytes of an answer with information. */
  lemma AnswerLayout(d: PingData, data: seq<byte>)
    requires d.containsAdditionalInformation && data == EncodedPing(Server, d)
    ensures |data| == 24
    ensures Big16(data[0], data[1]) == d.serverVersion.major
    ensures data[2] == (if d.serverVersion.minor > 255 then 255 else d.serverVersion.minor)
    ensures data[3] == (if d.serverVersion.patch > 255 then 255 else d.serverVersion.patch)
    ensures Big32(data[12], data[13], data[14], data[15]) == d.userCount
    ensures Big32(data[16], data[17], data[18], data[19]) == d.maxUserCount
    ensures Big32(data[20], data[21], data[22], data[23]) == d.maxBandwidthPerUser
  {
    NumberOfBytes(d.userCount);
    NumberOfBytes(d.maxUserCount);
    NumberOfBytes(d.maxBandwidthPerUser);
  }

  /** The timestamp of an extended ping, low byte first, at places 4 to 11 in both directions. */
  lemma TimestampLayout(role: Role, d: PingData, data: seq<byte>)
    requires (d.requestAdditionalInformation || d.containsAdditionalInformation) && data == EncodedPing(role, d)
    ensures |data| == if role.Server? && d.containsAdditionalInformation then 24 else 12
    ensures |data| == 12 ==> data[..4] == [0, 0, 0, 0]
    ensures Big32(data[7], data[6], data[5], data[4]) == d.timestamp % 0x1_0000_0000
    ensures Big32(data[11], data[10], data[9], data[8]) == d.timestamp / 0x1_0000_0000
  {
    NumberOfBytes(d.timestamp % 0x1_0000_0000);
    NumberOfBytes(d.timestamp / 0x1_0000_0000);
    assert data[4..12] == Host64(d.timestamp);
    assert forall k :: 0 <= k < 8 ==> data[4 + k] == data[4..12][k];
  }

  lemma PlainPingLayout(role: Role, d: PingData)
    requires !d.requestAdditionalInformation && !d.containsAdditionalInformation
    ensures EncodedPing(role, d) == [0x20] + Encode(d.timestamp)
    ensures d.timestamp < 0x80 ==> EncodedPing(role, d) == [0x20, d.timestamp]
  {
  }

  // ----- Audio packets

  function Header(codec: Codec, target: u32): byte
    requires target < 32
  {
    match codec
    case CeltAlpha => target
    case Speex => 0x40 + target
    case CeltBeta => 0x60 + target
    case Opus => 0x80 + target
  }

  /** The header, the session if a server sends it, the frame number, for Opus the size with a mark on the
      last packet, and the payload. */
  function WithoutPosition(role: Role, d: AudioData): seq<byte>
    requires PayloadOk(d) && d.targetOrContext < 32
  {
    [Header(d.codec, d.targetOrContext)]
    + (if role.Server? then Encode(d.senderSession) else [])
    + Encode(SentFrame(d.frameNumber))
    + (if d.codec.Opus? then Encode(|d.payload| + if d.isLastFrame then 0x2000 else 0) else [])
    + d.payload
  }

  lemma Regroup(a: seq<byte>, b: seq<byte>, c: seq<byte>, d: seq<byte>, e: seq<byte>)
    ensures a + b + c + d + e == a + ((b + c) + (d + e))
  {
  }

  lemma StaticLayout(role: Role, d: AudioData)
    requires PayloadOk(d) && d.targetOrContext < 32
    ensures WithoutPosition(role, d) == [CodecBits(d.codec) + d.targetOrContext] + StaticPart(role, d)
  {
    Regroup([Header(d.codec, d.targetOrContext)], if role.Server? then Encode(d.senderSession) else [],
            Encode(SentFrame(d.frameNumber)),
            if d.codec.Opus? then Encode(|d.payload| + if d.isLastFrame then 0x2000 else 0) else [], d.payload);
  }

  /** An encoded audio packet: at most 1024 bytes, with the position if it is wanted and fits. */
  lemma AudioLayout(role: Role, d: AudioData, packet: seq<byte>)
    requires PayloadOk(d) && d.targetOrContext < 32 && packet == WithoutPosition(role, d)
    ensures EncodedAudio(role, d) ==
            if |packet| <= 1024 then packet + (if d.containsPositionalData && |packet| + 12 <= 1024 then d.position else [])
            else if d.containsPositionalData then [d.position[0] - d.position[0] % 32 + d.targetOrContext] + d.position[1..]
            else []
  {
    StaticLayout(role, d);
  }

  lemma NoTarget(role: Role, d: AudioData)
    requires PayloadOk(d) && d.targetOrContext >= 32
    ensures EncodedAudio(role, d) == []
  {
  }

  lemma SmallBytes(role: Role, d: AudioData)
    requires d.codec.Opus? && d.targetOrContext < 32 && |d.payload| < 0x80
    requires d.senderSession < 0x80 && d.frameNumber < 0x80 && !d.isLastFrame
    ensures WithoutPosition(role, d) ==
            [0x80 + d.targetOrContext] + (if role.Server? then [d.senderSession] else []) + [d.frameNumber]
            + [|d.payload|] + d.payload
  {
    FrameSurvives(d.frameNumber);
    SmallNumber(d.frameNumber);
    SmallNumber(d.senderSession);
    SmallNumber(|d.payload|);
  }

  /** With small numbers every field of an Opus packet is one byte. */
  lemma SmallOpusLayout(role: Role, d: AudioData)
    requires d.codec.Opus? && d.targetOrContext < 32 && |d.payload| < 0x80
    requires d.senderSession < 0x80 && d.frameNumber < 0x80 && !d.isLastFrame && !d.containsPositionalData
    ensures EncodedAudio(role, d) ==
            [0x80 + d.targetOrContext] + (if role.Server? then [d.senderSession] else []) + [d.frameNumber]
            + [|d.payload|] + d.payload
  {
    SmallBytes(role, d);
    AudioLayout(role, d, WithoutPosition(role, d));
  }

  // ----- Packets no encoder emits

  /** After the payload of an Opus packet only nothing or the twelve bytes of a position may follow. */
  lemma OpusTail(role: Role, d: AudioData, header: byte, tail: seq<byte>)
    requires PayloadOk(d) && d.codec.Opus? && |StaticPart(role, d) + tail| < 0x1_0000_0000
    ensures DecodeAudio(Peer(role), [header] + StaticPart(role, d) + tail, Opus).Some? <==> |tail| == 0 || |tail| == 12
  {
    var data := [header] + StaticPart(role, d) + tail;
    var s0 := Fresh(data[1..]);
    StaticSplits(role, d, header, tail);
    FrontReadsBack(role, d, s0, Body(d) + tail);
    PayloadReadsBack(Skipped(s0, |Front(role, d)|), d, tail);
    Assembled(Peer(role), data, ReadFront(Peer(role), s0), PayloadOf(Skipped(s0, |Front(role, d)|), Opus), d.payload);
  }

  lemma SizeTooLarge(s: Stream, size: u64, rest: seq<byte>)
    requires s.Valid() && Holds(s, Encode(size), rest) && |rest| < size % 0x2000
    ensures !PayloadOf(s, Opus).0.ok
  {
    IntegerReadsBack(s, size, rest);
    HoldsNext(s, Encode(size), rest);
  }

  /** An Opus packet whose size field promises more than what follows is refused. */
  lemma OpusCutShort(role: Role, d: AudioData, header: byte, size: u64, rest: seq<byte>, data: seq<byte>)
    requires data == [header] + (Front(role, d) + (Encode(size) + rest)) && |data| < 0x1_0000_0000
    requires |rest| < size % 0x2000
    ensures DecodeAudio(Peer(role), data, Opus) == None
  {
    var s0 := Fresh(data[1..]);
    FrontReadsBack(role, d, s0, Encode(size) + rest);
    SizeTooLarge(Skipped(s0, |Front(role, d)|), size, rest);
  }

  lemma TwoNumbers(s: Stream, m: u64, n: u64, rest: seq<byte>)
    requires Holds(s, Encode(m) + Encode(n), rest)
    ensures ReadU64(s) == (Skipped(s, |Encode(m)|), m)
    ensures ReadU64(ReadU64(s).0) == (Skipped(s, |Encode(m) + Encode(n)|), n)
  {
    HoldsBoth(s, Encode(m), Encode(n), rest);
    IntegerReadsBack(s, m, Encode(n) + rest);
    IntegerReadsBack(Skipped(s, |Encode(m)|), n, rest);
  }

  lemma AnyFront(role: Role, session: u64, frame: u64, front: seq<byte>, s: Stream, rest: seq<byte>)
    requires front == (if role.Client? then Encode(session) + Encode(frame) else Encode(frame)) && Holds(s, front, rest)
    ensures ReadFront(role, s) == (Skipped(s, |front|), if role.Client? then session % 0x1_0000_0000 else 0, frame)
    ensures Skipped(s, |front|).Valid() && Skipped(s, |front|).Rest() == rest
  {
    HoldsNext(s, front, rest);
    if role.Client? {
      TwoNumbers(s, session, frame, rest);
    } else {
      IntegerReadsBack(s, frame, rest);
    }
  }

  lemma AnyBody(field: u64, payload: seq<byte>, tail: seq<byte>, s: Stream)
    requires s.ok && Holds(s, Encode(field) + payload, tail) && |payload| == field % 0x2000
    ensures var (s1, last, size) := PayloadOf(s, Opus); var begin := ReadU64(s).0.offset;
            && s1.ok && s1.Rest() == tail && last == (field / 0x2000 % 2 == 1)
            && begin + size <= |s.data| && s.data[begin..begin + size] == payload
  {
    var head := Encode(field);
    HoldsBoth(s, head, payload, tail);
    IntegerReadsBack(s, field, payload + tail);
    HoldsNext(Skipped(s, |head|), payload, tail);
    assert |Skipped(s, |head|).Rest()| == |payload + tail|;
  }

  /** Behind a payload only nothing or the twelve bytes of a position may stand. */
  lemma BehindThePayload(a: AudioData, tail: seq<byte>)
    ensures tail == [] ==> WithPosition(a, tail) == Some(a)
    ensures |tail| == 12 ==> WithPosition(a, tail) == Some(a.(containsPositionalData := true, position := tail))
    ensures |tail| != 0 && |tail| != 12 ==> WithPosition(a, tail) == None
  {
  }

  lemma AfterTheHeader(header: byte, front: seq<byte>, rest: seq<byte>, data: seq<byte>)
    requires data == [header] + (front + rest) && |data| < 0x1_0000_0000
    ensures Holds(Fresh(data[1..]), front, rest)
  {
  }

  /** The session, the frame number and the size field may be any numbers: of the session the low 32 bits
      count, of the size field the low 13 and the one above them. */
  lemma AnyOpusPacket(role: Role, header: byte, session: u64, frame: u64, field: u64, payload: seq<byte>, tail: seq<byte>,
                      front: seq<byte>, body: seq<byte>, data: seq<byte>)
    requires front == if role.Client? then Encode(session) + Encode(frame) else Encode(frame)
    requires body == Encode(field) + payload && |payload| == field % 0x2000
    requires data == [header] + (front + (body + tail)) && |data| < 0x1_0000_0000
    ensures DecodeAudio(role, data, Opus) ==
            WithPosition(AudioData(header % 32, Opus, if role.Client? then session % 0x1_0000_0000 else 0, frame,
                                   payload, field / 0x2000 % 2 == 1, false, Zeros(12)), tail)
  {
    var s0 := Fresh(data[1..]);
    AfterTheHeader(header, front, body + tail, data);
    AnyFront(role, session, frame, front, s0, body + tail);
    AnyBody(field, payload, tail, Skipped(s0, |front|));
    Assembled(role, data, ReadFront(role, s0), PayloadOf(Skipped(s0, |front|), Opus), payload);
  }

  /** The frames of the older codecs: a byte below 128 is the length of the last one, a larger byte exceeds
      the length by 128 and promises another. */
  lemma LastOldFrame(frame: seq<byte>, more: seq<byte>)
    requires |frame| < 128
    ensures Chain([|frame|] + frame + more) == Some((1 + |frame|, 1))
    ensures |frame| > 0 ==> Chain([|frame|] + frame[1..]) == None
  {
  }

  lemma NextOldFrame(frame: seq<byte>, more: seq<byte>)
    requires |frame| < 128
    ensures var data := [0x80 + |frame|] + frame + more;
            match Chain(more)
            case None => Chain(data) == None
            case Some(c) => Chain(data) == Some((1 + |frame| + c.0, 1 + c.1))
  {
    var data := [0x80 + |frame|] + frame + more;
    assert data[0] % 128 == |frame| && data[1 + |frame|..] == more;
  }
}
