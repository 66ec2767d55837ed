/** The legacy UDP packets (src/MumbleProtocol.cpp, the branches for protocol versions before the
    protobuf format) as byte sequences: what the encoders emit, what the decoder makes of any bytes,
    and when the second undoes the first. */
module LegacyPackets {
  import opened Buffers
  import opened Bytes
  import opened Varint
  import opened StreamValues
  import opened Wrappers

  const MAX_UDP_PACKET_SIZE: nat := 1024

  /** The header byte of a ping in the newer format. */
  const NEW_PING: byte := 1

  datatype Role = Server | Client

  datatype Codec = Opus | CeltAlpha | CeltBeta | Speex

  /** Three floats of four bytes each. */
  type Position = p: seq<byte> | |p| == 12 witness Zeros(12)

  datatype AudioData = AudioData(
    targetOrContext: u32,
    codec: Codec,
    senderSession: u32,
    frameNumber: u64,
    payload: seq<byte>,
    isLastFrame: bool,
    containsPositionalData: bool,
    position: Position)

  /** The encoder asserts the bound for Opus; the others are only held to the cast of their size. */
  predicate PayloadOk(d: AudioData) {
    if d.codec.Opus? then |d.payload| < 0x2000 else |d.payload| < 0x1_0000_0000
  }

  function CodecBits(c: Codec): byte {
    match c
    case CeltAlpha => 0
    case Speex => 0x40
    case CeltBeta => 0x60
    case Opus => 0x80
  }

  // ----- Encoding audio

  /** The frame number as it is sent: cast to int and sign-extended. */
  function SentFrame(frameNumber: u64): u64 {
    ToU64(ToInt32(frameNumber % 0x1_0000_0000))
  }

  /** The size field of an Opus payload; the 14th bit marks the last frame. */
  function SizeField(d: AudioData): u64
    requires PayloadOk(d) && d.codec.Opus?
  {
    if d.isLastFrame then |d.payload| + 0x2000 else |d.payload|
  }

  /** The session, which only a server sends, and the frame number. */
  function Front(role: Role, d: AudioData): seq<byte> {
    (if role.Server? then Encode(d.senderSession) else []) + Encode(SentFrame(d.frameNumber))
  }

  function Body(d: AudioData): seq<byte>
    requires PayloadOk(d)
  {
    (if d.codec.Opus? then Encode(SizeField(d)) else []) + d.payload
  }

  /** Everything between the header byte and the positional data. */
  function StaticPart(role: Role, d: AudioData): seq<byte>
    requires PayloadOk(d)
  {
    Front(role, d) + Body(d)
  }

  /** The static part and header fit a packet. */
  predicate StaticFits(role: Role, d: AudioData)
    requires PayloadOk(d)
  {
    1 + |StaticPart(role, d)| <= MAX_UDP_PACKET_SIZE
  }

  predicate PositionFits(role: Role, d: AudioData)
    requires PayloadOk(d)
  {
    1 + |StaticPart(role, d)| + 12 <= MAX_UDP_PACKET_SIZE
  }

  /** The positional data that goes with the packet: none if there is no room for it. */
  function SentPosition(role: Role, d: AudioData): (p: seq<byte>)
    requires PayloadOk(d)
    ensures |p| == 0 || |p| == 12
  {
    if d.containsPositionalData && PositionFits(role, d) then d.position else []
  }

  /** The packet of a static part that fits, with positional data if there is room for it. */
  function Packet(role: Role, d: AudioData): seq<byte>
    requires PayloadOk(d) && d.targetOrContext < 32
  {
    [CodecBits(d.codec) + d.targetOrContext] + StaticPart(role, d) + SentPosition(role, d)
  }

  /** What encodeAudioPacket returns for any input.  A packet whose static part does not fit is empty
      only without positional data; otherwise it is the positional data alone, with the target written
      over the low bits of the first byte. */
  function EncodedAudio(role: Role, d: AudioData): seq<byte>
    requires PayloadOk(d)
  {
    if d.targetOrContext >= 32 then []
    else if StaticFits(role, d) then Packet(role, d)
    else if d.containsPositionalData then [d.position[0] / 32 * 32 + d.targetOrContext] + d.position[1..]
    else []
  }

  // ----- Pings

  /** A version without the unused field. */
  datatype Version = Version(major: u16, minor: u16, patch: u16)

  datatype PingData = PingData(
    timestamp: u64,
    requestAdditionalInformation: bool,
    containsAdditionalInformation: bool,
    serverVersion: Version,
    userCount: u32,
    maxUserCount: u32,
    maxBandwidthPerUser: u32)

  const UNKNOWN_VERSION: Version := Version(0, 0, 0)
  const NO_PING: PingData := PingData(0, false, false, UNKNOWN_VERSION, 0, 0, 0)

  function AtMostByte(n: u16): byte {
    if n < 0x100 then n else 0xFF
  }

  function ToLegacyVersion(v: Version): seq<byte> {
    BigEndian16(v.major) + [AtMostByte(v.minor), AtMostByte(v.patch)]
  }

  function FromLegacyVersion(bs: seq<byte>): Version
    requires |bs| == 4
  {
    Version(FromBigEndian16(bs[..2]), bs[2], bs[3])
  }

  function Host32(n: u32): (bs: seq<byte>)
    ensures |bs| == 4
  {
    [n % 0x100, n / 0x100 % 0x100, n / 0x1_0000 % 0x100, n / 0x100_0000]
  }

  /** A 64-bit number as it lies in the memory of a little-endian machine. */
  function Host64(n: u64): (bs: seq<byte>)
    ensures |bs| == 8
  {
    Host32(n % 0x1_0000_0000) + Host32(n / 0x1_0000_0000)
  }

  function FromHost64(bs: seq<byte>): u64
    requires |bs| == 8
  {
    Join(Number(bs[7], bs[6], bs[5], bs[4]), Number(bs[3], bs[2], bs[1], bs[0]))
  }

  function EncodedPing(role: Role, d: PingData): seq<byte> {
    if d.requestAdditionalInformation || d.containsAdditionalInformation then
      if d.containsAdditionalInformation && role.Server? then
        ToLegacyVersion(d.serverVersion) + Host64(d.timestamp)
        + BigEndian32(d.userCount) + BigEndian32(d.maxUserCount) + BigEndian32(d.maxBandwidthPerUser)
      else Zeros(4) + Host64(d.timestamp)
    else [0x20] + Encode(d.timestamp)
  }

  // ----- Decoding

  datatype Message = PingMessage(ping: PingData) | AudioMessage(audio: AudioData) | NewFormatPing(bytes: seq<byte>)

  function AsPing(p: Option<PingData>): Option<Message> {
    if p.Some? then Some(PingMessage(p.value)) else None
  }

  function AsAudio(a: Option<AudioData>): Option<Message> {
    if a.Some? then Some(AudioMessage(a.value)) else None
  }

  function DecodePing(role: Role, data: seq<byte>): Option<PingData> {
    if data == [] then None
    else if |data| <= 9 then Some(NO_PING.(timestamp := Decode(data).value))
    else if role.Client? then
      if |data| == 24 then
        Some(NO_PING.(serverVersion := FromLegacyVersion(data[0..4]), timestamp := FromHost64(data[4..12]),
                      userCount := FromBigEndian32(data[12..16]), maxUserCount := FromBigEndian32(data[16..20]),
                      maxBandwidthPerUser := FromBigEndian32(data[20..24])))
      else None
    else if |data| == 12 && data[0..4] == [0, 0, 0, 0] then
      Some(NO_PING.(timestamp := FromHost64(data[4..12]), requestAdditionalInformation := true))
    else None
  }

  /** One frame of the codecs before Opus: a byte with the length of the frame and a flag for more, then
      the frame.  Gives the stream after it, its length, and whether another one follows. */
  function OldFrame(s: Stream): (r: (Stream, nat, bool))
    requires s.Valid()
    ensures r.0.Valid() && r.0.data == s.data && r.0.offset >= s.offset
    ensures r.0.ok ==> s.ok && r.0.offset == s.offset + 1 + r.1
    ensures r.2 ==> r.0.ok
  {
    var header := At(s.Rest(), 0);
    var s1 := Advance(s, 1);
    var size := header % 128;
    var s2 := if size <= s1.Left() then Advance(s1, size) else s1.(ok := false);
    (s2, size, header >= 128 && s2.ok)
  }

  /** All the frames of a packet.  Gives the stream after them, the payload size the source adds up,
      which leaves out the length bytes, and whether an empty frame ended the transmission. */
  function OldFrames(s: Stream): (r: (Stream, nat, bool))
    requires s.Valid()
    ensures r.0.Valid() && r.0.data == s.data && r.0.offset >= s.offset
    ensures r.0.ok ==> s.ok && r.0.offset >= s.offset + 1 + r.1
    decreases s.Left()
  {
    var (s2, size, more) := OldFrame(s);
    if more then
      var (s3, rest, last) := OldFrames(s2);
      (s3, size + rest, last || size == 0)
    else (s2, size, size == 0)
  }

  /** The session, which only a client receives, and the frame number. */
  function ReadFront(role: Role, s: Stream): (r: (Stream, u32, u64))
    requires s.Valid()
    ensures r.0.Valid() && r.0.data == s.data
  {
    var (s1, session) := if role.Client? then ReadU64(s) else (s, 0);
    var (s2, frame) := ReadU64(s1);
    (s2, session % 0x1_0000_0000, frame)
  }

  /** Twelve bytes after the payload are a position; anything else but nothing is an error. */
  function WithPosition(d: AudioData, rest: seq<byte>): Option<AudioData> {
    if |rest| == 12 then Some(d.(containsPositionalData := true, position := rest))
    else if rest != [] then None
    else Some(d)
  }

  /** The stream after the payload, the terminator flag and the payload's size. */
  function PayloadOf(s: Stream, codec: Codec): (r: (Stream, bool, nat))
    requires s.Valid()
    ensures r.0.Valid() && r.0.data == s.data
    ensures codec.Opus? && r.0.ok ==> ReadU64(s).0.offset + r.2 == r.0.offset
    ensures !codec.Opus? && r.0.ok ==> s.offset + 1 + r.2 <= r.0.offset
  {
    if codec.Opus? then
      var (s1, field) := ReadU64(s);
      var size := field % 0x2000;
      (if size <= s1.Left() then Advance(s1, size) else s1.(ok := false), field / 0x2000 % 2 == 1, size)
    else
      var (s1, size, last) := OldFrames(s);
      (s1, last, size)
  }

  /** The rest of the decoder, once the session and frame number are read. */
  function AudioFrom(header: byte, codec: Codec, session: u32, frame: u64, s: Stream): Option<AudioData>
    requires s.Valid()
  {
    var (s3, last, size) := PayloadOf(s, codec);
    if !s3.ok then None
    else
      var begin := if codec.Opus? then ReadU64(s).0.offset else s.offset;
      WithPosition(AudioData(header % 32, codec, session, frame, s3.data[begin..begin + size], last, false, Zeros(12)),
                   s3.Rest())
  }

  function DecodeAudio(role: Role, data: seq<byte>, codec: Codec): Option<AudioData> {
    if |data| < 3 || |data| > 0x1_0000_0000 then None
    else
      var (s2, session, frame) := ReadFront(role, Fresh(data[1..]));
      AudioFrom(data[0], codec, session, frame, s2)
  }

  /** The whole decoder for a legacy protocol version.  A ping in the newer format is recognised by its
      header and handed to the newer decoder. */
  function DecodePacket(role: Role, data: seq<byte>, restrictToPing: bool): Option<Message> {
    if |data| <= 1 then None
    else if data[0] == NEW_PING then Some(NewFormatPing(data[1..]))
    else if (|data| == 12 || |data| == 24) && DecodePing(role, data).Some? then
      Some(PingMessage(DecodePing(role, data).value))
    else if restrictToPing then None
    else
      var kind := data[0] / 32;
      if kind == 1 then AsPing(DecodePing(role, data[1..]))
      else if kind == 0 then AsAudio(DecodeAudio(role, data, CeltAlpha))
      else if kind == 3 then AsAudio(DecodeAudio(role, data, CeltBeta))
      else if kind == 2 then AsAudio(DecodeAudio(role, data, Speex))
      else if kind == 4 then AsAudio(DecodeAudio(role, data, Opus))
      else None
  }

  // ----- Audio round trip

  function Peer(role: Role): Role {
    if role.Server? then Client else Server
  }

  function Received(target: u32, role: Role, d: AudioData, p: seq<byte>): AudioData
    requires |p| == 0 || |p| == 12
  {
    AudioData(target, d.codec, if role.Server? then d.senderSession else 0, SentFrame(d.frameNumber),
              d.payload, d.isLastFrame, p != [], if p != [] then p else Zeros(12))
  }

  /** What arrives of a sent packet: the session only on the way to a client, the frame number as
      sent, positional data only if it fitted. */
  function Arrives(role: Role, d: AudioData): AudioData
    requires PayloadOk(d)
  {
    Received(d.targetOrContext, role, d, SentPosition(role, d))
  }

  lemma AfterHeader(header: byte, a: seq<byte>, b: seq<byte>, c: seq<byte>)
    ensures ([header] + (a + b) + c)[1..] == a + (b + c)
  {
  }

  lemma StaticSplits(role: Role, d: AudioData, header: byte, p: seq<byte>)
    requires PayloadOk(d) && d.codec.Opus?
    ensures var data := [header] + StaticPart(role, d) + p;
            && |data| >= 3
            && data[1..] == Front(role, d) + (Body(d) + p)
  {
    AfterHeader(header, Front(role, d), Body(d), p);
  }

  /** How the parts of an accepted Opus packet make up the result. */
  lemma Assembled(role: Role, data: seq<byte>, front: (Stream, u32, u64), body: (Stream, bool, nat), payload: seq<byte>)
    requires 3 <= |data| <= 0x1_0000_0000
    requires front == ReadFront(role, Fresh(data[1..])) && body == PayloadOf(front.0, Opus) && body.0.ok
    requires var begin := ReadU64(front.0).0.offset; body.0.data[begin..begin + body.2] == payload
    ensures DecodeAudio(role, data, Opus) ==
            WithPosition(AudioData(data[0] % 32, Opus, front.1, front.2, payload, body.1, false, Zeros(12)), body.0.Rest())
  {
  }

  lemma FrontReadsBack(role: Role, d: AudioData, s: Stream, rest: seq<byte>)
    requires Holds(s, Front(role, d), rest)
    ensures ReadFront(Peer(role), s) ==
            (Skipped(s, |Front(role, d)|), if role.Server? then d.senderSession else 0, SentFrame(d.frameNumber))
    ensures Skipped(s, |Front(role, d)|).Valid() && Skipped(s, |Front(role, d)|).Rest() == rest
  {
    HoldsNext(s, Front(role, d), rest);
    var session, frame := if role.Server? then Encode(d.senderSession) else [], Encode(SentFrame(d.frameNumber));
    HoldsBoth(s, session, frame, rest);
    if role.Server? {
      IntegerReadsBack(s, d.senderSession, frame + rest);
    }
    IntegerReadsBack(Skipped(s, |session|), SentFrame(d.frameNumber), rest);
  }

  lemma PayloadReadsBack(s: Stream, d: AudioData, tail: seq<byte>)
    requires PayloadOk(d) && d.codec.Opus? && s.ok && Holds(s, Body(d), tail)
    ensures var (s1, last, size) := PayloadOf(s, Opus); var begin := ReadU64(s).0.offset;
            && s1.ok && s1.Rest() == tail && last == d.isLastFrame
            && begin + size <= |s.data| && s.data[begin..begin + size] == d.payload
  {
    var head := Encode(SizeField(d));
    HoldsBoth(s, head, d.payload, tail);
    IntegerReadsBack(s, SizeField(d), d.payload + tail);
    HoldsNext(Skipped(s, |head|), d.payload, tail);
    assert SizeField(d) % 0x2000 == |d.payload|;
    assert SizeField(d) / 0x2000 % 2 == 1 <==> d.isLastFrame;
    assert |Skipped(s, |head|).Rest()| == |d.payload + tail|;
  }

  /** The body of an Opus packet is read back as it was put together. */
  lemma OpusBody(role: Role, d: AudioData, header: byte, p: seq<byte>)
    requires PayloadOk(d) && d.codec.Opus?
    requires |p| == 0 || |p| == 12
    requires |StaticPart(role, d) + p| < 0x1_0000_0000
    ensures DecodeAudio(Peer(role), [header] + StaticPart(role, d) + p, Opus) ==
            Some(Received(header % 32, role, d, p))
  {
    var data := [header] + StaticPart(role, d) + p;
    var s0 := Fresh(data[1..]);
    StaticSplits(role, d, header, p);
    FrontReadsBack(role, d, s0, Body(d) + p);
    PayloadReadsBack(Skipped(s0, |Front(role, d)|), d, p);
    Assembled(Peer(role), data, ReadFront(Peer(role), s0), PayloadOf(Skipped(s0, |Front(role, d)|), Opus), d.payload);
  }

  lemma PacketShape(role: Role, d: AudioData)
    requires PayloadOk(d) && d.codec.Opus? && d.targetOrContext < 32 && StaticFits(role, d)
    ensures Packet(role, d) == [0x80 + d.targetOrContext] + StaticPart(role, d) + SentPosition(role, d)
    ensures |Packet(role, d)| >= 3 && Packet(role, d)[0] == 0x80 + d.targetOrContext
    ensures (0x80 + d.targetOrContext) % 32 == d.targetOrContext && (0x80 + d.targetOrContext) / 32 == 4
  {
  }

  /** The test for extended pings misfires on an Opus packet only at a client and at 24 bytes. */
  lemma OpusIsNoPing(role: Role, data: seq<byte>)
    requires |data| >= 3 && data[0] / 32 == 4
    ensures (|data| == 12 || |data| == 24) && DecodePing(Peer(role), data).Some? <==> role.Server? && |data| == 24
    ensures DecodePacket(Peer(role), data, false) ==
            if role.Server? && |data| == 24 then Some(PingMessage(DecodePing(Client, data).value))
            else AsAudio(DecodeAudio(Peer(role), data, Opus))
  {
    if role.Client? && |data| == 12 {
      assert data[0..4][0] == data[0];
    }
  }

  lemma OpusDispatch(role: Role, data: seq<byte>, a: AudioData)
    requires |data| >= 3 && data[0] / 32 == 4 && DecodeAudio(Peer(role), data, Opus) == Some(a)
    ensures DecodePacket(Peer(role), data, false) == Some(AudioMessage(a)) <==> !(role.Server? && |data| == 24)
    ensures role.Server? && |data| == 24 ==> DecodePacket(Peer(role), data, false).value.PingMessage?
  {
    OpusIsNoPing(role, data);
  }

  /** An encoded Opus packet is decoded by the other side exactly as it arrives, unless it goes to a
      client and is 24 bytes long; then it is taken for an extended ping. */
  lemma OpusRoundTrip(role: Role, d: AudioData)
    requires PayloadOk(d) && d.codec.Opus? && d.targetOrContext < 32 && StaticFits(role, d)
    ensures EncodedAudio(role, d) == Packet(role, d)
    ensures DecodePacket(Peer(role), Packet(role, d), false) == Some(AudioMessage(Arrives(role, d)))
            <==> !(role.Server? && |Packet(role, d)| == 24)
    ensures role.Server? && |Packet(role, d)| == 24 ==>
              DecodePacket(Peer(role), Packet(role, d), false).value.PingMessage?
  {
    PacketShape(role, d);
    OpusBody(role, d, 0x80 + d.targetOrContext, SentPosition(role, d));
    OpusDispatch(role, Packet(role, d), Arrives(role, d));
  }

  /** Such a packet: twenty zero bytes of payload, from session 0, as frame 0. */
  lemma TwentyFourBytesExample()
    ensures var d := AudioData(0, Opus, 0, 0, Zeros(20), false, false, Zeros(12));
            && StaticFits(Server, d) && |Packet(Server, d)| == 24
            && DecodePacket(Client, Packet(Server, d), false).Some?
            && DecodePacket(Client, Packet(Server, d), false).value.PingMessage?
  {
    var d := AudioData(0, Opus, 0, 0, Zeros(20), false, false, Zeros(12));
    assert Encode(0) == [0] && Encode(20) == [20];
    assert SentFrame(0) == 0 && SizeField(d) == 20;
    assert |Front(Server, d)| == 2 && |Body(d)| == 21;
    OpusRoundTrip(Server, d);
    PacketShape(Server, d);
    OpusIsNoPing(Server, Packet(Server, d));
  }

  lemma FrameSurvives(f: u64)
    ensures SentFrame(f) == f <==> f < 0x8000_0000 || f >= 0xFFFF_FFFF_8000_0000
  {
    var low := f % 0x1_0000_0000;
    if low >= 0x8000_0000 {
      assert SentFrame(f) == low - 0x1_0000_0000 + 0x1_0000_0000_0000_0000;
    } else {
      assert SentFrame(f) == low;
    }
  }

  /** Any other frame number keeps its low 32 bits, and the high ones all equal the highest of these. */
  lemma SentFrameBits(f: u64)
    ensures SentFrame(f) % 0x1_0000_0000 == f % 0x1_0000_0000
    ensures f % 0x1_0000_0000 < 0x8000_0000 ==> SentFrame(f) < 0x8000_0000
    ensures f % 0x1_0000_0000 >= 0x8000_0000 ==> SentFrame(f) >= 0xFFFF_FFFF_8000_0000
  {
    var low := f % 0x1_0000_0000;
    if low >= 0x8000_0000 {
      assert SentFrame(f) == low - 0x1_0000_0000 + 0x1_0000_0000_0000_0000;
    } else {
      assert SentFrame(f) == low;
    }
  }

  /** What arrives is what was sent, in every field a legacy packet carries, exactly when the positional
      data found room and the frame number survives the cast to int. */
  lemma ArrivesUnchanged(role: Role, d: AudioData)
    requires PayloadOk(d)
    ensures Arrives(role, d) == d.(senderSession := Arrives(role, d).senderSession, position := Arrives(role, d).position)
            <==> && (d.containsPositionalData ==> PositionFits(role, d))
                 && (d.frameNumber < 0x8000_0000 || d.frameNumber >= 0xFFFF_FFFF_8000_0000)
    ensures role.Server? ==> Arrives(role, d).senderSession == d.senderSession
    ensures Arrives(role, d).containsPositionalData ==> Arrives(role, d).position == d.position
  {
    FrameSurvives(d.frameNumber);
  }

  // ----- Older codecs

  /** The frame chain at the front of `bs`, as the older codecs lay it out: its length in bytes and its
      number of frames, if it is complete. */
  function Chain(bs: seq<byte>): (c: Option<(nat, nat)>)
    ensures c.Some? ==> c.value.1 >= 1 && c.value.0 >= c.value.1 && c.value.0 <= |bs|
    decreases |bs|
  {
    if bs == [] || |bs| < 1 + bs[0] % 128 then None
    else if bs[0] < 128 then Some((1 + bs[0] % 128, 1))
    else
      var rest := Chain(bs[1 + bs[0] % 128..]);
      if rest.None? then None else Some((1 + bs[0] % 128 + rest.value.0, 1 + rest.value.1))
  }

  lemma {:induction false} OneOldFrame(s: Stream)
    requires s.Valid() && s.ok && s.Rest() != []
    ensures var bs := s.Rest(); var n := 1 + bs[0] % 128;
            n <= |bs| ==>
              && Skipped(s, n).Valid() && Skipped(s, n).Rest() == bs[n..]
              && OldFrame(s) == (Skipped(s, n), n - 1, bs[0] >= 128)
  {
    var bs := s.Rest();
    var size := bs[0] % 128;
    if 1 + size <= |bs| {
      assert Skipped(s, 1 + size) == Advance(Advance(s, 1), size);
      assert s.data[s.offset..][1 + size..] == s.data[s.offset + 1 + size..];
    }
  }

  /** The decoder accepts exactly the complete chains, and the size it adds up is short by one byte for
      every frame. */
  lemma {:induction false} OldFramesIsChain(s: Stream)
    requires s.Valid() && s.ok
    ensures OldFrames(s).0.ok <==> Chain(s.Rest()).Some?
    ensures Chain(s.Rest()).Some? ==>
              var (length, frames) := Chain(s.Rest()).value;
              OldFrames(s).0 == Skipped(s, length) && OldFrames(s).1 == length - frames
    decreases s.Left()
  {
    var bs := s.Rest();
    if bs != [] && 1 + bs[0] % 128 <= |bs| {
      OneOldFrame(s);
      if bs[0] >= 128 {
        OldFramesIsChain(Skipped(s, 1 + bs[0] % 128));
      }
    }
  }

  lemma {:induction false} OldPayload(header: byte, codec: Codec, session: u32, frame: u64, s: Stream)
    requires s.Valid() && !codec.Opus? && AudioFrom(header, codec, session, frame, s).Some?
    ensures Chain(s.Rest()).Some?
    ensures var (length, frames) := Chain(s.Rest()).value;
            AudioFrom(header, codec, session, frame, s).value.payload == s.Rest()[..length - frames]
  {
    OldFramesIsChain(s);
    var (length, frames) := Chain(s.Rest()).value;
    SliceOfSlice(s.data, s.offset, |s.data|, 0, length - frames);
  }

  /** So a packet of an older codec never comes back whole: when it is accepted, the payload handed on
      has lost as many bytes at its end as it has frames. */
  lemma OldCodecLosesBytes(role: Role, data: seq<byte>, codec: Codec)
    requires !codec.Opus? && DecodeAudio(role, data, codec).Some?
    ensures var s := ReadFront(role, Fresh(data[1..])).0;
            && Chain(s.Rest()).Some?
            && var (length, frames) := Chain(s.Rest()).value;
               && DecodeAudio(role, data, codec).value.payload == s.Rest()[..length - frames]
               && frames >= 1
  {
    var (s, session, frame) := ReadFront(role, Fresh(data[1..]));
    OldPayload(data[0], codec, session, frame, s);
  }

  /** A frame without content, which ends the transmission. */
  predicate HasEmptyFrame(bs: seq<byte>)
    decreases |bs|
  {
    bs != [] && (bs[0] % 128 == 0 || (bs[0] >= 128 && 1 + bs[0] % 128 <= |bs| && HasEmptyFrame(bs[1 + bs[0] % 128..])))
  }

  lemma {:induction false} OldFramesEnd(s: Stream)
    requires s.Valid() && s.ok && Chain(s.Rest()).Some?
    ensures OldFrames(s).2 == HasEmptyFrame(s.Rest())
    decreases s.Left()
  {
    OneOldFrame(s);
    if s.Rest()[0] >= 128 {
      OldFramesEnd(Skipped(s, 1 + s.Rest()[0] % 128));
    }
  }

  /** What follows a complete chain does not belong to it. */
  lemma {:induction false} ChainThenMore(bs: seq<byte>, more: seq<byte>)
    requires Chain(bs).Some? && Chain(bs).value.0 == |bs|
    ensures Chain(bs + more) == Chain(bs) && HasEmptyFrame(bs + more) == HasEmptyFrame(bs)
    decreases |bs|
  {
    var n := 1 + bs[0] % 128;
    assert (bs + more)[n..] == bs[n..] + more;
    if bs[0] >= 128 {
      ChainThenMore(bs[n..], more);
    }
  }

  /** Which packets of an older codec the other side takes for an extended ping: all of 24 bytes that go
      to a client, and those of 12 bytes that go to a server and begin with four zeros. */
  predicate TakenForPing(role: Role, data: seq<byte>) {
    if role.Server? then |data| == 24 else |data| == 12 && data[0..4] == [0, 0, 0, 0]
  }

  lemma ExtendedPings(role: Role, data: seq<byte>)
    ensures (|data| == 12 || |data| == 24) && DecodePing(Peer(role), data).Some? <==> TakenForPing(role, data)
  {
  }

  lemma {:induction false} HeaderDispatch(role: Role, data: seq<byte>, codec: Codec, target: u32)
    requires |data| >= 2 && !codec.Opus? && target < 32 && data[0] == CodecBits(codec) + target
    requires (|data| == 12 || |data| == 24) && DecodePing(Peer(role), data).Some? <==> TakenForPing(role, data)
    ensures DecodePacket(Peer(role), data, false) ==
            if codec.CeltAlpha? && target == 1 then Some(NewFormatPing(data[1..]))
            else if TakenForPing(role, data) then AsPing(DecodePing(Peer(role), data))
            else AsAudio(DecodeAudio(Peer(role), data, codec))
  {
    var kind := data[0] / 32;
    match codec
    case CeltAlpha => assert kind == 0;
    case Speex => assert kind == 2;
    case CeltBeta => assert kind == 3;
  }

  /** What the decoder makes of an encoded packet of an older codec: with target 1, CELT Alpha is taken
      for a ping in the newer format; some packets are taken for extended pings; the rest are audio. */
  lemma {:induction false} OldCodecDispatch(role: Role, d: AudioData)
    requires PayloadOk(d) && !d.codec.Opus? && d.targetOrContext < 32 && StaticFits(role, d)
    ensures EncodedAudio(role, d) == Packet(role, d)
    ensures var data := Packet(role, d);
            DecodePacket(Peer(role), data, false) ==
            if d.codec.CeltAlpha? && d.targetOrContext == 1 then Some(NewFormatPing(data[1..]))
            else if TakenForPing(role, data) then AsPing(DecodePing(Peer(role), data))
            else AsAudio(DecodeAudio(Peer(role), data, d.codec))
    ensures TakenForPing(role, Packet(role, d)) ==> DecodePing(Peer(role), Packet(role, d)).Some?
  {
    ExtendedPings(role, Packet(role, d));
    HeaderDispatch(role, Packet(role, d), d.codec, d.targetOrContext);
  }

  lemma HeaderTarget(codec: Codec, target: u32)
    requires target < 32
    ensures (CodecBits(codec) + target) % 32 == target
  {
    match codec
    case CeltAlpha =>
    case Speex => assert 0x40 + target == 2 * 32 + target;
    case CeltBeta => assert 0x60 + target == 3 * 32 + target;
    case Opus => assert 0x80 + target == 4 * 32 + target;
  }

  lemma {:induction false} OldChain(s: Stream, payload: seq<byte>, p: seq<byte>, frames: nat)
    requires s.Valid() && s.ok && s.Rest() == payload + p && Chain(payload) == Some((|payload|, frames))
    ensures frames <= |payload|
    ensures OldFrames(s) == (Skipped(s, |payload|), |payload| - frames, HasEmptyFrame(payload))
  {
    ChainThenMore(payload, p);
    OldFramesIsChain(s);
    OldFramesEnd(s);
  }

  lemma Parts(s: Stream, payload: seq<byte>, size: nat, p: seq<byte>)
    requires s.Valid() && s.Rest() == payload + p && size <= |payload|
    ensures Skipped(s, |payload|).Valid() && Skipped(s, |payload|).Rest() == p
    ensures s.data[s.offset..s.offset + size] == payload[..size]
  {
    SliceOfSlice(s.data, s.offset, |s.data|, 0, size);
    SliceOfSlice(s.data, s.offset, |s.data|, |payload|, |payload + p|);
    assert (payload + p)[..size] == payload[..size] && (payload + p)[|payload|..] == p;
  }

  lemma {:induction false} OldBody(d: AudioData, header: byte, session: u32, frame: u64, s: Stream, p: seq<byte>, frames: nat)
    requires s.Valid() && s.ok && !d.codec.Opus? && s.Rest() == d.payload + p && (p == [] || |p| == 12)
    requires Chain(d.payload) == Some((|d.payload|, frames))
    ensures AudioFrom(header, d.codec, session, frame, s) ==
            Some(AudioData(header % 32, d.codec, session, frame, d.payload[..|d.payload| - frames],
                           HasEmptyFrame(d.payload), p != [], if p != [] then p else Zeros(12)))
  {
    var n := |d.payload|;
    OldChain(s, d.payload, p, frames);
    Parts(s, d.payload, n - frames, p);
  }

  lemma AudioAfterFront(role: Role, data: seq<byte>, codec: Codec, s: Stream, session: u32, frame: u64)
    requires 3 <= |data| <= 0x1_0000_0000 && ReadFront(role, Fresh(data[1..])) == (s, session, frame)
    ensures DecodeAudio(role, data, codec) == AudioFrom(data[0], codec, session, frame, s)
  {
  }

  lemma {:induction false} OldStatic(role: Role, d: AudioData, header: byte, p: seq<byte>, data: seq<byte>, frames: nat)
    requires PayloadOk(d) && !d.codec.Opus? && (p == [] || |p| == 12)
    requires Chain(d.payload) == Some((|d.payload|, frames))
    requires data == [header] + StaticPart(role, d) + p && |data| < 0x1_0000_0000
    ensures DecodeAudio(Peer(role), data, d.codec) ==
            Some(Received(header % 32, role, d, p).(payload := d.payload[..|d.payload| - frames],
                                                    isLastFrame := HasEmptyFrame(d.payload)))
  {
    AfterHeader(header, Front(role, d), d.payload, p);
    var s0 := Fresh(data[1..]);
    FrontReadsBack(role, d, s0, d.payload + p);
    var session: u32, frame := if role.Server? then d.senderSession else 0, SentFrame(d.frameNumber);
    var s := Skipped(s0, |Front(role, d)|);
    OldBody(d, header, session, frame, s, p, frames);
    AudioAfterFront(Peer(role), data, d.codec, s, session, frame);
  }

  /** And as audio a payload that is a complete chain of frames arrives shortened by one byte for each
      frame, with the terminator flag set if a frame is empty; the rest arrives as for Opus. */
  lemma {:induction false} OldCodecArrives(role: Role, d: AudioData, data: seq<byte>, frames: nat)
    requires PayloadOk(d) && !d.codec.Opus? && d.targetOrContext < 32 && StaticFits(role, d)
    requires Chain(d.payload) == Some((|d.payload|, frames)) && data == Packet(role, d)
    ensures DecodeAudio(Peer(role), data, d.codec) ==
            Some(Arrives(role, d).(payload := d.payload[..|d.payload| - frames], isLastFrame := HasEmptyFrame(d.payload)))
  {
    HeaderTarget(d.codec, d.targetOrContext);
    OldStatic(role, d, CodecBits(d.codec) + d.targetOrContext, SentPosition(role, d), data, frames);
  }

  // ----- Ping round trips

  lemma Host64RoundTrip(n: u64)
    ensures FromHost64(Host64(n)) == n
  {
    NumberOfBytes(n % 0x1_0000_0000);
    NumberOfBytes(n / 0x1_0000_0000);
  }

  /** A plain ping brings back its timestamp, in both directions, whatever the value. */
  lemma PlainPingRoundTrip(role: Role, d: PingData, restrictToPing: bool)
    requires !d.requestAdditionalInformation && !d.containsAdditionalInformation
    ensures DecodePacket(Peer(role), EncodedPing(role, d), restrictToPing) ==
            if restrictToPing then None else Some(PingMessage(NO_PING.(timestamp := d.timestamp)))
  {
    var data := EncodedPing(role, d);
    assert data[1..] == Encode(d.timestamp) == Encode(d.timestamp) + [];
    Varint.RoundTrip(d.timestamp, []);
  }

  /** A client's request for information is recognised by the server. */
  lemma PingRequestRoundTrip(d: PingData, restrictToPing: bool)
    requires d.requestAdditionalInformation
    ensures DecodePacket(Server, EncodedPing(Client, d), restrictToPing) ==
            Some(PingMessage(NO_PING.(timestamp := d.timestamp, requestAdditionalInformation := true)))
  {
    var data := EncodedPing(Client, d);
    assert data[0..4] == Zeros(4) == [0, 0, 0, 0] && data[4..12] == Host64(d.timestamp);
    Host64RoundTrip(d.timestamp);
  }

  /** A server's answer is read back by the client, with minor and patch version cut off at 255 and
      without the mark that it contains the information, exactly when the high byte of the major
      version is not the header of the newer ping format. */
  lemma PingAnswerRoundTrip(d: PingData, restrictToPing: bool)
    requires d.containsAdditionalInformation
    ensures DecodePacket(Client, EncodedPing(Server, d), restrictToPing) ==
            Some(PingMessage(d.(requestAdditionalInformation := false, containsAdditionalInformation := false,
                                serverVersion := Version(d.serverVersion.major, AtMostByte(d.serverVersion.minor),
                                                         AtMostByte(d.serverVersion.patch)))))
            <==> d.serverVersion.major / 0x100 != NEW_PING
  {
    var data := EncodedPing(Server, d);
    var v := d.serverVersion;
    assert data[0..4] == ToLegacyVersion(v) && data[4..12] == Host64(d.timestamp);
    assert data[12..16] == BigEndian32(d.userCount) && data[16..20] == BigEndian32(d.maxUserCount);
    assert data[20..24] == BigEndian32(d.maxBandwidthPerUser);
    assert ToLegacyVersion(v)[..2] == BigEndian16(v.major);
    Host64RoundTrip(d.timestamp);
    BigEndian32RoundTrip(d.userCount);
    BigEndian32RoundTrip(d.maxUserCount);
    BigEndian32RoundTrip(d.maxBandwidthPerUser);
  }

  /** An answer that is lost: from a server of major version 256. */
  lemma LostAnswerExample(d: PingData)
    requires d.containsAdditionalInformation && d.serverVersion.major == 0x100
    ensures DecodePacket(Client, EncodedPing(Server, d), false) == Some(NewFormatPing(EncodedPing(Server, d)[1..]))
  {
    assert EncodedPing(Server, d)[0] == 1;
  }
}
