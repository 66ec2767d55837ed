/** The encoder and decoder objects of the legacy UDP protocol (src/MumbleProtocol.cpp), which rewrite
    a packet buffer in place and read packets through a stream, proved against `LegacyPackets`. */
module VoiceCodec {
  import opened Buffers
  import opened Bytes
  import opened Varint
  import opened StreamValues
  import opened PacketStream
  import opened LegacyPackets
  import opened Wrappers

  // ----- Prepared buffers

  /** The first `n` bytes hold the header and the static part of the packet of `d0`, and those up to `m`
      these bytes of positional data. */
  ghost predicate PreparedBytes(role: Role, d0: AudioData, position: seq<byte>, bytes: seq<byte>, n: nat, m: nat)
    requires PayloadOk(d0)
  {
    && StaticFits(role, d0) && n == 1 + |StaticPart(role, d0)| && m == n + |position| <= |bytes|
    && bytes[0] / 32 * 32 == CodecBits(d0.codec)
    && bytes[1..n] == StaticPart(role, d0) && bytes[n..m] == position
  }

  lemma FirstByteChanged(bytes: seq<byte>, after: seq<byte>, n: nat, m: nat)
    requires 1 <= n <= m <= |bytes| == |after| && after[1..] == bytes[1..]
    ensures after[1..n] == bytes[1..n] && after[n..m] == bytes[n..m]
    ensures after[..n] == [after[0]] + after[1..n] && after[..m] == [after[0]] + after[1..n] + after[n..m]
  {
    SliceOfSlice(bytes, 1, |bytes|, 0, n - 1);
    SliceOfSlice(after, 1, |bytes|, 0, n - 1);
    SliceOfSlice(bytes, 1, |bytes|, n - 1, m - 1);
    SliceOfSlice(after, 1, |bytes|, n - 1, m - 1);
    assert bytes[1..|bytes|] == bytes[1..] && after[1..|bytes|] == after[1..];
    SplitAt(after, 0, 1, n);
    SplitAt(after, 0, n, m);
    assert after[0..1] == [after[0]] && after[0..n] == after[..n] && after[0..m] == after[..m];
  }

  lemma SamePrefix(a: seq<byte>, b: seq<byte>, n: nat)
    requires 1 <= n <= |a| == |b| && a[..n] == b[..n]
    ensures a[0] == b[0] && a[1..n] == b[1..n]
  {
    assert a[..n][0] == a[0] && b[..n][0] == b[0];
    SliceOfSlice(a, 0, n, 1, n);
    SliceOfSlice(b, 0, n, 1, n);
  }

  // ----- One preparation, many receivers

  datatype Op = Add(d: AudioData) | Drop | Update(d: AudioData)

  /** The positional data in the packet of `d0` after one more operation. */
  function StepPosition(role: Role, d0: AudioData, position: seq<byte>, op: Op): seq<byte>
    requires PayloadOk(d0)
  {
    match op
    case Add(d) => if !d.containsPositionalData then position else if PositionFits(role, d0) then d.position else []
    case Drop => []
    case Update(_) => position
  }

  function PositionAfter(role: Role, d0: AudioData, position: seq<byte>, ops: seq<Op>): seq<byte>
    requires PayloadOk(d0)
    decreases |ops|
  {
    if ops == [] then position
    else StepPosition(role, d0, PositionAfter(role, d0, position, ops[..|ops| - 1]), ops[|ops| - 1])
  }

  /** What an update for one receiver returns. */
  function Updated(role: Role, d0: AudioData, position: seq<byte>, d: AudioData): seq<byte>
    requires PayloadOk(d0)
  {
    if d.targetOrContext >= 32 then []
    else [CodecBits(d0.codec) + d.targetOrContext] + StaticPart(role, d0) + if d.containsPositionalData then position else []
  }

  lemma UpdatesPrepared(role: Role, d0: AudioData, position: seq<byte>, bytes: seq<byte>, n: nat, m: nat,
                        d: AudioData, after: seq<byte>)
    requires PayloadOk(d0) && PreparedBytes(role, d0, position, bytes, n, m)
    requires d.targetOrContext < 32 && after == bytes[0 := d.targetOrContext + bytes[0] / 32 * 32]
    ensures PreparedBytes(role, d0, position, after, n, m)
    ensures after[..if d.containsPositionalData then m else n] == Updated(role, d0, position, d)
  {
    FirstByteChanged(bytes, after, n, m);
    assert after[0] / 32 == bytes[0] / 32;
  }

  /** An encoder that prepares the part of a packet common to all receivers once, and then puts in what
      differs for each of them. */
  class UDPAudioEncoder {
    const role: Role
    const byteBuffer: array<byte>
    var staticPartSize: nat
    var positionalAudioSize: nat

    ghost predicate Valid()
      reads this
    {
      byteBuffer.Length == MAX_UDP_PACKET_SIZE && staticPartSize <= positionalAudioSize <= MAX_UDP_PACKET_SIZE
    }

    /** The packet of `d0` is prepared, with these bytes of positional data. */
    ghost predicate Prepared(d0: AudioData, position: seq<byte>)
      requires PayloadOk(d0)
      reads this, byteBuffer
    {
      Valid() && PreparedBytes(role, d0, position, byteBuffer[..], staticPartSize, positionalAudioSize)
    }

    constructor (role: Role)
      ensures Valid() && this.role == role && fresh(byteBuffer)
    {
      this.role := role;
      byteBuffer := new byte[MAX_UDP_PACKET_SIZE](_ => 0);
      staticPartSize, positionalAudioSize := 0, 0;
    }

    method PrepareAudioPacket(d: AudioData)
      requires Valid() && PayloadOk(d)
      modifies this, byteBuffer
      ensures Valid()
      ensures StaticFits(role, d) ==> Prepared(d, [])
      ensures !StaticFits(role, d) ==> staticPartSize == positionalAudioSize == 0
    {
      byteBuffer[0] := CodecBits(d.codec);
      var stream := new PacketDataStream(byteBuffer, 1, byteBuffer.Length - 1);
      ghost var s0 := stream.View();
      WriteStatic(stream, d);
      FreshWrote(s0.data, stream.View(), StaticPart(role, d));
      staticPartSize := stream.offset + 1;
      if !stream.ok {
        staticPartSize := 0;
      }
      positionalAudioSize := staticPartSize;
      assert byteBuffer[..1][0] == CodecBits(d.codec);
      assert stream.ok ==> byteBuffer[1..staticPartSize] == stream.View().data[..stream.offset];
    }

    /** Everything between the header and the positional data. */
    method WriteStatic(stream: PacketDataStream, d: AudioData)
      requires stream.Valid() && PayloadOk(d)
      modifies stream, stream.buffer
      ensures stream.Valid() && stream.Outside() == old(stream.Outside())
      ensures Wrote(old(stream.View()), stream.View(), StaticPart(role, d))
    {
      ghost var s0 := stream.View();
      WriteFront(stream, d);
      ghost var s1 := stream.View();
      WriteBody(stream, d);
      WroteBoth(s0, s1, stream.View(), Front(role, d), Body(d));
    }

    /** The session and frame number. */
    method WriteFront(stream: PacketDataStream, d: AudioData)
      requires stream.Valid()
      modifies stream, stream.buffer
      ensures stream.Valid() && stream.Outside() == old(stream.Outside())
      ensures Wrote(old(stream.View()), stream.View(), Front(role, d))
    {
      ghost var s0 := stream.View();
      if role == Server {
        stream.WriteU64(d.senderSession);
        PutEachWrote(s0, Encode(d.senderSession));
      } else {
        WroteNothing(s0);
      }
      ghost var s1 := stream.View();
      stream.WriteU64(SentFrame(d.frameNumber));
      PutEachWrote(s1, Encode(SentFrame(d.frameNumber)));
      WroteBoth(s0, s1, stream.View(), if role == Server then Encode(d.senderSession) else [], Encode(SentFrame(d.frameNumber)));
    }

    /** The size field of Opus and the payload. */
    method WriteBody(stream: PacketDataStream, d: AudioData)
      requires stream.Valid() && PayloadOk(d)
      modifies stream, stream.buffer
      ensures stream.Valid() && stream.Outside() == old(stream.Outside())
      ensures Wrote(old(stream.View()), stream.View(), Body(d))
    {
      match d.codec {
        case Opus =>
          WriteSized(stream, d);
        case _ =>
          PutBlockWrote(stream.View(), d.payload);
          stream.AppendBlock(d.payload);
          assert Body(d) == d.payload;
      }
    }

    method WriteSized(stream: PacketDataStream, d: AudioData)
      requires stream.Valid() && PayloadOk(d) && d.codec.Opus?
      modifies stream, stream.buffer
      ensures stream.Valid() && stream.Outside() == old(stream.Outside())
      ensures Wrote(old(stream.View()), stream.View(), Body(d))
    {
      ghost var s0 := stream.View();
      stream.WriteU64(if d.isLastFrame then |d.payload| + 0x2000 else |d.payload|);
      ghost var s1 := stream.View();
      stream.AppendBlock(d.payload);
      PutEachWrote(s0, Encode(SizeField(d)));
      PutBlockWrote(s1, d.payload);
      WroteBoth(s0, s1, stream.View(), Encode(SizeField(d)), d.payload);
    }

    /** Puts the positional data after the static part; nothing of the packet before it changes. */
    method AddPositionalData(d: AudioData, ghost d0: AudioData, ghost position: seq<byte>)
      requires Valid() && PayloadOk(d0)
      modifies this`positionalAudioSize, byteBuffer
      ensures Valid()
      ensures byteBuffer[..staticPartSize] == old(byteBuffer[..staticPartSize])
      ensures d.containsPositionalData ==>
                positionalAudioSize == staticPartSize + if staticPartSize + 12 <= MAX_UDP_PACKET_SIZE then 12 else 0
      ensures d.containsPositionalData && staticPartSize + 12 <= MAX_UDP_PACKET_SIZE ==>
                byteBuffer[staticPartSize..positionalAudioSize] == d.position
      ensures !d.containsPositionalData ==>
                byteBuffer[..] == old(byteBuffer[..]) && positionalAudioSize == old(positionalAudioSize)
      ensures old(Prepared(d0, position)) ==> Prepared(d0, StepPosition(role, d0, position, Add(d)))
    {
      ghost var buffer := byteBuffer[..];
      ghost var n := staticPartSize;
      if d.containsPositionalData {
        var stream := new PacketDataStream(byteBuffer, staticPartSize, byteBuffer.Length - staticPartSize);
        ghost var s0 := stream.View();
        WritePosition(stream, d.position);
        FreshWrote(s0.data, stream.View(), d.position);
        positionalAudioSize := stream.offset + staticPartSize;
        if !stream.ok {
          positionalAudioSize := staticPartSize;
        }
        if stream.ok {
          SliceOfSlice(byteBuffer[..], n, byteBuffer.Length, 0, stream.offset);
        }
      }
      if n > 0 {
        SamePrefix(byteBuffer[..], buffer, n);
      }
    }

    static method WritePosition(stream: PacketDataStream, p: Position)
      requires stream.Valid()
      modifies stream, stream.buffer
      ensures stream.Valid() && stream.Outside() == old(stream.Outside())
      ensures Wrote(old(stream.View()), stream.View(), p)
    {
      ghost var s0 := stream.View();
      stream.WriteFloat(p[0..4]);
      ghost var s1 := stream.View();
      PutEachWrote(s0, p[0..4]);
      stream.WriteFloat(p[4..8]);
      ghost var s2 := stream.View();
      PutEachWrote(s1, p[4..8]);
      stream.WriteFloat(p[8..12]);
      PutEachWrote(s2, p[8..12]);
      WroteBoth(s0, s1, s2, p[0..4], p[4..8]);
      WroteBoth(s0, s2, stream.View(), p[0..4] + p[4..8], p[8..12]);
      assert p[0..4] + p[4..8] + p[8..12] == p;
    }

    method DropPositionalData(ghost d0: AudioData, ghost position: seq<byte>)
      requires Valid() && PayloadOk(d0)
      modifies this`positionalAudioSize
      ensures Valid() && positionalAudioSize == staticPartSize
      ensures old(Prepared(d0, position)) ==> Prepared(d0, StepPosition(role, d0, position, Drop))
    {
      positionalAudioSize := staticPartSize;
    }

    /** Puts the target into the header and returns the packet, with positional data if asked for. */
    method UpdateAudioPacket(d: AudioData, ghost d0: AudioData, ghost position: seq<byte>) returns (packet: seq<byte>)
      requires Valid() && PayloadOk(d0)
      modifies byteBuffer
      ensures Valid()
      ensures byteBuffer[1..] == old(byteBuffer[1..]) && byteBuffer[0] / 32 == old(byteBuffer[0]) / 32
      ensures d.targetOrContext >= 32 ==> packet == []
      ensures d.targetOrContext < 32 ==>
                && byteBuffer[0] == old(byteBuffer[0]) / 32 * 32 + d.targetOrContext
                && packet == byteBuffer[..if d.containsPositionalData then positionalAudioSize else staticPartSize]
      ensures old(Prepared(d0, position)) ==> Prepared(d0, position) && packet == Updated(role, d0, position, d)
    {
      if d.targetOrContext >= 32 {
        return [];
      }
      ghost var before := byteBuffer[..];
      byteBuffer[0] := d.targetOrContext + byteBuffer[0] / 32 * 32;
      var packetSize := if d.containsPositionalData then positionalAudioSize else staticPartSize;
      packet := byteBuffer[..packetSize];
      if old(Prepared(d0, position)) {
        UpdatesPrepared(role, d0, position, before, staticPartSize, positionalAudioSize, d, byteBuffer[..]);
      }
    }

    /** encodeAudioPacket: the whole packet at once. */
    method EncodeAudioPacket(d: AudioData) returns (packet: seq<byte>)
      requires Valid() && PayloadOk(d)
      modifies this, byteBuffer
      ensures Valid() && packet == EncodedAudio(role, d)
    {
      PrepareAudioPacket(d);
      AddPositionalData(d, d, []);
      ghost var buffer := byteBuffer[..];
      packet := UpdateAudioPacket(d, d, StepPosition(role, d, [], Add(d)));
      if !StaticFits(role, d) && d.targetOrContext < 32 && d.containsPositionalData {
        assert byteBuffer[..12] == [byteBuffer[0]] + byteBuffer[1..][..11];
        assert buffer[0..12][1..] == buffer[1..][..11];
      }
    }
  }

  function UpdatesOf(role: Role, d0: AudioData, ops: seq<Op>): seq<seq<byte>>
    requires PayloadOk(d0)
    decreases |ops|
  {
    if ops == [] then []
    else
      var front, last := ops[..|ops| - 1], ops[|ops| - 1];
      UpdatesOf(role, d0, front) +
      if last.Update? then [Updated(role, d0, PositionAfter(role, d0, [], front), last.d)] else []
  }

  /** After one preparation any interleaving of the other operations keeps the static bytes and the
      codec bits, and every update returns the expected packet. */
  method RunOps(encoder: UDPAudioEncoder, d0: AudioData, ops: seq<Op>) returns (packets: seq<seq<byte>>)
    requires encoder.Valid() && PayloadOk(d0) && StaticFits(encoder.role, d0)
    modifies encoder, encoder.byteBuffer
    ensures encoder.Prepared(d0, PositionAfter(encoder.role, d0, [], ops))
    ensures packets == UpdatesOf(encoder.role, d0, ops)
  {
    encoder.PrepareAudioPacket(d0);
    packets := [];
    for k := 0 to |ops|
      invariant encoder.Prepared(d0, PositionAfter(encoder.role, d0, [], ops[..k]))
      invariant packets == UpdatesOf(encoder.role, d0, ops[..k])
    {
      assert ops[..k + 1][..k] == ops[..k];
      ghost var position := PositionAfter(encoder.role, d0, [], ops[..k]);
      match ops[k] {
        case Add(d) =>
          encoder.AddPositionalData(d, d0, position);
        case Drop =>
          encoder.DropPositionalData(d0, position);
        case Update(d) =>
          var packet := encoder.UpdateAudioPacket(d, d0, position);
          packets := packets + [packet];
      }
    }
    assert ops[..|ops|] == ops;
  }

  /** The last effective operation: adding positional data that is there, or dropping it. */
  predicate Effective(op: Op) {
    op.Drop? || (op.Add? && op.d.containsPositionalData)
  }

  /** Operations before the last effective one leave no trace in the packet. */
  lemma {:induction false} LastEffectiveDecides(role: Role, d0: AudioData, position: seq<byte>,
                                                before: seq<Op>, op: Op, after: seq<Op>)
    requires PayloadOk(d0) && Effective(op)
    requires forall o :: o in after ==> !Effective(o)
    ensures PositionAfter(role, d0, position, before + [op] + after) == PositionAfter(role, d0, [], [op])
    decreases |after|
  {
    var all := before + [op] + after;
    if after == [] {
      assert all == before + [op] && all[..|all| - 1] == before;
    } else {
      var front := after[..|after| - 1];
      assert all[..|all| - 1] == before + [op] + front;
      assert all[|all| - 1] == after[|after| - 1] && after[|after| - 1] in after;
      LastEffectiveDecides(role, d0, position, before, op, front);
    }
  }

  /** The last effective operation of a history, if it has one. */
  function LastEffective(ops: seq<Op>): (last: seq<Op>)
    ensures last == [] <==> forall o :: o in ops ==> !Effective(o)
    ensures last != [] ==> |last| == 1 && last[0] in ops && Effective(last[0])
    decreases |ops|
  {
    if ops == [] then []
    else if Effective(ops[|ops| - 1]) then [ops[|ops| - 1]]
    else
      assert forall o :: o in ops ==> o in ops[..|ops| - 1] || o == ops[|ops| - 1];
      LastEffective(ops[..|ops| - 1])
  }

  lemma {:induction false} PositionForgets(role: Role, d0: AudioData, ops: seq<Op>)
    requires PayloadOk(d0)
    ensures PositionAfter(role, d0, [], ops) == PositionAfter(role, d0, [], LastEffective(ops))
    decreases |ops|
  {
    if ops != [] {
      var front, last := ops[..|ops| - 1], ops[|ops| - 1];
      if Effective(last) {
        assert [last][..0] == [];
      } else {
        PositionForgets(role, d0, front);
      }
    }
  }

  /** So after any history an update returns what a fresh preparation, the last effective operation, if
      there was one, and that update alone would return. */
  lemma {:induction false} UpdateForgetsHistory(role: Role, d0: AudioData, ops: seq<Op>, d: AudioData)
    requires PayloadOk(d0)
    ensures Updated(role, d0, PositionAfter(role, d0, [], ops), d) ==
            Updated(role, d0, PositionAfter(role, d0, [], LastEffective(ops)), d)
  {
    PositionForgets(role, d0, ops);
  }

  // ----- Pings

  lemma AnswerLayout(version: seq<byte>, timestamp: seq<byte>, users: seq<byte>, most: seq<byte>, bandwidth: seq<byte>)
    requires |version| == |users| == |most| == |bandwidth| == 4 && |timestamp| == 8
    ensures Splice(Splice(Splice(Splice(Splice(Zeros(24), 0, version), 12, users), 16, most), 20, bandwidth), 4, timestamp)
            == version + timestamp + users + most + bandwidth
  {
    var a := Splice(Splice(Zeros(24), 0, version), 12, users);
    assert a[..4] == version && a[12..16] == users;
    var b := Splice(Splice(a, 16, most), 20, bandwidth);
    assert b[..4] == version && b[12..] == users + most + bandwidth;
  }

  class UDPPingEncoder {
    const role: Role
    var byteBuffer: array<byte>

    constructor (role: Role)
      ensures this.role == role
    {
      this.role := role;
      byteBuffer := new byte[0];
    }

    method EncodePingPacket(d: PingData) returns (packet: seq<byte>)
      modifies this
      ensures fresh(byteBuffer) && packet == EncodedPing(role, d)
    {
      if d.requestAdditionalInformation || d.containsAdditionalInformation {
        packet := EncodeExtended(d);
      } else {
        byteBuffer := new byte[10](_ => 0);
        byteBuffer[0] := 1 * 32;
        var stream := new PacketDataStream(byteBuffer, 1, 9);
        ghost var s0 := stream.View();
        stream.WriteU64(d.timestamp);
        PutEachWrote(s0, Encode(d.timestamp));
        FreshWrote(s0.data, stream.View(), Encode(d.timestamp));
        ghost var n := stream.offset;
        assert byteBuffer[..1][0] == 0x20;
        SliceOfSlice(byteBuffer[..], 1, 10, 0, n);
        assert byteBuffer[1..n + 1] == stream.View().data[..n];
        assert byteBuffer[..n + 1] == [byteBuffer[0]] + byteBuffer[1..n + 1];
        packet := byteBuffer[..stream.offset + 1];
      }
    }

    /** A request for information, or a server's answer to one. */
    method EncodeExtended(d: PingData) returns (packet: seq<byte>)
      requires d.requestAdditionalInformation || d.containsAdditionalInformation
      modifies this
      ensures fresh(byteBuffer) && packet == EncodedPing(role, d)
    {
      var writeAdditionalInformation := d.containsAdditionalInformation && role == Server;
      var packetSize := if writeAdditionalInformation then 24 else 12;
      byteBuffer := new byte[packetSize](_ => 0);
      if writeAdditionalInformation {
        CopyInto(byteBuffer, 0, ToLegacyVersion(d.serverVersion));
        CopyInto(byteBuffer, 12, BigEndian32(d.userCount));
        CopyInto(byteBuffer, 16, BigEndian32(d.maxUserCount));
        CopyInto(byteBuffer, 20, BigEndian32(d.maxBandwidthPerUser));
      }
      CopyInto(byteBuffer, 4, Host64(d.timestamp));
      packet := byteBuffer[..];
      if writeAdditionalInformation {
        AnswerLayout(ToLegacyVersion(d.serverVersion), Host64(d.timestamp), BigEndian32(d.userCount),
                     BigEndian32(d.maxUserCount), BigEndian32(d.maxBandwidthPerUser));
      } else {
        assert packet == Zeros(4) + Host64(d.timestamp);
      }
    }
  }

  // ----- The decoder

  datatype MessageType = Audio | Ping

  lemma PositionBytes(s: Stream)
    requires s.Valid() && s.Left() == 12
    ensures var (s1, x) := ReadFour(s); var (s2, y) := ReadFour(s1); var (_, z) := ReadFour(s2);
            x + y + z == s.Rest()
  {
    var bs := s.Rest();
    var s1 := Advance(s, 4);
    var s2 := Advance(s1, 4);
    assert s1.Rest() == bs[4..] && s2.Rest() == bs[8..];
    assert [bs[0], bs[1], bs[2], bs[3]] + [bs[4], bs[5], bs[6], bs[7]] + [bs[8], bs[9], bs[10], bs[11]] == bs;
  }

  /** With `size` and `last` so far, going on at `s` gives the result `end`. */
  ghost predicate GoesOn(end: (Stream, nat, bool), size: nat, last: bool, s: Stream) {
    s.Valid() && var (after, more, lastOfAll) := OldFrames(s); end == (after, size + more, last || lastOfAll)
  }

  lemma {:induction false} OldFramesStep(end: (Stream, nat, bool), size: nat, last: bool, s: Stream,
                                          s2: Stream, current: nat, more: bool, size': nat, last': bool)
    requires GoesOn(end, size, last, s) && (s2, current, more) == OldFrame(s)
    requires size' == size + current && last' == (last || current == 0)
    ensures more ==> s2.Left() < s.Left() && GoesOn(end, size', last', s2)
    ensures !more ==> end == (s2, size', last')
  {
  }

  class UDPDecoder {
    const role: Role
    /** The decoder of pings in the newer format. */
    const newFormat: seq<byte> -> Option<PingData>
    var legacyVersion: bool
    var messageType: MessageType
    var audioData: AudioData
    var pingData: PingData

    constructor (role: Role, newFormat: seq<byte> -> Option<PingData>)
      ensures this.role == role && this.newFormat == newFormat && legacyVersion
    {
      this.role := role;
      this.newFormat := newFormat;
      legacyVersion := true;
      messageType := Audio;
      audioData := AudioData(0, Opus, 0, 0, [], false, false, Zeros(12));
      pingData := NO_PING;
    }

    /** decode for a legacy protocol version.  A ping in the newer format ends the legacy version. */
    method Decode(data: array<byte>, restrictToPing: bool) returns (ok: bool)
      requires legacyVersion && data.Length < 0x1_0000_0000
      modifies this
      ensures match DecodePacket(role, data[..], restrictToPing)
              case None => !ok && legacyVersion
              case Some(AudioMessage(a)) => ok && legacyVersion && messageType == Audio && audioData == a
              case Some(PingMessage(p)) => ok && legacyVersion && messageType == Ping && pingData == p
              case Some(NewFormatPing(bytes)) =>
                && !legacyVersion && messageType == Ping
                && (ok <==> newFormat(bytes).Some?) && (ok ==> pingData == newFormat(bytes).value)
      ensures restrictToPing && ok ==> messageType == Ping
    {
      if data.Length <= 1 {
        return false;
      }
      var header := data[0];
      assert data[..][0] == header;
      if header == NEW_PING {
        legacyVersion := false;
        messageType := Ping;
        var parsed := newFormat(data[1..]);
        assert data[..][1..] == data[1..];
        pingData := if parsed.Some? then parsed.value else NO_PING;
        return parsed.Some?;
      }
      if data.Length == 12 || data.Length == 24 {
        ok := DecodePingLegacy(data[..]);
        if ok {
          return;
        }
      }
      if restrictToPing {
        return false;
      }
      var kind := header / 32;
      if kind == 1 {
        assert data[..][1..] == data[1..];
        ok := DecodePingLegacy(data[1..]);
      } else if kind == 0 {
        ok := DecodeAudioLegacy(data, CeltAlpha);
      } else if kind == 3 {
        ok := DecodeAudioLegacy(data, CeltBeta);
      } else if kind == 2 {
        ok := DecodeAudioLegacy(data, Speex);
      } else if kind == 4 {
        ok := DecodeAudioLegacy(data, Opus);
      } else {
        ok := false;
      }
    }

    method DecodePingLegacy(data: seq<byte>) returns (ok: bool)
      requires |data| < 0x1_0000_0000
      modifies this`messageType, this`pingData
      ensures messageType == Ping
      ensures ok <==> DecodePing(role, data).Some?
      ensures ok ==> pingData == DecodePing(role, data).value
    {
      messageType := Ping;
      pingData := NO_PING;
      if data == [] {
        return false;
      }
      if |data| <= 9 {
        var bytes := new byte[|data|](i requires 0 <= i < |data| => data[i]);
        assert bytes[..] == data;
        var stream := new PacketDataStream(bytes, 0, bytes.Length);
        assert stream.View().Rest() == data;
        var timestamp := stream.ReadU64();
        pingData := pingData.(timestamp := timestamp);
        return true;
      }
      match role {
        case Client =>
          if |data| == 24 {
            pingData := pingData.(serverVersion := FromLegacyVersion(data[0..4]), timestamp := FromHost64(data[4..12]));
            pingData := pingData.(userCount := FromBigEndian32(data[12..16]), maxUserCount := FromBigEndian32(data[16..20]));
            pingData := pingData.(maxBandwidthPerUser := FromBigEndian32(data[20..24]));
            return true;
          } else {
            return false;
          }
        case Server =>
          assert data[0..4] == [data[0], data[1], data[2], data[3]];
          if |data| == 12 && data[0] == 0 && data[1] == 0 && data[2] == 0 && data[3] == 0 {
            pingData := pingData.(timestamp := FromHost64(data[4..12]), requestAdditionalInformation := true);
            return true;
          } else {
            return false;
          }
      }
    }

    method DecodeAudioLegacy(data: array<byte>, codec: Codec) returns (ok: bool)
      requires data.Length < 0x1_0000_0000
      modifies this`messageType, this`audioData
      ensures messageType == Audio
      ensures ok <==> DecodeAudio(role, data[..], codec).Some?
      ensures ok ==> audioData == DecodeAudio(role, data[..], codec).value
    {
      messageType := Audio;
      audioData := AudioData(0, Opus, 0, 0, [], false, false, Zeros(12));
      if data.Length < 3 {
        return false;
      }
      var stream := new PacketDataStream(data, 1, data.Length - 1);
      assert stream.View() == Fresh(data[..][1..]);
      var session, frame := ReadFrontOf(stream);
      ok := ReadAudio(stream, data[0], codec, session, frame);
    }

    /** The payload and what follows it. */
    method ReadAudio(stream: PacketDataStream, header: byte, codec: Codec, session: u32, frame: u64) returns (ok: bool)
      requires stream.Valid()
      modifies stream`offset, stream`ok, this`audioData
      ensures stream.Valid()
      ensures ok <==> AudioFrom(header, codec, session, frame, old(stream.View())).Some?
      ensures ok ==> audioData == AudioFrom(header, codec, session, frame, old(stream.View())).value
    {
      var begin, size, last := ReadPayload(stream, codec);
      if !stream.ok {
        return false;
      }
      var payload := stream.Block(begin, size);
      audioData := AudioData(header % 32, codec, session, frame, payload, last, false, Zeros(12));
      ok := ReadPosition(stream);
    }

    method ReadFrontOf(stream: PacketDataStream) returns (session: u32, frame: u64)
      requires stream.Valid()
      modifies stream`offset, stream`ok
      ensures stream.Valid() && (stream.View(), session, frame) == ReadFront(role, old(stream.View()))
    {
      session := 0;
      if role == Client {
        var v := stream.ReadU64();
        session := v % 0x1_0000_0000;
      }
      frame := stream.ReadU64();
    }

    /** The codec-dependent part: where the payload begins, its size, and the terminator flag. */
    method ReadPayload(stream: PacketDataStream, codec: Codec) returns (begin: nat, size: nat, last: bool)
      requires stream.Valid()
      modifies stream`offset, stream`ok
      ensures stream.Valid() && (stream.View(), last, size) == PayloadOf(old(stream.View()), codec)
      ensures begin == if codec.Opus? then ReadU64(old(stream.View())).0.offset else old(stream.offset)
    {
      match codec {
        case Opus =>
          var field := stream.ReadU64();
          size := field % 0x2000;
          last := field / 0x2000 % 2 == 1;
          begin := stream.offset;
          stream.Skip(size);
        case _ =>
          begin := stream.offset;
          size, last := ReadOldFrames(stream);
      }
    }

    /** The frame loop of the older codecs. */
    method ReadOldFrames(stream: PacketDataStream) returns (payloadSize: nat, last: bool)
      requires stream.Valid()
      modifies stream`offset, stream`ok
      ensures stream.Valid() && (stream.View(), payloadSize, last) == OldFrames(old(stream.View()))
    {
      payloadSize, last := 0, false;
      ghost var end := OldFrames(stream.View());
      while true
        invariant stream.Valid()
        invariant GoesOn(end, payloadSize, last, stream.View())
        decreases stream.View().Left()
      {
        ghost var s, size0, last0 := stream.View(), payloadSize, last;
        var currentFrameSize, more := ReadOldFrame(stream);
        if currentFrameSize == 0 {
          last := true;
        }
        payloadSize := payloadSize + currentFrameSize;
        OldFramesStep(end, size0, last0, s, stream.View(), currentFrameSize, more, payloadSize, last);
        if !more {
          break;
        }
      }
    }

    method ReadOldFrame(stream: PacketDataStream) returns (currentFrameSize: nat, more: bool)
      requires stream.Valid()
      modifies stream`offset, stream`ok
      ensures stream.Valid() && (stream.View(), currentFrameSize, more) == OldFrame(old(stream.View()))
    {
      var header := stream.Next();
      currentFrameSize := header % 128;
      stream.Skip(currentFrameSize);
      more := header >= 128 && stream.ok;
    }

    /** What follows the payload. */
    method ReadPosition(stream: PacketDataStream) returns (ok: bool)
      requires stream.Valid()
      modifies stream`offset, stream`ok, this`audioData
      ensures stream.Valid()
      ensures ok <==> WithPosition(old(audioData), old(stream.View()).Rest()).Some?
      ensures ok ==> audioData == WithPosition(old(audioData), old(stream.View()).Rest()).value
    {
      var left := stream.maxsize - stream.offset;
      assert |stream.View().Rest()| == left;
      if left == 12 {
        ghost var s := stream.View();
        var x := stream.ReadFloat();
        var y := stream.ReadFloat();
        var z := stream.ReadFloat();
        PositionBytes(s);
        audioData := audioData.(containsPositionalData := true, position := x + y + z);
      } else if left > 0 {
        return false;
      }
      ok := true;
    }
  }
}
