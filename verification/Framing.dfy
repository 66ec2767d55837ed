/** Message framing on the TCP control connection (src/Connection.cpp).

    Each message is a two-byte type, a four-byte length and the payload.  `Connection.SocketRead` reads
    as much as has arrived and remembers a header whose payload is still missing.  `Parse` describes the
    stream as a whole; the two agree for every way of cutting the stream, except that a header with
    length -1 makes the reader return early. */
module Framing {
  import opened Bytes
  import opened Sequences

  const HEADER_SIZE: nat := 6
  const MAX_LENGTH: nat := 0x7fffff

  /** A received message.  The type is an enumeration over one byte. */
  datatype Message = Message(kind: byte, payload: seq<byte>)

  // ----- The header

  /** The cast of the 16-bit field to the byte enumeration keeps the low byte. */
  function HeaderKind(h: seq<byte>): byte
    requires |h| >= HEADER_SIZE
  {
    FromBigEndian16(h[0..2]) % 0x100
  }

  function HeaderLength(h: seq<byte>): int
    requires |h| >= HEADER_SIZE
  {
    ToInt32(FromBigEndian32(h[2..6]))
  }

  /** QIODevice::read: at most n bytes, none if n is negative. */
  function Taken(n: int, available: nat): nat {
    if n <= 0 then 0 else if n < available then n else available
  }

  // ----- The sender

  /** messageToNetwork: an oversized message leaves the cache empty, and then nothing is written. */
  function Encode(m: Message): (bs: seq<byte>)
    ensures bs == [] <==> |m.payload| > MAX_LENGTH
  {
    if |m.payload| > MAX_LENGTH then []
    else BigEndian16(m.kind) + BigEndian32(|m.payload|) + m.payload
  }

  method MessageToNetwork(m: Message) returns (cache: seq<byte>)
    ensures cache == Encode(m)
  {
    var len := |m.payload|;
    if len > MAX_LENGTH {
      return [];
    }
    var data := new byte[len + 6](_ => 0);
    data[0], data[1] := m.kind / 0x100, m.kind % 0x100;
    data[2], data[3] := len / 0x100_0000, len / 0x1_0000 % 0x100;
    data[4], data[5] := len / 0x100 % 0x100, len % 0x100;
    for i := 0 to len
      invariant data[..6] == BigEndian16(m.kind) + BigEndian32(len)
      invariant data[6..6 + i] == m.payload[..i]
    {
      data[6 + i] := m.payload[i];
    }
    assert data[..] == data[..6] + data[6..6 + len];
    cache := data[..];
  }

  /** The bytes sent: the type and the length with the high byte first, then the payload; nothing for a
      payload of 8 MiB or more. */
  lemma WireFormat(m: Message, n: nat)
    requires n == |m.payload|
    ensures n <= 0x7fffff ==>
              Encode(m) == [0, m.kind, 0, n / 0x1_0000, n / 0x100 % 0x100, n % 0x100] + m.payload
    ensures n > 0x7fffff ==> Encode(m) == []
  {
  }

  /** What the reader takes from a header: the second byte is the type, and the last four are the length as a
      signed number. */
  lemma HeaderBytes(h: seq<byte>, length: int)
    requires |h| >= 6
    requires var b3: int, b2: int, b1: int, b0: int := h[2], h[3], h[4], h[5];
             length == b3 * 0x100_0000 + b2 * 0x1_0000 + b1 * 0x100 + b0
    ensures HeaderKind(h) == h[1]
    ensures HeaderLength(h) == if length < 0x8000_0000 then length else length - 0x1_0000_0000
  {
  }

  function EncodeAll(ms: seq<Message>): seq<byte> {
    if ms == [] then [] else Encode(ms[0]) + EncodeAll(ms[1..])
  }

  /** The messages that are small enough to be sent. */
  function Sendable(ms: seq<Message>): seq<Message> {
    if ms == [] then []
    else (if |ms[0].payload| > MAX_LENGTH then [] else [ms[0]]) + Sendable(ms[1..])
  }

  // ----- The stream as a whole

  datatype Header = Header(kind: byte, length: int)

  /** What the bytes of a stream amount to: the complete messages, and either a partial header, a
      header waiting for its payload, or an aborted connection. */
  datatype Parsed = Parsed(messages: seq<Message>, tail: Tail)

  datatype Tail =
    | Partial(bytes: seq<byte>)
    | Waiting(header: Header, bytes: seq<byte>)
    | Aborted(header: Header)

  function Prepend(m: Message, p: Parsed): Parsed {
    p.(messages := [m] + p.messages)
  }

  /** Reads the stream from a header on. */
  function Parse(bs: seq<byte>): Parsed
    decreases |bs|, 1
  {
    if |bs| < HEADER_SIZE then Parsed([], Partial(bs))
    else if HeaderLength(bs) == -1 then Parse(bs[6..])
    else ParseBody(Header(HeaderKind(bs), HeaderLength(bs)), bs[6..])
  }

  /** Reads the stream from a payload on. */
  function ParseBody(h: Header, bs: seq<byte>): Parsed
    requires h.length != -1
    decreases |bs|, 2
  {
    if |bs| < h.length then Parsed([], Waiting(h, bs))
    else if h.length > MAX_LENGTH then Parsed([], Aborted(h))
    else
      var n := Taken(h.length, |bs|);
      Prepend(Message(h.kind, bs[..n]), Parse(bs[n..]))
  }

  /** Which lengths are accepted once the payload is there: a length above 0x7fffff ends the connection,
      but only after as many bytes have come; a length below -1 gives an empty message. */
  lemma LengthLimits(h: Header, bs: seq<byte>)
    requires h.length != -1
    ensures |bs| < h.length ==> ParseBody(h, bs) == Parsed([], Waiting(h, bs))
    ensures 0x7fffff < h.length <= |bs| ==> ParseBody(h, bs) == Parsed([], Aborted(h))
    ensures 0 <= h.length <= |bs| && h.length <= 0x7fffff ==>
              ParseBody(h, bs) == Prepend(Message(h.kind, bs[..h.length]), Parse(bs[h.length..]))
    ensures h.length < -1 ==> ParseBody(h, bs) == Prepend(Message(h.kind, []), Parse(bs))
  {
    assert bs[0..] == bs;
  }

  /** So no message is longer than the sender may send. */
  lemma {:induction false} MessagesAreSmall(bs: seq<byte>)
    ensures forall m :: m in Parse(bs).messages ==> |m.payload| <= 0x7fffff
    decreases |bs|, 1
  {
    if |bs| >= HEADER_SIZE {
      if HeaderLength(bs) == -1 {
        MessagesAreSmall(bs[6..]);
      } else {
        BodiesAreSmall(Header(HeaderKind(bs), HeaderLength(bs)), bs[6..]);
      }
    }
  }

  lemma {:induction false} BodiesAreSmall(h: Header, bs: seq<byte>)
    requires h.length != -1
    ensures forall m :: m in ParseBody(h, bs).messages ==> |m.payload| <= 0x7fffff
    decreases |bs|, 2
  {
    if h.length <= |bs| && h.length <= 0x7fffff {
      LengthLimits(h, bs);
      MessagesAreSmall(bs[Taken(h.length, |bs|)..]);
    }
  }

  /** The stream holds a header with length -1 that is followed by at least one more header. */
  predicate Stalls(bs: seq<byte>)
    decreases |bs|, 1
  {
    if |bs| < HEADER_SIZE then false
    else if HeaderLength(bs) == -1 then |bs| - 6 >= HEADER_SIZE
    else StallsBody(Header(HeaderKind(bs), HeaderLength(bs)), bs[6..])
  }

  predicate StallsBody(h: Header, bs: seq<byte>)
    requires h.length != -1
    decreases |bs|, 2
  {
    if |bs| < h.length || h.length > MAX_LENGTH then false
    else Stalls(bs[Taken(h.length, |bs|)..])
  }

  // ----- The reader

  /** The read loop on values.  An aborted or waiting state stays as it is. */
  function ReadLoop(s: Parsed): Parsed
    decreases if s.tail.Aborted? then 0 else |s.tail.bytes|, if s.tail.Partial? then 0 else 1
  {
    match s.tail
    case Aborted(_) => s
    case Partial(bs) =>
      if |bs| < HEADER_SIZE then s
      else if HeaderLength(bs) == -1 then Parsed(s.messages, Partial(bs[6..]))
      else ReadLoop(Parsed(s.messages, Waiting(Header(HeaderKind(bs), HeaderLength(bs)), bs[6..])))
    case Waiting(h, bs) =>
      if |bs| < h.length then s
      else if h.length > MAX_LENGTH then Parsed(s.messages, Aborted(h))
      else
        var n := Taken(h.length, |bs|);
        ReadLoop(Parsed(s.messages + [Message(h.kind, bs[..n])], Partial(bs[n..])))
  }

  /** The state with more unread bytes. */
  function Extend(s: Parsed, bytes: seq<byte>): Parsed {
    match s.tail
    case Aborted(_) => s
    case Partial(bs) => Parsed(s.messages, Partial(bs + bytes))
    case Waiting(h, bs) => Parsed(s.messages, Waiting(h, bs + bytes))
  }

  function Received(s: Parsed, bytes: seq<byte>): Parsed {
    ReadLoop(Extend(s, bytes))
  }

  /** The receiving half of a connection: the unread socket bytes, the pending header, the messages
      handed on so far. */
  class Connection {
    var buffer: seq<byte>
    var iPacketLength: int
    var mType: byte
    var emitted: seq<Message>
    var aborted: bool

    constructor ()
      ensures State() == Parsed([], Partial([]))
    {
      buffer, iPacketLength, mType, emitted, aborted := [], -1, 0, [], false;
    }

    /** The reader's state in the terms of `Parse`. */
    ghost function State(): Parsed
      reads this
    {
      Parsed(emitted,
             if aborted then Aborted(Header(mType, iPacketLength))
             else if iPacketLength == -1 then Partial(buffer)
             else Waiting(Header(mType, iPacketLength), buffer))
    }

    /** One delivery of bytes by the network followed by the read notification.  After abort() the
        socket delivers nothing any more. */
    method Deliver(bytes: seq<byte>)
      modifies this
      ensures State() == Received(old(State()), bytes)
    {
      if !aborted {
        buffer := buffer + bytes;
        SocketRead();
      }
    }

    /** The read loop. */
    method SocketRead()
      requires !aborted
      modifies this
      ensures State() == ReadLoop(old(State()))
    {
      ghost var start := State();
      while true
        invariant !aborted
        invariant ReadLoop(State()) == ReadLoop(start)
        decreases |buffer|, if iPacketLength == -1 then 0 else 1
      {
        var iAvailable := |buffer|;
        if iPacketLength == -1 {
          if iAvailable < 6 {
            return;
          }
          mType := FromBigEndian16(buffer[0..2]) % 0x100;
          iPacketLength := ToInt32(FromBigEndian32(buffer[2..6]));
          buffer := buffer[6..];
          iAvailable := iAvailable - 6;
        }
        if iPacketLength == -1 || iAvailable < iPacketLength {
          return;
        }
        if iPacketLength > MAX_LENGTH {
          aborted := true;
          return;
        }
        var n := Taken(iPacketLength, |buffer|);
        var qbaBuffer := buffer[..n];
        buffer := buffer[n..];
        iPacketLength := -1;
        emitted := emitted + [Message(mType, qbaBuffer)];
      }
    }
  }

  function ReceiveAll(s: Parsed, deliveries: seq<seq<byte>>): Parsed
    decreases |deliveries|
  {
    if deliveries == [] then s else ReceiveAll(Received(s, deliveries[0]), deliveries[1..])
  }

  const FRESH: Parsed := Parsed([], Partial([]))

  // ----- Every delivery schedule gives the same messages

  /** Reader states: a pending header never has length -1, which stands for "no header". */
  ghost predicate IsState(s: Parsed) {
    s.tail.Waiting? ==> s.tail.header.length != -1
  }

  function After(ms: seq<Message>, p: Parsed): Parsed {
    Parsed(ms + p.messages, p.tail)
  }

  /** Where a state leads once every header in its unread bytes is looked at. */
  function Resume(s: Parsed): Parsed
    requires IsState(s)
  {
    match s.tail
    case Aborted(_) => s
    case Partial(bs) => After(s.messages, Parse(bs))
    case Waiting(h, bs) => After(s.messages, ParseBody(h, bs))
  }

  predicate StallsFrom(s: Parsed)
    requires IsState(s)
  {
    match s.tail
    case Aborted(_) => false
    case Partial(bs) => Stalls(bs)
    case Waiting(h, bs) => StallsBody(h, bs)
  }

  ghost predicate Settled(s: Parsed) {
    s.tail.Partial? ==> |s.tail.bytes| < HEADER_SIZE
  }

  ghost function Size(s: Parsed): nat {
    if s.tail.Aborted? then 0 else |s.tail.bytes|
  }

  lemma ResumeKeepsMessages(s: Parsed)
    requires IsState(s)
    ensures s.messages <= Resume(s).messages
  {
  }

  lemma AfterAfter(ms: seq<Message>, ns: seq<Message>, p: Parsed)
    ensures After(ms, After(ns, p)) == After(ms + ns, p)
  {
  }

  /** The read loop never changes where a state leads; it goes all the way unless it stalls, and then
      it stops short in front of a complete header. */
  lemma {:induction false} LoopResumes(s: Parsed)
    requires IsState(s)
    ensures IsState(ReadLoop(s))
    ensures Resume(ReadLoop(s)) == Resume(s)
    ensures s.messages <= ReadLoop(s).messages
    ensures !StallsFrom(s) ==> ReadLoop(s) == Resume(s)
    ensures StallsFrom(s) ==> !Settled(ReadLoop(s))
    decreases Size(s), if s.tail.Partial? then 0 else 1
  {
    match s.tail
    case Aborted(_) =>
    case Partial(bs) =>
      if |bs| < HEADER_SIZE {
      } else if HeaderLength(bs) == -1 {
      } else {
        LoopResumes(Parsed(s.messages, Waiting(Header(HeaderKind(bs), HeaderLength(bs)), bs[6..])));
      }
    case Waiting(h, bs) =>
      if |bs| < h.length {
      } else if h.length > MAX_LENGTH {
      } else {
        var n := Taken(h.length, |bs|);
        var m := Message(h.kind, bs[..n]);
        LoopResumes(Parsed(s.messages + [m], Partial(bs[n..])));
        AfterAfter(s.messages, [m], Parse(bs[n..]));
        assert ParseBody(h, bs) == After([m], Parse(bs[n..]));
      }
  }

  lemma ExtendAfter(ms: seq<Message>, p: Parsed, more: seq<byte>)
    requires IsState(p)
    ensures Resume(Extend(After(ms, p), more)) == After(ms, Resume(Extend(p, more)))
  {
  }

  /** Bytes that arrive later are read from where the earlier ones lead. */
  lemma {:induction false} ParseExtends(bs: seq<byte>, more: seq<byte>)
    ensures IsState(Parse(bs)) && Settled(Parse(bs))
    ensures Parse(bs + more) == Resume(Extend(Parse(bs), more))
    ensures !Stalls(bs + more) ==> !Stalls(bs) && !StallsFrom(Extend(Parse(bs), more))
    decreases |bs|, 1
  {
    if |bs| < HEADER_SIZE {
      assert After([], Parse(bs + more)) == Parse(bs + more);
    } else {
      assert (bs + more)[6..] == bs[6..] + more;
      assert (bs + more)[2..6] == bs[2..6] && (bs + more)[0..2] == bs[0..2];
      if HeaderLength(bs) == -1 {
        ParseExtends(bs[6..], more);
      } else {
        BodyExtends(Header(HeaderKind(bs), HeaderLength(bs)), bs[6..], more);
      }
    }
  }

  lemma {:induction false} BodyExtends(h: Header, bs: seq<byte>, more: seq<byte>)
    requires h.length != -1
    ensures IsState(ParseBody(h, bs)) && Settled(ParseBody(h, bs))
    ensures ParseBody(h, bs + more) == Resume(Extend(ParseBody(h, bs), more))
    ensures !StallsBody(h, bs + more) ==> !StallsBody(h, bs) && !StallsFrom(Extend(ParseBody(h, bs), more))
    decreases |bs|, 2
  {
    if |bs| < h.length {
      assert After([], ParseBody(h, bs + more)) == ParseBody(h, bs + more);
    } else if h.length > MAX_LENGTH {
    } else {
      var n := Taken(h.length, |bs|);
      assert n == Taken(h.length, |bs + more|);
      assert (bs + more)[..n] == bs[..n] && (bs + more)[n..] == bs[n..] + more;
      ParseExtends(bs[n..], more);
      ExtendAfter([Message(h.kind, bs[..n])], Parse(bs[n..]), more);
    }
  }

  lemma ResumeExtends(s: Parsed, more: seq<byte>)
    requires IsState(s)
    ensures IsState(Resume(s)) && Settled(Resume(s))
    ensures Resume(Extend(s, more)) == Resume(Extend(Resume(s), more))
  {
    match s.tail
    case Aborted(_) =>
    case Partial(bs) =>
      ParseExtends(bs, more);
      ExtendAfter(s.messages, Parse(bs), more);
    case Waiting(h, bs) =>
      BodyExtends(h, bs, more);
      ExtendAfter(s.messages, ParseBody(h, bs), more);
  }

  lemma AtBoundary(before: seq<byte>, a: seq<byte>, b: seq<byte>)
    requires Parse(before).tail == Partial([])
    ensures Parse(before + a + b) == After(Parse(before).messages, Parse(a + b))
  {
    ParseExtends(before, a + b);
    assert before + a + b == before + (a + b) && [] + (a + b) == a + b;
  }

  lemma HeaderFields(high: byte, rest: seq<byte>)
    requires |rest| >= HEADER_SIZE - 1
    ensures HeaderKind([high] + rest) == rest[0] && ([high] + rest)[6..] == rest[5..]
    ensures HeaderLength([high] + rest) == ToInt32(FromBigEndian32(rest[1..5]))
  {
    var bs := [high] + rest;
    assert bs[0..2] == [high, rest[0]] && bs[2..6] == rest[1..5];
  }

  /** The high byte of the type makes no difference: neither to the reader, whenever it comes to a header,
      nor to the meaning of the stream, wherever in it a header starts. */
  lemma TypeHighByteIgnored(before: seq<byte>, high: byte, high': byte, rest: seq<byte>)
    requires |rest| >= HEADER_SIZE - 1
    ensures forall ms :: ReadLoop(Parsed(ms, Partial([high] + rest))) == ReadLoop(Parsed(ms, Partial([high'] + rest)))
    ensures Parse(before).tail == Partial([]) ==> Parse(before + [high] + rest) == Parse(before + [high'] + rest)
  {
    HeaderFields(high, rest);
    HeaderFields(high', rest);
    assert Parse([high] + rest) == Parse([high'] + rest);
    if Parse(before).tail == Partial([]) {
      AtBoundary(before, [high], rest);
      AtBoundary(before, [high'], rest);
    }
  }

  /** For every stream and every way of cutting it into deliveries: what was handed on is a prefix of
      the stream's messages, and what is still unread leads to the rest of them. */
  lemma {:induction false} NothingLost(s: Parsed, ds: seq<seq<byte>>)
    requires IsState(s)
    ensures IsState(ReceiveAll(s, ds))
    ensures Resume(ReceiveAll(s, ds)) == Resume(Extend(s, Flatten(ds)))
    ensures ReceiveAll(s, ds).messages <= Resume(Extend(s, Flatten(ds))).messages
    decreases |ds|
  {
    if ds == [] {
      assert Extend(s, []) == s;
    } else {
      var next := Extend(s, ds[0]);
      LoopResumes(next);
      NothingLost(ReadLoop(next), ds[1..]);
      ResumeExtends(next, Flatten(ds[1..]));
      ResumeExtends(ReadLoop(next), Flatten(ds[1..]));
      assert Extend(next, Flatten(ds[1..])) == Extend(s, Flatten(ds)) by {
        if !s.tail.Aborted? {
          assert s.tail.bytes + ds[0] + Flatten(ds[1..]) == s.tail.bytes + Flatten(ds);
        }
      }
    }
  }

  /** From the state that `seen` leads to, any deliveries lead to the state of the whole stream. */
  lemma {:induction false} EveryScheduleAgrees(seen: seq<byte>, ds: seq<seq<byte>>)
    requires !Stalls(seen + Flatten(ds))
    ensures ReceiveAll(Parse(seen), ds) == Parse(seen + Flatten(ds))
    decreases |ds|
  {
    if ds == [] {
      assert seen + Flatten(ds) == seen;
    } else {
      var now := seen + ds[0];
      assert now + Flatten(ds[1..]) == seen + Flatten(ds);
      ParseExtends(now, Flatten(ds[1..]));
      ParseExtends(seen, ds[0]);
      LoopResumes(Extend(Parse(seen), ds[0]));
      EveryScheduleAgrees(now, ds[1..]);
    }
  }

  lemma AgreesFromStart(ds: seq<seq<byte>>)
    requires !Stalls(Flatten(ds))
    ensures ReceiveAll(FRESH, ds) == Parse(Flatten(ds))
  {
    assert [] + Flatten(ds) == Flatten(ds);
    EveryScheduleAgrees([], ds);
  }

  // ----- When the cutting matters

  /** A state with the bytes that `Parse` leaves: too few for a header, or for the payload announced. */
  ghost predicate Short(s: Parsed) {
    match s.tail
    case Aborted(_) => true
    case Partial(bs) => |bs| < HEADER_SIZE
    case Waiting(h, bs) => h.length != -1 && |bs| < h.length
  }

  lemma {:induction false} ParseIsShort(bs: seq<byte>)
    ensures Short(Parse(bs))
    decreases |bs|, 1
  {
    if |bs| < HEADER_SIZE {
    } else if HeaderLength(bs) == -1 {
      ParseIsShort(bs[6..]);
    } else {
      BodyIsShort(Header(HeaderKind(bs), HeaderLength(bs)), bs[6..]);
    }
  }

  lemma {:induction false} BodyIsShort(h: Header, bs: seq<byte>)
    requires h.length != -1
    ensures Short(ParseBody(h, bs))
    decreases |bs|, 2
  {
    if |bs| >= h.length && h.length <= MAX_LENGTH {
      ParseIsShort(bs[Taken(h.length, |bs|)..]);
    }
  }

  lemma {:induction false} NothingStalls(h: Header, bs: seq<byte>)
    requires h.length != -1 && (bs == [] || |bs| <= h.length)
    ensures !StallsBody(h, bs)
  {
    if |bs| >= h.length && h.length <= MAX_LENGTH {
      assert |bs[Taken(h.length, |bs|)..]| == 0;
    }
  }

  /** One more byte completes at most one header or one payload, so nothing is left to stall on. */
  lemma {:induction false} OneByteNeverStalls(s: Parsed, b: byte)
    requires Short(s)
    ensures !StallsFrom(Extend(s, [b]))
  {
    match s.tail
    case Aborted(_) =>
    case Partial(bs) =>
      var all := bs + [b];
      if |all| == HEADER_SIZE && HeaderLength(all) != -1 {
        NothingStalls(Header(HeaderKind(all), HeaderLength(all)), all[6..]);
      }
    case Waiting(h, bs) =>
      NothingStalls(h, bs + [b]);
  }

  /** The deliveries of one byte each. */
  function Bytewise(bs: seq<byte>): seq<seq<byte>> {
    if bs == [] then [] else [bs[..1]] + Bytewise(bs[1..])
  }

  lemma {:induction false} BytewiseIsAll(bs: seq<byte>)
    ensures Flatten(Bytewise(bs)) == bs
  {
    if bs != [] {
      BytewiseIsAll(bs[1..]);
      assert Bytewise(bs)[1..] == Bytewise(bs[1..]);
    }
  }

  /** Delivered byte by byte, every stream is read as `Parse` says, stalling headers included. */
  lemma {:induction false} BytewiseReadsAll(seen: seq<byte>, bs: seq<byte>)
    ensures ReceiveAll(Parse(seen), Bytewise(bs)) == Parse(seen + bs)
    decreases |bs|
  {
    if bs == [] {
      assert seen + bs == seen;
    } else {
      var now := seen + bs[..1];
      ParseIsShort(seen);
      OneByteNeverStalls(Parse(seen), bs[0]);
      ParseExtends(seen, bs[..1]);
      LoopResumes(Extend(Parse(seen), bs[..1]));
      BytewiseReadsAll(now, bs[1..]);
      assert bs[..1] == [bs[0]] && now + bs[1..] == seen + bs;
      assert Bytewise(bs)[0] == bs[..1] && Bytewise(bs)[1..] == Bytewise(bs[1..]);
    }
  }

  /** A single delivery of a stalling stream falls short of what `Parse` gives. */
  lemma AtOnceStalls(bs: seq<byte>)
    requires Stalls(bs)
    ensures Flatten([bs]) == bs && ReceiveAll(FRESH, [bs]) != Parse(bs)
  {
    var ds := [bs];
    assert ds[1..] == [] && Flatten(ds) == bs + [] == bs;
    assert Extend(FRESH, bs) == Parsed([], Partial(bs)) by { assert [] + bs == bs; }
    assert ReceiveAll(FRESH, ds) == ReceiveAll(Received(FRESH, bs), ds[1..]) == ReadLoop(Parsed([], Partial(bs)));
    LoopResumes(Parsed([], Partial(bs)));
    ParseExtends(bs, []);
  }

  /** Two ways of delivering `bs` that leave the reader in different states. */
  ghost predicate CutsDiffer(bs: seq<byte>, ds: seq<seq<byte>>, ds': seq<seq<byte>>) {
    Flatten(ds) == bs && Flatten(ds') == bs && ReceiveAll(FRESH, ds) != ReceiveAll(FRESH, ds')
  }

  /** How a stream is cut makes a difference exactly when the stream stalls: then delivering it at once
      and byte by byte end differently, and otherwise all ways of cutting it end alike. */
  lemma {:induction false} CuttingMattersIffStalls(bs: seq<byte>)
    ensures Stalls(bs) <==> exists ds, ds' :: CutsDiffer(bs, ds, ds')
  {
    if Stalls(bs) {
      AtOnceStalls(bs);
      BytewiseIsAll(bs);
      BytewiseReadsAll([], bs);
      assert Parse([]) == FRESH && [] + bs == bs;
      assert CutsDiffer(bs, [bs], Bytewise(bs));
    } else {
      forall ds: seq<seq<byte>>, ds': seq<seq<byte>>
        ensures !CutsDiffer(bs, ds, ds')
      {
        if Flatten(ds) == bs && Flatten(ds') == bs {
          AgreesFromStart(ds);
          AgreesFromStart(ds');
        }
      }
    }
  }

  const NO_LENGTH: seq<byte> := [0, 0, 0xff, 0xff, 0xff, 0xff]
  const EMPTY_MESSAGE: seq<byte> := [0, 1, 0, 0, 0, 0]

  lemma ExampleHeaders()
    ensures HeaderLength(NO_LENGTH) == HeaderLength(NO_LENGTH + EMPTY_MESSAGE) == -1
    ensures HeaderKind(EMPTY_MESSAGE) == 1 && HeaderLength(EMPTY_MESSAGE) == 0
  {
    assert NO_LENGTH[2..6] == [0xff, 0xff, 0xff, 0xff];
    assert (NO_LENGTH + EMPTY_MESSAGE)[2..6] == [0xff, 0xff, 0xff, 0xff];
    assert EMPTY_MESSAGE[0..2] == [0, 1] && EMPTY_MESSAGE[2..6] == [0, 0, 0, 0];
  }

  /** Such a stream: a header with length -1 and then an empty message of type 1.  Delivered at once the
      message stays unread; delivered in two halves it is handed on. */
  lemma StallExample()
    ensures Received(FRESH, NO_LENGTH + EMPTY_MESSAGE).messages == []
    ensures Received(Received(FRESH, NO_LENGTH), EMPTY_MESSAGE).messages == [Message(1, [])]
  {
    ExampleHeaders();
    var both := NO_LENGTH + EMPTY_MESSAGE;
    assert [] + both == both && [] + NO_LENGTH == NO_LENGTH && [] + EMPTY_MESSAGE == EMPTY_MESSAGE;
    assert ReadLoop(Parsed([], Partial(both))) == Parsed([], Partial(both[6..]));
    assert NO_LENGTH[6..] == [];
    assert ReadLoop(Parsed([], Partial(NO_LENGTH))) == FRESH;
    assert ReadLoop(Parsed([], Partial(EMPTY_MESSAGE))) == ReadLoop(Parsed([], Waiting(Header(1, 0), [])));
    assert ReadLoop(Parsed([], Waiting(Header(1, 0), []))) == ReadLoop(Parsed([Message(1, [])], Partial([])));
  }

  // ----- Sender and receiver together

  lemma EncodedHeader(m: Message, rest: seq<byte>)
    requires |m.payload| <= MAX_LENGTH
    ensures var bs := Encode(m) + rest;
            && |bs| >= HEADER_SIZE
            && HeaderKind(bs) == m.kind && HeaderLength(bs) == |m.payload|
            && bs[6..] == m.payload + rest
  {
    var bs := Encode(m) + rest;
    assert bs[0..2] == BigEndian16(m.kind);
    assert bs[2..6] == BigEndian32(|m.payload|);
    BigEndian32RoundTrip(|m.payload|);
  }

  /** The receiver's reading of the sender's bytes gives back the messages and never stalls. */
  lemma {:induction false} RoundTrip(ms: seq<Message>)
    ensures Parse(EncodeAll(ms)) == Parsed(Sendable(ms), Partial([]))
    ensures !Stalls(EncodeAll(ms))
  {
    if ms == [] {
    } else {
      var m := ms[0];
      RoundTrip(ms[1..]);
      if |m.payload| <= MAX_LENGTH {
        var rest := EncodeAll(ms[1..]);
        EncodedHeader(m, rest);
        var body := m.payload + rest;
        assert Taken(|m.payload|, |body|) == |m.payload|;
        assert body[..|m.payload|] == m.payload && body[|m.payload|..] == rest;
      } else {
        assert [] + EncodeAll(ms[1..]) == EncodeAll(ms[1..]);
      }
    }
  }

  /** At any moment, for any way the network cuts what the sender wrote: the receiver's state depends
      only on the bytes received so far, its messages are a prefix of the messages sent, and they are
      all of them once every byte has arrived. */
  lemma SentIsReceived(ms: seq<Message>, ds: seq<seq<byte>>)
    requires Flatten(ds) <= EncodeAll(ms)
    ensures ReceiveAll(FRESH, ds) == Parse(Flatten(ds))
    ensures ReceiveAll(FRESH, ds).messages <= Sendable(ms)
    ensures Flatten(ds) == EncodeAll(ms) ==> ReceiveAll(FRESH, ds) == Parsed(Sendable(ms), Partial([]))
  {
    var seen := Flatten(ds);
    var more := EncodeAll(ms)[|seen|..];
    assert seen + more == EncodeAll(ms);
    RoundTrip(ms);
    ParseExtends(seen, more);
    AgreesFromStart(ds);
    ResumeKeepsMessages(Extend(Parse(seen), more));
    assert Flatten(ds) == EncodeAll(ms) ==> more == [];
  }
}
