/** The packet stream on values (src/PacketDataStream.h): what writing and reading do to the stream's
    state, for integers, byte arrays, floats and the nested generic containers. */
module StreamValues {
  import opened Bytes
  import opened Varint

  /** The state of a PacketDataStream: its buffer, position, number of bytes that did not fit, and flag. */
  datatype Stream = Stream(data: seq<byte>, offset: nat, overshoot: u32, ok: bool) {
    predicate Valid() {
      offset <= |data| < 0x1_0000_0000
    }

    function Left(): nat
      requires Valid()
    {
      |data| - offset
    }

    function Rest(): seq<byte>
      requires Valid()
    {
      data[offset..]
    }
  }

  function Zeros(n: nat): (bs: seq<byte>)
    ensures |bs| == n
  {
    seq(n, _ => 0)
  }

  // ----- Writing

  /** append of one byte. */
  function Put(s: Stream, b: byte): (t: Stream)
    requires s.Valid()
    ensures t.Valid() && |t.data| == |s.data|
  {
    if s.offset < |s.data| then Stream(s.data[s.offset := b], s.offset + 1, s.overshoot, s.ok)
    else Stream(s.data, s.offset, AddU32(s.overshoot, 1), false)
  }

  /** append of a block: if it does not fit, the rest of the buffer is zeroed instead. */
  function PutBlock(s: Stream, bs: seq<byte>): (t: Stream)
    requires s.Valid()
    ensures t.Valid() && |t.data| == |s.data|
  {
    if s.Left() >= |bs| then
      Stream(s.data[..s.offset] + bs + s.data[s.offset + |bs|..], s.offset + |bs|, s.overshoot, s.ok)
    else
      Stream(s.data[..s.offset] + Zeros(s.Left()), |s.data|, AddU32(s.overshoot, |bs| - s.Left()), false)
  }

  function PutEach(s: Stream, bs: seq<byte>): (t: Stream)
    requires s.Valid()
    ensures t.Valid() && |t.data| == |s.data|
    decreases |bs|
  {
    if bs == [] then s else PutEach(Put(s, bs[0]), bs[1..])
  }

  // ----- Values and their types

  /** The types the stream operators nest: integers of some width (bool is one), byte arrays (strings
      are sent as such), floats as their four bytes, lists, sets and pairs. */
  datatype Type =
    | Integer(bytes: nat, signed: bool)
    | ByteArray
    | Float
    | List(elem: Type)
    | Set(elem: Type)
    | Pair(first: Type, second: Type)

  /** A set is the sequence of its elements in iteration order. */
  datatype Value =
    | Int(n: int)
    | Bytes(bs: seq<byte>)
    | Four(raw: seq<byte>)
    | ListOf(elems: seq<Value>)
    | SetOf(elems: seq<Value>)
    | PairOf(a: Value, b: Value)

  /** Sizes are those of Qt containers, which are signed 32-bit numbers. */
  predicate IsSize(n: nat) {
    n < 0x8000_0000
  }

  /** Each of `vs` differs from those before it and from all of `before`. */
  predicate Distinct(before: seq<Value>, vs: seq<Value>)
    decreases |vs|
  {
    vs == [] || (vs[0] !in before && Distinct(before + [vs[0]], vs[1..]))
  }

  predicate WellFormed(t: Type) {
    match t
    case Integer(bytes, _) => bytes in {1, 2, 4, 8}
    case ByteArray => true
    case Float => true
    case List(e) => WellFormed(e)
    case Set(e) => WellFormed(e)
    case Pair(a, b) => WellFormed(a) && WellFormed(b)
  }

  predicate HasType(v: Value, t: Type)
    requires WellFormed(t)
    decreases t, 0
  {
    match t
    case Integer(bytes, signed) => v.Int? && Fits(v.n, bytes, signed)
    case ByteArray => v.Bytes? && IsSize(|v.bs|)
    case Float => v.Four? && |v.raw| == 4
    case List(e) => v.ListOf? && IsSize(|v.elems|) && AllHaveType(v.elems, e)
    case Set(e) => v.SetOf? && IsSize(|v.elems|) && Distinct([], v.elems) && AllHaveType(v.elems, e)
    case Pair(a, b) => v.PairOf? && HasType(v.a, a) && HasType(v.b, b)
  }

  predicate AllHaveType(vs: seq<Value>, t: Type)
    requires WellFormed(t)
    decreases t, 1, |vs|
  {
    vs == [] || (HasType(vs[0], t) && AllHaveType(vs[1..], t))
  }

  /** The bytes of a value. */
  function Serialize(v: Value): (bs: seq<byte>)
    decreases v, 0
  {
    match v
    case Int(n) => Encode(ToU64(n))
    case Bytes(bs) => Encode(ToU64(|bs|)) + bs
    case Four(raw) => raw
    case ListOf(vs) => Encode(ToU64(|vs|)) + SerializeAll(vs)
    case SetOf(vs) => Encode(ToU64(|vs|)) + SerializeAll(vs)
    case PairOf(a, b) => Serialize(a) + Serialize(b)
  }

  function SerializeAll(vs: seq<Value>): (bs: seq<byte>)
    decreases vs, 0
  {
    if vs == [] then [] else Serialize(vs[0]) + SerializeAll(vs[1..])
  }

  /** Writing a value with the << operators. */
  function Write(s: Stream, v: Value): (t: Stream)
    requires s.Valid()
    ensures t.Valid() && |t.data| == |s.data|
    decreases v, 0
  {
    match v
    case Int(n) => PutEach(s, Encode(ToU64(n)))
    case Bytes(bs) => PutBlock(PutEach(s, Encode(ToU64(|bs|))), bs)
    case Four(raw) => PutEach(s, raw)
    case ListOf(vs) => WriteAll(PutEach(s, Encode(ToU64(|vs|))), vs)
    case SetOf(vs) => WriteAll(PutEach(s, Encode(ToU64(|vs|))), vs)
    case PairOf(a, b) => Write(Write(s, a), b)
  }

  function WriteAll(s: Stream, vs: seq<Value>): (t: Stream)
    requires s.Valid()
    ensures t.Valid() && |t.data| == |s.data|
    decreases vs, 0
  {
    if vs == [] then s else WriteAll(Write(s, vs[0]), vs[1..])
  }

  // ----- What every write amounts to

  /** From `s` to `t` the bytes `bs` were written: if they fit, they are in the buffer and nothing else
      changed; if not, the buffer is full, what came before is untouched, and what did not fit is
      counted. */
  ghost predicate Wrote(s: Stream, t: Stream, bs: seq<byte>)
    requires s.Valid()
  {
    if |bs| <= s.Left() then
      t == Stream(s.data[..s.offset] + bs + s.data[s.offset + |bs|..], s.offset + |bs|, s.overshoot, s.ok)
    else
      && |t.data| == |s.data| && t.offset == |s.data| && !t.ok
      && t.data[..s.offset] == s.data[..s.offset]
      && t.overshoot == AddU32(s.overshoot, |bs| - s.Left())
  }

  lemma AddU32Twice(a: u32, m: nat, n: nat)
    ensures AddU32(AddU32(a, m), n) == AddU32(a, m + n)
  {
  }

  lemma WroteNothing(s: Stream)
    requires s.Valid()
    ensures Wrote(s, s, [])
  {
    assert s.data[..s.offset] + [] + s.data[s.offset..] == s.data;
  }

  lemma BothFit(s: Stream, t: Stream, u: Stream, a: seq<byte>, b: seq<byte>)
    requires s.Valid() && t.Valid() && Wrote(s, t, a) && Wrote(t, u, b) && |a + b| <= s.Left()
    ensures Wrote(s, u, a + b)
  {
    assert t.data[..t.offset] == s.data[..s.offset] + a;
    assert t.data[t.offset + |b|..] == s.data[s.offset + |a + b|..];
    assert s.data[..s.offset] + a + b == s.data[..s.offset] + (a + b);
  }

  lemma FirstFits(s: Stream, t: Stream, u: Stream, a: seq<byte>, b: seq<byte>)
    requires s.Valid() && t.Valid() && Wrote(s, t, a) && Wrote(t, u, b) && |a| <= s.Left() < |a + b|
    ensures Wrote(s, u, a + b)
  {
    assert t.data[..t.offset][..s.offset] == s.data[..s.offset];
    assert u.data[..t.offset][..s.offset] == u.data[..s.offset];
  }

  lemma WroteBoth(s: Stream, t: Stream, u: Stream, a: seq<byte>, b: seq<byte>)
    requires s.Valid() && t.Valid() && Wrote(s, t, a) && Wrote(t, u, b)
    ensures Wrote(s, u, a + b)
  {
    if |a + b| <= s.Left() {
      BothFit(s, t, u, a, b);
    } else if |a| <= s.Left() {
      FirstFits(s, t, u, a, b);
    } else {
      AddU32Twice(s.overshoot, |a| - s.Left(), |b|);
      assert t.data[t.offset..] == [];
      if b == [] {
        assert u.data == t.data;
      } else {
        assert u.data[..t.offset][..s.offset] == u.data[..s.offset];
      }
    }
  }

  lemma PutWrote(s: Stream, b: byte)
    requires s.Valid()
    ensures Wrote(s, Put(s, b), [b])
  {
  }

  lemma PutBlockWrote(s: Stream, bs: seq<byte>)
    requires s.Valid()
    ensures Wrote(s, PutBlock(s, bs), bs)
  {
  }

  /** A block that does not fit leaves zeros in the rest of the buffer, and is counted for what is missing. */
  lemma BlockZeroFills(s: Stream, bs: seq<byte>)
    requires s.Valid() && |bs| > |s.data| - s.offset
    ensures var t := PutBlock(s, bs);
            && t.offset == |s.data| == |t.data| && !t.ok && t.data[..s.offset] == s.data[..s.offset]
            && (forall k :: s.offset <= k < |s.data| ==> t.data[k] == 0)
            && t.overshoot == (s.overshoot + |bs| - (|s.data| - s.offset)) % 0x1_0000_0000
  {
  }

  lemma {:induction false} PutEachWrote(s: Stream, bs: seq<byte>)
    requires s.Valid()
    ensures Wrote(s, PutEach(s, bs), bs)
    decreases |bs|
  {
    if bs == [] {
      WroteNothing(s);
    } else {
      PutWrote(s, bs[0]);
      PutEachWrote(Put(s, bs[0]), bs[1..]);
      WroteBoth(s, Put(s, bs[0]), PutEach(s, bs), [bs[0]], bs[1..]);
      assert [bs[0]] + bs[1..] == bs;
    }
  }

  lemma {:induction false} PutEachConcat(s: Stream, a: seq<byte>, b: seq<byte>)
    requires s.Valid()
    ensures PutEach(s, a + b) == PutEach(PutEach(s, a), b)
    decreases |a|
  {
    if a == [] {
      assert a + b == b;
    } else {
      assert (a + b)[1..] == a[1..] + b;
      PutEachConcat(Put(s, a[0]), a[1..], b);
    }
  }

  /** Every value, however nested and whether or not it fits, is written as its bytes. */
  lemma {:induction false} WriteWrote(s: Stream, v: Value)
    requires s.Valid()
    ensures Wrote(s, Write(s, v), Serialize(v))
    decreases v, 0
  {
    match v
    case Int(n) =>
      PutEachWrote(s, Encode(ToU64(n)));
    case Bytes(bs) =>
      PutEachWrote(s, Encode(ToU64(|bs|)));
      WroteBoth(s, PutEach(s, Encode(ToU64(|bs|))), Write(s, v), Encode(ToU64(|bs|)), bs);
    case Four(raw) =>
      PutEachWrote(s, raw);
    case ListOf(vs) =>
      PutEachWrote(s, Encode(ToU64(|vs|)));
      WriteAllWrote(PutEach(s, Encode(ToU64(|vs|))), vs);
      WroteBoth(s, PutEach(s, Encode(ToU64(|vs|))), Write(s, v), Encode(ToU64(|vs|)), SerializeAll(vs));
    case SetOf(vs) =>
      PutEachWrote(s, Encode(ToU64(|vs|)));
      WriteAllWrote(PutEach(s, Encode(ToU64(|vs|))), vs);
      WroteBoth(s, PutEach(s, Encode(ToU64(|vs|))), Write(s, v), Encode(ToU64(|vs|)), SerializeAll(vs));
    case PairOf(a, b) =>
      WriteWrote(s, a);
      WriteWrote(Write(s, a), b);
      WroteBoth(s, Write(s, a), Write(s, v), Serialize(a), Serialize(b));
  }

  lemma {:induction false} WriteAllWrote(s: Stream, vs: seq<Value>)
    requires s.Valid()
    ensures Wrote(s, WriteAll(s, vs), SerializeAll(vs))
    decreases vs, 0
  {
    if vs == [] {
      WroteNothing(s);
    } else {
      WriteWrote(s, vs[0]);
      WriteAllWrote(Write(s, vs[0]), vs[1..]);
      WroteBoth(s, Write(s, vs[0]), WriteAll(s, vs), Serialize(vs[0]), SerializeAll(vs[1..]));
    }
  }

  function Fresh(buffer: seq<byte>): Stream {
    Stream(buffer, 0, 0, true)
  }

  /** What was written into a fresh stream stands at its front, if it fitted. */
  lemma FreshWrote(buffer: seq<byte>, t: Stream, bs: seq<byte>)
    requires |buffer| < 0x1_0000_0000 && Wrote(Fresh(buffer), t, bs)
    ensures t.ok <==> |bs| <= |buffer|
    ensures t.ok ==> t.offset == |bs| <= |t.data| && t.data[..t.offset] == bs
  {
  }

  lemma Totals(buffer: seq<byte>, t: Stream, bs: seq<byte>)
    requires |buffer| < 0x1_0000_0000 && Wrote(Fresh(buffer), t, bs)
    ensures |bs| < 0x1_0000_0000 ==> t.offset + t.overshoot == |bs|
    ensures (t.offset + t.overshoot) % 0x1_0000_0000 == |bs| % 0x1_0000_0000
    ensures t.ok <==> |bs| <= |buffer|
    ensures t.ok ==> t == Stream(bs + buffer[|bs|..], |bs|, 0, true)
  {
  }

  /** Any sequence of writes into a buffer: size() + undersize() is the length of all the bytes, and the
      stream is valid exactly when they fit. */
  lemma SizesAddUp(buffer: seq<byte>, vs: seq<Value>)
    requires |buffer| < 0x1_0000_0000
    ensures var t := WriteAll(Fresh(buffer), vs); var total := |SerializeAll(vs)|;
            && (total < 0x1_0000_0000 ==> t.offset + t.overshoot == total)
            && (t.offset + t.overshoot) % 0x1_0000_0000 == total % 0x1_0000_0000
            && (t.ok <==> total <= |buffer|)
            && (t.ok ==> t == Stream(SerializeAll(vs) + buffer[total..], total, 0, true))
  {
    WriteAllWrote(Fresh(buffer), vs);
    Totals(buffer, WriteAll(Fresh(buffer), vs), SerializeAll(vs));
  }

  // ----- Reading

  /** The stream after `n` calls of next(): past the end the position stays and the flag drops. */
  function Advance(s: Stream, n: nat): (t: Stream)
    requires s.Valid()
    ensures t.Valid() && t.data == s.data && t.offset >= s.offset
  {
    Stream(s.data, if n <= s.Left() then s.offset + n else |s.data|, s.overshoot, s.ok && n <= s.Left())
  }

  lemma AdvanceTwice(s: Stream, m: nat, n: nat)
    requires s.Valid()
    ensures Advance(Advance(s, m), n) == Advance(s, m + n)
  {
  }

  lemma AtAdvanced(s: Stream, m: nat, k: nat)
    requires s.Valid()
    ensures At(Advance(s, m).Rest(), k) == At(s.Rest(), m + k)
  {
  }

  lemma At32Advanced(s: Stream, m: nat, k: nat)
    requires s.Valid()
    ensures At32(Advance(s, m).Rest(), k) == At32(s.Rest(), m + k)
  {
    AtAdvanced(s, m, k);
    AtAdvanced(s, m, k + 1);
    AtAdvanced(s, m, k + 2);
    AtAdvanced(s, m, k + 3);
  }

  /** >> of a 64-bit integer. */
  function ReadU64(s: Stream): (t: (Stream, u64))
    requires s.Valid()
    ensures t.0.Valid() && t.0.data == s.data
  {
    var d := Decode(s.Rest());
    (Advance(s, d.asked), d.value)
  }

  /** A length, read as quint32 and cut down to what is left. */
  function ReadLength(s: Stream): (t: (Stream, nat))
    requires s.Valid()
    ensures t.0.Valid() && t.0.data == s.data && t.1 <= t.0.Left()
  {
    var (s1, v) := ReadU64(s);
    var len := Narrow(v, 4, false);
    if len > s1.Left() then (s1.(ok := false), s1.Left()) else (s1, len)
  }

  /** The four next8() of a float. */
  function ReadFour(s: Stream): (t: (Stream, seq<byte>))
    requires s.Valid()
    ensures t.0.Valid() && t.0.data == s.data
  {
    var bs := s.Rest();
    (Advance(s, 4), [At(bs, 0), At(bs, 1), At(bs, 2), At(bs, 3)])
  }

  function Insert(vs: seq<Value>, v: Value): seq<Value> {
    if v in vs then vs else vs + [v]
  }

  function Read(s: Stream, t: Type): (r: (Stream, Value))
    requires s.Valid() && WellFormed(t)
    ensures r.0.Valid() && r.0.data == s.data
    decreases t, 0
  {
    match t
    case Integer(bytes, signed) =>
      var (s1, v) := ReadU64(s);
      (s1, Int(Narrow(v, bytes, signed)))
    case ByteArray =>
      var (s1, len) := ReadLength(s);
      (s1.(offset := s1.offset + len), Bytes(s1.data[s1.offset..s1.offset + len]))
    case Float =>
      var (s1, raw) := ReadFour(s);
      (s1, Four(raw))
    case List(e) =>
      var (s1, len) := ReadLength(s);
      var (s2, vs) := ReadElems(s1, e, len, [], false);
      (s2, ListOf(vs))
    case Set(e) =>
      var (s1, len) := ReadLength(s);
      var (s2, vs) := ReadElems(s1, e, len, [], true);
      (s2, SetOf(vs))
    case Pair(a, b) =>
      var (s1, v) := Read(s, a);
      var (s2, w) := Read(s1, b);
      (s2, PairOf(v, w))
  }

  /** The loop over `n` elements, which stops when the bytes run out. */
  function ReadElems(s: Stream, e: Type, n: nat, acc: seq<Value>, asSet: bool): (r: (Stream, seq<Value>))
    requires s.Valid() && WellFormed(e)
    ensures r.0.Valid() && r.0.data == s.data
    decreases e, 1, n
  {
    if n == 0 then (s, acc)
    else if s.Left() == 0 then (s.(ok := false), acc)
    else
      var (s1, v) := Read(s, e);
      ReadElems(s1, e, n - 1, if asSet then Insert(acc, v) else acc + [v], asSet)
  }

  // ----- Reading back what was written

  function Skipped(s: Stream, n: nat): Stream {
    s.(offset := s.offset + n)
  }

  /** What is left to read is `bs` and then `rest`. */
  ghost predicate Holds(s: Stream, bs: seq<byte>, rest: seq<byte>) {
    s.Valid() && s.Rest() == bs + rest
  }

  lemma HoldsNext(s: Stream, a: seq<byte>, rest: seq<byte>)
    requires Holds(s, a, rest)
    ensures Skipped(s, |a|).Valid() && Skipped(s, |a|).Rest() == rest
    ensures s.data[s.offset..s.offset + |a|] == a
  {
    assert |s.Rest()| == |a| + |rest|;
    assert Skipped(s, |a|).Rest() == s.Rest()[|a|..];
    assert s.data[s.offset..s.offset + |a|] == s.Rest()[..|a|];
  }

  lemma HoldsBoth(s: Stream, a: seq<byte>, b: seq<byte>, rest: seq<byte>)
    requires Holds(s, a + b, rest)
    ensures Holds(s, a, b + rest) && Holds(Skipped(s, |a|), b, rest)
    ensures Skipped(Skipped(s, |a|), |b|) == Skipped(s, |a + b|)
  {
    assert (a + b) + rest == a + (b + rest);
    HoldsNext(s, a, b + rest);
  }

  lemma IntegerReadsBack(s: Stream, v: u64, rest: seq<byte>)
    requires Holds(s, Encode(v), rest)
    ensures ReadU64(s) == (Skipped(s, |Encode(v)|), v)
  {
    Varint.RoundTrip(v, rest);
    HoldsNext(s, Encode(v), rest);
  }

  lemma LengthReadsBack(s: Stream, n: nat, body: seq<byte>, rest: seq<byte>)
    requires IsSize(n) && n <= |body| && Holds(s, Encode(ToU64(n)) + body, rest)
    ensures ReadLength(s) == (Skipped(s, |Encode(ToU64(n))|), n)
  {
    var head := Encode(ToU64(n));
    HoldsBoth(s, head, body, rest);
    IntegerReadsBack(s, ToU64(n), body + rest);
    NarrowInverts(n, 4, false);
    assert |Skipped(s, |head|).Rest()| == |body + rest|;
  }

  lemma {:induction false} AtLeastOneByte(v: Value, t: Type)
    requires WellFormed(t) && HasType(v, t)
    ensures |Serialize(v)| >= 1
    decreases t
  {
    match t
    case Pair(a, b) => AtLeastOneByte(v.a, a);
    case _ =>
  }

  lemma {:induction false} AtLeastOneByteEach(vs: seq<Value>, t: Type)
    requires WellFormed(t) && AllHaveType(vs, t)
    ensures |SerializeAll(vs)| >= |vs|
  {
    if vs != [] {
      AtLeastOneByte(vs[0], t);
      AtLeastOneByteEach(vs[1..], t);
    }
  }

  lemma BytesReadBack(s: Stream, bs: seq<byte>, rest: seq<byte>)
    requires IsSize(|bs|) && Holds(s, Encode(ToU64(|bs|)) + bs, rest)
    ensures Read(s, ByteArray) == (Skipped(s, |Encode(ToU64(|bs|)) + bs|), Bytes(bs))
  {
    var head := Encode(ToU64(|bs|));
    LengthReadsBack(s, |bs|, bs, rest);
    HoldsBoth(s, head, bs, rest);
    HoldsNext(Skipped(s, |head|), bs, rest);
    assert Read(s, ByteArray) == (Skipped(Skipped(s, |head|), |bs|), Bytes(bs));
  }

  lemma FourReadsBack(s: Stream, raw: seq<byte>, rest: seq<byte>)
    requires |raw| == 4 && Holds(s, raw, rest)
    ensures ReadFour(s) == (Skipped(s, 4), raw)
  {
    var bs := s.Rest();
    assert bs[0] == raw[0] && bs[1] == raw[1] && bs[2] == raw[2] && bs[3] == raw[3];
    assert raw == [raw[0], raw[1], raw[2], raw[3]];
  }

  lemma ContainerHead(s: Stream, n: nat, body: seq<byte>, rest: seq<byte>)
    requires IsSize(n) && n <= |body| && Holds(s, Encode(ToU64(n)) + body, rest)
    ensures var s1 := Skipped(s, |Encode(ToU64(n))|);
            && ReadLength(s) == (s1, n) && Holds(s1, body, rest)
            && Skipped(s1, |body|) == Skipped(s, |Encode(ToU64(n)) + body|)
  {
    LengthReadsBack(s, n, body, rest);
    HoldsBoth(s, Encode(ToU64(n)), body, rest);
  }

  lemma {:induction false} HoldsFirst(s: Stream, vs: seq<Value>, rest: seq<byte>)
    requires vs != [] && Holds(s, SerializeAll(vs), rest)
    ensures Holds(s, Serialize(vs[0]), SerializeAll(vs[1..]) + rest)
    ensures Holds(Skipped(s, |Serialize(vs[0])|), SerializeAll(vs[1..]), rest)
    ensures Skipped(Skipped(s, |Serialize(vs[0])|), |SerializeAll(vs[1..])|) == Skipped(s, |SerializeAll(vs)|)
  {
    HoldsBoth(s, Serialize(vs[0]), SerializeAll(vs[1..]), rest);
  }

  lemma FromNothing(vs: seq<Value>)
    ensures [] + vs == vs
  {
  }

  lemma OneMore(acc: seq<Value>, vs: seq<Value>)
    requires vs != []
    ensures acc + vs == (acc + [vs[0]]) + vs[1..]
  {
  }

  /** Every well-typed value is read back equal from a stream that holds its bytes, consuming exactly
      these and leaving the validity flag alone: no length is cut down and no loop stops early. */
  lemma {:induction false} ReadsBack(s: Stream, v: Value, t: Type, rest: seq<byte>)
    requires WellFormed(t) && HasType(v, t) && Holds(s, Serialize(v), rest)
    ensures Read(s, t) == (Skipped(s, |Serialize(v)|), v)
    decreases t, 1, 0
  {
    match t
    case Integer(bytes, signed) =>
      IntegerReadsBack(s, ToU64(v.n), rest);
      NarrowInverts(v.n, bytes, signed);
      assert Read(s, t) == (Skipped(s, |Serialize(v)|), v);
    case ByteArray =>
      BytesReadBack(s, v.bs, rest);
    case Float =>
      FourReadsBack(s, v.raw, rest);
      assert Read(s, t) == (Skipped(s, |Serialize(v)|), v);
    case List(e) =>
      AtLeastOneByteEach(v.elems, e);
      ContainerReadsBack(s, v.elems, e, false, rest);
      assert Read(s, t) == (Skipped(s, |Serialize(v)|), v);
    case Set(e) =>
      AtLeastOneByteEach(v.elems, e);
      ContainerReadsBack(s, v.elems, e, true, rest);
      assert Read(s, t) == (Skipped(s, |Serialize(v)|), v);
    case Pair(a, b) =>
      PairReadsBack(s, v.a, v.b, a, b, rest);
  }

  lemma {:induction false} PairReadsBack(s: Stream, v: Value, w: Value, a: Type, b: Type, rest: seq<byte>)
    requires WellFormed(Pair(a, b)) && HasType(v, a) && HasType(w, b) && Holds(s, Serialize(v) + Serialize(w), rest)
    ensures Read(s, Pair(a, b)) == (Skipped(s, |Serialize(v) + Serialize(w)|), PairOf(v, w))
    decreases Pair(a, b), 0, 0
  {
    HoldsBoth(s, Serialize(v), Serialize(w), rest);
    ReadsBack(s, v, a, Serialize(w) + rest);
    ReadsBack(Skipped(s, |Serialize(v)|), w, b, rest);
  }

  lemma {:induction false} ContainerReadsBack(s: Stream, vs: seq<Value>, e: Type, asSet: bool, rest: seq<byte>)
    requires WellFormed(e) && IsSize(|vs|) && AllHaveType(vs, e)
    requires asSet ==> Distinct([], vs)
    requires |vs| <= |SerializeAll(vs)| && Holds(s, Encode(ToU64(|vs|)) + SerializeAll(vs), rest)
    ensures ReadLength(s) == (Skipped(s, |Encode(ToU64(|vs|))|), |vs|)
    ensures Skipped(s, |Encode(ToU64(|vs|))|).Valid()
    ensures ReadElems(Skipped(s, |Encode(ToU64(|vs|))|), e, |vs|, [], asSet) ==
            (Skipped(s, |Encode(ToU64(|vs|)) + SerializeAll(vs)|), vs)
    decreases e, 3, 0
  {
    ContainerHead(s, |vs|, SerializeAll(vs), rest);
    FromNothing(vs);
    ElemsReadBack(Skipped(s, |Encode(ToU64(|vs|))|), vs, e, [], asSet, rest,
                  Skipped(s, |Encode(ToU64(|vs|)) + SerializeAll(vs)|), vs);
  }

  lemma {:induction false} ElemsReadBack(s: Stream, vs: seq<Value>, e: Type, acc: seq<Value>, asSet: bool,
                                          rest: seq<byte>, end: Stream, all: seq<Value>)
    requires WellFormed(e) && AllHaveType(vs, e)
    requires Holds(s, SerializeAll(vs), rest)
    requires asSet ==> Distinct(acc, vs)
    requires end == Skipped(s, |SerializeAll(vs)|) && all == acc + vs
    ensures ReadElems(s, e, |vs|, acc, asSet) == (end, all)
    decreases e, 2, |vs|
  {
    if vs == [] {
      assert acc + vs == acc;
    } else {
      var v, vs' := vs[0], vs[1..];
      HoldsFirst(s, vs, rest);
      OneMore(acc, vs);
      FirstElement(s, v, e, |vs|, acc, asSet, SerializeAll(vs') + rest);
      ElemsReadBack(Skipped(s, |Serialize(v)|), vs', e, acc + [v], asSet, rest, end, all);
    }
  }

  lemma {:induction false} FirstElement(s: Stream, v: Value, e: Type, n: nat, acc: seq<Value>, asSet: bool, rest: seq<byte>)
    requires WellFormed(e) && HasType(v, e) && n > 0 && Holds(s, Serialize(v), rest)
    requires asSet ==> v !in acc
    ensures Skipped(s, |Serialize(v)|).Valid()
    ensures ReadElems(s, e, n, acc, asSet) == ReadElems(Skipped(s, |Serialize(v)|), e, n - 1, acc + [v], asSet)
    decreases e, 1, 1
  {
    AtLeastOneByte(v, e);
    HoldsNext(s, Serialize(v), rest);
    ReadsBack(s, v, e, rest);
  }

  function ReadSequence(s: Stream, ts: seq<Type>): (r: (Stream, seq<Value>))
    requires s.Valid() && forall i :: 0 <= i < |ts| ==> WellFormed(ts[i])
    ensures r.0.Valid()
    decreases |ts|
  {
    if ts == [] then (s, [])
    else
      var (s1, v) := Read(s, ts[0]);
      var (s2, vs) := ReadSequence(s1, ts[1..]);
      (s2, [v] + vs)
  }

  /** Values written one after the other are read back one after the other. */
  lemma {:induction false} SequenceReadsBack(s: Stream, vs: seq<Value>, ts: seq<Type>, rest: seq<byte>)
    requires |vs| == |ts|
    requires forall i :: 0 <= i < |ts| ==> WellFormed(ts[i]) && HasType(vs[i], ts[i])
    requires Holds(s, SerializeAll(vs), rest)
    ensures ReadSequence(s, ts) == (Skipped(s, |SerializeAll(vs)|), vs)
    decreases |vs|
  {
    if vs != [] {
      var s1, vs' := Skipped(s, |Serialize(vs[0])|), vs[1..];
      HoldsBoth(s, Serialize(vs[0]), SerializeAll(vs'), rest);
      ReadsBack(s, vs[0], ts[0], SerializeAll(vs') + rest);
      SequenceReadsBack(s1, vs', ts[1..], rest);
      assert [vs[0]] + vs' == vs;
    }
  }

  /** Writing and reading together: the stream is valid exactly when the bytes fit, and then reading
      from the start gives the values and ends where writing ended. */
  lemma WriteThenRead(buffer: seq<byte>, vs: seq<Value>, ts: seq<Type>)
    requires |buffer| < 0x1_0000_0000 && |vs| == |ts|
    requires forall i :: 0 <= i < |ts| ==> WellFormed(ts[i]) && HasType(vs[i], ts[i])
    requires WriteAll(Fresh(buffer), vs).ok
    ensures var t := WriteAll(Fresh(buffer), vs);
            ReadSequence(Fresh(t.data), ts) == (Stream(t.data, t.offset, 0, true), vs)
  {
    SizesAddUp(buffer, vs);
    var t := WriteAll(Fresh(buffer), vs);
    var rest := buffer[|SerializeAll(vs)|..];
    assert Fresh(t.data).Rest() == t.data == SerializeAll(vs) + rest;
    SequenceReadsBack(Fresh(t.data), vs, ts, rest);
  }
}
