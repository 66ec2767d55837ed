/** The packet stream object (src/PacketDataStream.h): a cursor over a region of a byte buffer that
    belongs to someone else.  Each operator is proved against its meaning on values. */
module PacketStream {
  import opened Buffers
  import opened Bytes
  import opened Varint
  import opened StreamValues

  lemma SpliceInside(bs: seq<byte>, at: nat, d: seq<byte>, lo: nat, n: nat)
    requires lo <= at && at + |d| <= lo + n <= |bs|
    ensures var r := Splice(bs, at, d);
            && r[..lo] == bs[..lo] && r[lo + n..] == bs[lo + n..]
            && r[lo..lo + n] == Splice(bs[lo..lo + n], at - lo, d)
  {
    var r, part := Splice(bs, at, d), bs[lo..lo + n];
    assert bs[..at] == bs[..lo] + part[..at - lo];
    assert bs[at + |d|..] == part[at - lo + |d|..] + bs[lo + n..];
    assert r == bs[..lo] + Splice(part, at - lo, d) + bs[lo + n..];
  }

  lemma PutOne(s: Stream, a: byte)
    requires s.Valid()
    ensures PutEach(s, [a]) == Put(s, a)
  {
    assert [a][1..] == [];
  }

  lemma PutTwo(s: Stream, a: byte, b: byte)
    requires s.Valid()
    ensures PutEach(s, [a, b]) == Put(Put(s, a), b)
  {
    PutOne(Put(s, a), b);
    assert [a, b][1..] == [b];
  }

  lemma PutThree(s: Stream, a: byte, b: byte, c: byte)
    requires s.Valid()
    ensures PutEach(s, [a, b, c]) == Put(Put(Put(s, a), b), c)
  {
    PutTwo(Put(s, a), b, c);
    assert [a, b, c][1..] == [b, c];
  }

  lemma PutFour(s: Stream, a: byte, b: byte, c: byte, d: byte)
    requires s.Valid()
    ensures PutEach(s, [a, b, c, d]) == Put(Put(Put(Put(s, a), b), c), d)
  {
    PutThree(Put(s, a), b, c, d);
    assert [a, b, c, d][1..] == [b, c, d];
  }

  class PacketDataStream {
    const buffer: array<byte>
    const base: nat
    const maxsize: nat
    var offset: nat
    var overshoot: u32
    var ok: bool

    ghost predicate Valid()
      reads this, buffer
    {
      base + maxsize <= buffer.Length && offset <= maxsize < 0x1_0000_0000
    }

    ghost function View(): (s: Stream)
      requires Valid()
      reads this, buffer
      ensures s.Valid()
    {
      Stream(buffer[base..base + maxsize], offset, overshoot, ok)
    }

    /** The part of the buffer that is not the stream's. */
    ghost function Outside(): (seq<byte>, seq<byte>)
      requires Valid()
      reads this, buffer
    {
      (buffer[..base], buffer[base + maxsize..])
    }

    constructor (d: array<byte>, at: nat, msize: nat)
      requires at + msize <= d.Length && msize < 0x1_0000_0000
      ensures Valid() && buffer == d && base == at && maxsize == msize
      ensures View() == Fresh(d[at..at + msize])
    {
      buffer, base, maxsize := d, at, msize;
      offset, overshoot, ok := 0, 0, true;
    }

    // ----- Bytes

    method Append(v: byte)
      requires Valid()
      modifies this, buffer
      ensures Valid() && Outside() == old(Outside())
      ensures View() == Put(old(View()), v)
    {
      if offset < maxsize {
        buffer[base + offset] := v;
        offset := offset + 1;
      } else {
        ok := false;
        overshoot := AddU32(overshoot, 1);
      }
    }

    method AppendBlock(d: seq<byte>)
      requires Valid()
      modifies this, buffer
      ensures Valid() && Outside() == old(Outside())
      ensures View() == PutBlock(old(View()), d)
    {
      var left := maxsize - offset;
      if left >= |d| {
        Fill(d);
        offset := offset + |d|;
      } else {
        Fill(Zeros(left));
        offset := offset + left;
        overshoot := AddU32(overshoot, |d| - left);
        ok := false;
      }
    }

    /** memcpy or memset at the position. */
    method Fill(d: seq<byte>)
      requires Valid() && |d| <= maxsize - offset
      modifies buffer
      ensures Valid() && Outside() == old(Outside())
      ensures View().data == old(View().data)[..offset] + d + old(View().data)[offset + |d|..]
    {
      ghost var before := buffer[..];
      CopyInto(buffer, base + offset, d);
      SpliceInside(before, base + offset, d, base, maxsize);
      assert View().data == buffer[..][base..base + maxsize];
      assert old(View().data) == before[base..base + maxsize];
      assert buffer[..base] == buffer[..][..base] && before[..base] == old(buffer[..base]);
      assert buffer[base + maxsize..] == buffer[..][base + maxsize..];
    }

    method Skip(len: nat)
      requires Valid()
      modifies this`offset, this`ok
      ensures Valid()
      ensures View() == if len <= old(View()).Left() then Advance(old(View()), len) else old(View()).(ok := false)
    {
      if maxsize - offset >= len {
        offset := offset + len;
      } else {
        ok := false;
      }
    }

    method Next() returns (v: byte)
      requires Valid()
      modifies this`offset, this`ok
      ensures Valid() && View() == Advance(old(View()), 1)
      ensures v == At(old(View()).Rest(), 0)
    {
      if offset < maxsize {
        v := buffer[base + offset];
        offset := offset + 1;
      } else {
        ok := false;
        v := 0;
      }
    }

    /** next() twice. */
    method Next2() returns (b1: byte, b0: byte)
      requires Valid()
      modifies this`offset, this`ok
      ensures Valid() && View() == Advance(old(View()), 2)
      ensures b1 == At(old(View()).Rest(), 0) && b0 == At(old(View()).Rest(), 1)
    {
      ghost var s := View();
      AdvanceTwice(s, 1, 1);
      AtAdvanced(s, 1, 0);
      b1 := Next();
      b0 := Next();
    }

    /** next() three times. */
    method Next3() returns (b2: byte, b1: byte, b0: byte)
      requires Valid()
      modifies this`offset, this`ok
      ensures Valid() && View() == Advance(old(View()), 3)
      ensures b2 == At(old(View()).Rest(), 0) && b1 == At(old(View()).Rest(), 1) && b0 == At(old(View()).Rest(), 2)
    {
      ghost var s := View();
      AdvanceTwice(s, 1, 2);
      AtAdvanced(s, 1, 0);
      AtAdvanced(s, 1, 1);
      b2 := Next();
      b1, b0 := Next2();
    }

    /** next() four times, combined as a 32-bit number. */
    method Next32() returns (v: u32)
      requires Valid()
      modifies this`offset, this`ok
      ensures Valid() && View() == Advance(old(View()), 4)
      ensures v == At32(old(View()).Rest(), 0)
    {
      ghost var s := View();
      AdvanceTwice(s, 1, 3);
      AtAdvanced(s, 1, 0);
      AtAdvanced(s, 1, 1);
      AtAdvanced(s, 1, 2);
      var b3 := Next();
      var b2, b1, b0 := Next3();
      v := Number(b3, b2, b1, b0);
    }

    /** next() eight times, combined as a 64-bit number. */
    method Next64() returns (v: u64)
      requires Valid()
      modifies this`offset, this`ok
      ensures Valid() && View() == Advance(old(View()), 8)
      ensures v == Join(At32(old(View()).Rest(), 0), At32(old(View()).Rest(), 4))
    {
      ghost var s := View();
      AdvanceTwice(s, 4, 4);
      At32Advanced(s, 4, 0);
      var high := Next32();
      var low := Next32();
      v := Join(high, low);
    }

    // ----- Integers

    method Append32(i: u32)
      requires Valid()
      modifies this, buffer
      ensures Valid() && Outside() == old(Outside())
      ensures View() == PutEach(old(View()), BigEndian32(i))
    {
      ghost var s := View();
      ghost var bs := BigEndian32(i);
      Append(i / 0x100_0000);
      Append(i / 0x1_0000 % 0x100);
      Append(i / 0x100 % 0x100);
      Append(i % 0x100);
      PutFour(s, bs[0], bs[1], bs[2], bs[3]);
    }

    method WriteU64(value: u64)
      requires Valid()
      modifies this, buffer
      ensures Valid() && Outside() == old(Outside())
      ensures View() == PutEach(old(View()), Encode(value))
    {
      ghost var s := View();
      var i := value;
      if i >= 0x8000_0000_0000_0000 && Complement(i) < 0x1_0000_0000 {
        i := Complement(i);
        if i <= 0x3 {
          Append(0xFC + i);
          PutOne(s, 0xFC + i);
          return;
        } else {
          Append(0xF8);
          PutEachConcat(s, [0xF8], EncodeUnsigned(i));
          PutOne(s, 0xF8);
        }
      }
      WriteUnsigned(i);
    }

    method WriteUnsigned(i: u64)
      requires Valid()
      modifies this, buffer
      ensures Valid() && Outside() == old(Outside())
      ensures View() == PutEach(old(View()), EncodeUnsigned(i))
    {
      ghost var s := View();
      if i < 0x80 {
        Append(i);
        PutOne(s, i);
      } else if i < 0x4000 {
        Append(i / 0x100 + 0x80);
        Append(i % 0x100);
        PutTwo(s, i / 0x100 + 0x80, i % 0x100);
      } else if i < 0x20_0000 {
        Append(i / 0x1_0000 + 0xC0);
        Append(i / 0x100 % 0x100);
        Append(i % 0x100);
        PutThree(s, i / 0x1_0000 + 0xC0, i / 0x100 % 0x100, i % 0x100);
      } else if i < 0x1000_0000 {
        Append(i / 0x100_0000 + 0xE0);
        Append(i / 0x1_0000 % 0x100);
        Append(i / 0x100 % 0x100);
        Append(i % 0x100);
        PutFour(s, i / 0x100_0000 + 0xE0, i / 0x1_0000 % 0x100, i / 0x100 % 0x100, i % 0x100);
      } else {
        WriteLong(i);
      }
    }

    /** The two forms with a leading byte of their own. */
    method WriteLong(i: u64)
      requires Valid() && i >= 0x1000_0000
      modifies this, buffer
      ensures Valid() && Outside() == old(Outside())
      ensures View() == PutEach(old(View()), EncodeUnsigned(i))
    {
      ghost var s := View();
      if i < 0x1_0000_0000 {
        Append(0xF0);
        Append32(i);
        PutOne(s, 0xF0);
        PutEachConcat(s, [0xF0], BigEndian32(i));
      } else {
        Append(0xF4);
        Append32(i / 0x1_0000_0000);
        Append32(i % 0x1_0000_0000);
        PutOne(s, 0xF4);
        PutEachConcat(s, [0xF4], BigEndian32(i / 0x1_0000_0000));
        PutEachConcat(s, [0xF4] + BigEndian32(i / 0x1_0000_0000), BigEndian32(i % 0x1_0000_0000));
      }
    }

    /** Terminates on every input: the sign flag 0xF8 takes a byte each time. */
    method ReadU64() returns (i: u64)
      requires Valid()
      modifies this`offset, this`ok
      ensures Valid() && (View(), i) == StreamValues.ReadU64(old(View()))
      decreases maxsize - offset, 1
    {
      ghost var s := View();
      var v := Next();
      AdvanceTwice(s, 1, Decode(s.Rest()).asked - 1);
      if v < 0x80 {
        i := v;
      } else if v < 0xC0 {
        AtAdvanced(s, 1, 0);
        var b0 := Next();
        i := Number(0, 0, v - 0x80, b0);
      } else if v >= 0xF0 {
        i := ReadFlagged(v, s);
      } else if v >= 0xE0 {
        AtAdvanced(s, 1, 0);
        AtAdvanced(s, 1, 1);
        AtAdvanced(s, 1, 2);
        var b2, b1, b0 := Next3();
        i := Number(v - 0xE0, b2, b1, b0);
      } else {
        AtAdvanced(s, 1, 0);
        AtAdvanced(s, 1, 1);
        var b1, b0 := Next2();
        i := Number(0, v - 0xC0, b1, b0);
      }
    }

    /** The four forms whose first byte `v` starts with four ones; `s` is the stream before that byte. */
    method ReadFlagged(v: byte, ghost s: Stream) returns (i: u64)
      requires Valid() && s.Valid() && View() == Advance(s, 1) && v == At(s.Rest(), 0) >= 0xF0
      modifies this`offset, this`ok
      ensures Valid() && (View(), i) == StreamValues.ReadU64(s)
      decreases maxsize - offset, 2
    {
      AdvanceTwice(s, 1, Decode(s.Rest()).asked - 1);
      if v < 0xF4 {
        At32Advanced(s, 1, 0);
        i := Next32();
      } else if v < 0xF8 {
        At32Advanced(s, 1, 0);
        At32Advanced(s, 1, 4);
        i := Next64();
      } else if v < 0xFC {
        assert View().Rest() == s.Rest()[1..];
        i := ReadU64();
        i := Complement(i);
      } else {
        i := Complement(v - 0xFC);
      }
    }

    // ----- Byte arrays, floats and containers

    /** The length in front of a byte array or container, cut down to what is left. */
    method ReadLength() returns (len: nat)
      requires Valid()
      modifies this`offset, this`ok
      ensures Valid() && (View(), len) == StreamValues.ReadLength(old(View()))
    {
      var v := ReadU64();
      len := v % 0x1_0000_0000;
      if len > maxsize - offset {
        len := maxsize - offset;
        ok := false;
      }
    }

    method WriteBytes(a: seq<byte>)
      requires Valid()
      modifies this, buffer
      ensures Valid() && Outside() == old(Outside())
      ensures View() == Write(old(View()), Value.Bytes(a))
    {
      WriteU64(ToU64(|a|));
      AppendBlock(a);
    }

    /** The bytes of the region from an offset on. */
    method Block(at: nat, len: nat) returns (a: seq<byte>)
      requires Valid() && at + len <= maxsize
      ensures a == View().data[at..at + len]
    {
      SliceOfSlice(buffer[..], base, base + maxsize, at, at + len);
      a := buffer[base + at..base + at + len];
    }

    method ReadBytes() returns (a: seq<byte>)
      requires Valid()
      modifies this`offset, this`ok
      ensures Valid() && (View(), Value.Bytes(a)) == Read(old(View()), ByteArray)
    {
      var len := ReadLength();
      a := Block(offset, len);
      offset := offset + len;
    }

    method WriteFloat(raw: seq<byte>)
      requires Valid() && |raw| == 4
      modifies this, buffer
      ensures Valid() && Outside() == old(Outside())
      ensures View() == Write(old(View()), Four(raw))
    {
      ghost var s := View();
      Append(raw[0]);
      Append(raw[1]);
      Append(raw[2]);
      Append(raw[3]);
      PutFour(s, raw[0], raw[1], raw[2], raw[3]);
      assert raw == [raw[0], raw[1], raw[2], raw[3]];
    }

    method ReadFloat() returns (raw: seq<byte>)
      requires Valid()
      modifies this`offset, this`ok
      ensures Valid() && (View(), raw) == ReadFour(old(View()))
    {
      ghost var s := View();
      AdvanceTwice(s, 2, 2);
      AtAdvanced(s, 2, 0);
      AtAdvanced(s, 2, 1);
      if maxsize - offset < 4 {
        ok := false;
      }
      var b0, b1 := Next2();
      var b2, b3 := Next2();
      raw := [b0, b1, b2, b3];
    }

    /** The << operators of the nested types. */
    method WriteValue(v: Value, ghost t: Type)
      requires Valid() && WellFormed(t) && HasType(v, t)
      modifies this, buffer
      ensures Valid() && Outside() == old(Outside())
      ensures View() == Write(old(View()), v)
      decreases t, 0
    {
      match v
      case Int(n) => WriteU64(ToU64(n));
      case Bytes(bs) => WriteBytes(bs);
      case Four(raw) => WriteFloat(raw);
      case ListOf(vs) =>
        WriteU64(ToU64(|vs|));
        WriteElements(vs, t.elem);
      case SetOf(vs) =>
        WriteU64(ToU64(|vs|));
        WriteElements(vs, t.elem);
      case PairOf(a, b) =>
        WriteValue(a, t.first);
        WriteValue(b, t.second);
    }

    method WriteElements(vs: seq<Value>, ghost e: Type)
      requires Valid() && WellFormed(e) && AllHaveType(vs, e)
      modifies this, buffer
      ensures Valid() && Outside() == old(Outside())
      ensures View() == WriteAll(old(View()), vs)
      decreases e, 1
    {
      for i := 0 to |vs|
        invariant Valid() && Outside() == old(Outside())
        invariant AllHaveType(vs[i..], e)
        invariant WriteAll(View(), vs[i..]) == WriteAll(old(View()), vs)
      {
        assert vs[i..][0] == vs[i] && vs[i..][1..] == vs[i + 1..];
        WriteValue(vs[i], e);
      }
    }

    /** The >> operators of the nested types. */
    method ReadValue(t: Type) returns (v: Value)
      requires Valid() && WellFormed(t)
      modifies this`offset, this`ok
      ensures Valid() && (View(), v) == Read(old(View()), t)
      decreases t, 0
    {
      match t
      case Integer(bytes, signed) =>
        var i := ReadU64();
        v := Int(Narrow(i, bytes, signed));
      case ByteArray =>
        var a := ReadBytes();
        v := Value.Bytes(a);
      case Float =>
        var raw := ReadFloat();
        v := Four(raw);
      case List(e) =>
        var len := ReadLength();
        var vs := ReadElements(e, len, false);
        v := ListOf(vs);
      case Set(e) =>
        var len := ReadLength();
        var vs := ReadElements(e, len, true);
        v := SetOf(vs);
      case Pair(a, b) =>
        var x := ReadValue(a);
        var y := ReadValue(b);
        v := PairOf(x, y);
    }

    method ReadElements(e: Type, len: nat, asSet: bool) returns (vs: seq<Value>)
      requires Valid() && WellFormed(e)
      modifies this`offset, this`ok
      ensures Valid() && (View(), vs) == ReadElems(old(View()), e, len, [], asSet)
      decreases e, 1
    {
      vs := [];
      var i := 0;
      while i < len
        invariant Valid() && i <= len
        invariant ReadElems(View(), e, len - i, vs, asSet) == ReadElems(old(View()), e, len, [], asSet)
      {
        if maxsize - offset == 0 {
          ok := false;
          return;
        }
        var t := ReadValue(e);
        vs := if asSet then Insert(vs, t) else vs + [t];
        i := i + 1;
      }
    }
  }
}
