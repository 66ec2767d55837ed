/** The variable-length integers of the packet stream (src/PacketDataStream.h, the 64-bit << and >>).

    Shifts and masks by constant amounts are written as division, remainder and multiplication. */
module Varint {
  import opened Bytes

  const U64_MAX: u64 := 0xFFFF_FFFF_FFFF_FFFF

  /** ~i on 64 bits. */
  function Complement(i: u64): u64 {
    U64_MAX - i
  }

  // ----- Encoding

  /** The encoder's last part, for the value as an unsigned number. */
  function EncodeUnsigned(i: u64): (bs: seq<byte>)
    ensures 1 <= |bs| <= 9
    ensures i < 0x1_0000_0000 ==> |bs| <= 5
  {
    if i < 0x80 then [i]
    else if i < 0x4000 then [i / 0x100 + 0x80, i % 0x100]
    else if i < 0x20_0000 then [i / 0x1_0000 + 0xC0, i / 0x100 % 0x100, i % 0x100]
    else if i < 0x1000_0000 then [i / 0x100_0000 + 0xE0, i / 0x1_0000 % 0x100, i / 0x100 % 0x100, i % 0x100]
    else if i < 0x1_0000_0000 then [0xF0] + BigEndian32(i)
    else [0xF4] + BigEndian32(i / 0x1_0000_0000) + BigEndian32(i % 0x1_0000_0000)
  }

  function Encode(v: u64): (bs: seq<byte>)
    ensures 1 <= |bs| <= 9
  {
    if v >= 0x8000_0000_0000_0000 && Complement(v) < 0x1_0000_0000 then
      var i := Complement(v);
      if i <= 0x3 then [0xFC + i] else [0xF8] + EncodeUnsigned(i)
    else EncodeUnsigned(v)
  }

  // ----- Decoding from a byte sequence

  /** The byte at a position, or 0 past the end, as next() delivers it. */
  function At(bs: seq<byte>, k: nat): byte {
    if k < |bs| then bs[k] else 0
  }

  /** Four bytes as a big-endian number. */
  function Number(b3: byte, b2: byte, b1: byte, b0: byte): u32 {
    var n3: int, n2: int, n1: int, n0: int := b3, b2, b1, b0;
    n3 * 0x100_0000 + n2 * 0x1_0000 + n1 * 0x100 + n0
  }

  function At32(bs: seq<byte>, k: nat): u32 {
    Number(At(bs, k), At(bs, k + 1), At(bs, k + 2), At(bs, k + 3))
  }

  /** The value read from the front of `bs`, and how many bytes that asks for. */
  datatype Decoded = Decoded(value: u64, asked: nat)

  /** A 64-bit number from its halves. */
  function Join(high: u32, low: u32): u64 {
    var h: int, l: int := high, low;
    h * 0x1_0000_0000 + l
  }

  function Decode(bs: seq<byte>): (d: Decoded)
    ensures d.asked >= 1
    decreases |bs|
  {
    var v := At(bs, 0);
    if v < 0x80 then Decoded(v, 1)
    else if v < 0xC0 then Decoded(Number(0, 0, v - 0x80, At(bs, 1)), 2)
    else if v >= 0xF0 then
      if v < 0xF4 then Decoded(At32(bs, 1), 5)
      else if v < 0xF8 then Decoded(Join(At32(bs, 1), At32(bs, 5)), 9)
      else if v < 0xFC then
        var d := Decode(bs[1..]);
        Decoded(Complement(d.value), d.asked + 1)
      else Decoded(Complement(v - 0xFC), 1)
    else if v >= 0xE0 then Decoded(Number(v - 0xE0, At(bs, 1), At(bs, 2), At(bs, 3)), 4)
    else Decoded(Number(0, v - 0xC0, At(bs, 1), At(bs, 2)), 3)
  }

  // ----- The decoder inverts the encoder

  lemma NumberOfBytes(n: u32)
    ensures Number(n / 0x100_0000, n / 0x1_0000 % 0x100, n / 0x100 % 0x100, n % 0x100) == n
  {
    BigEndian32RoundTrip(n);
  }

  lemma ReadsBack32(i: u32, flag: byte, rest: seq<byte>)
    ensures At32([flag] + BigEndian32(i) + rest, 1) == i
  {
    NumberOfBytes(i);
    var bs := [flag] + BigEndian32(i) + rest;
    assert bs[1..5] == BigEndian32(i);
    assert forall k :: 0 <= k < 4 ==> At(bs, 1 + k) == BigEndian32(i)[k];
  }

  lemma ReadsBack64(i: u64, rest: seq<byte>)
    requires i >= 0x1_0000_0000
    ensures Decode(EncodeUnsigned(i) + rest) == Decoded(i, 9)
  {
    var high: u32, low: u32 := i / 0x1_0000_0000, i % 0x1_0000_0000;
    var bs := [0xF4] + BigEndian32(high) + BigEndian32(low) + rest;
    NumberOfBytes(high);
    NumberOfBytes(low);
    assert bs == EncodeUnsigned(i) + rest;
    assert forall k :: 0 <= k < 4 ==> At(bs, 1 + k) == BigEndian32(high)[k];
    assert forall k :: 0 <= k < 4 ==> At(bs, 5 + k) == BigEndian32(low)[k];
    assert At32(bs, 1) == high && At32(bs, 5) == low;
  }

  lemma {:induction false} ThreeBytes(bs: seq<byte>, i: u64)
    requires i < 0x20_0000 && |bs| >= 3
    requires bs[0] == i / 0x1_0000 + 0xC0 && bs[1] == i / 0x100 % 0x100 && bs[2] == i % 0x100
    ensures Decode(bs) == Decoded(i, 3)
  {
    NumberOfBytes(i);
  }

  lemma {:induction false} FourBytes(bs: seq<byte>, i: u64)
    requires i < 0x1000_0000 && |bs| >= 4
    requires bs[0] == i / 0x100_0000 + 0xE0
    requires bs[1] == i / 0x1_0000 % 0x100 && bs[2] == i / 0x100 % 0x100 && bs[3] == i % 0x100
    ensures Decode(bs) == Decoded(i, 4)
  {
    NumberOfBytes(i);
  }

  lemma {:induction false} ReadsBackShort(i: u64, rest: seq<byte>)
    requires 0x4000 <= i < 0x1000_0000
    ensures Decode(EncodeUnsigned(i) + rest) == Decoded(i, |EncodeUnsigned(i)|)
  {
    var bs := EncodeUnsigned(i) + rest;
    if i < 0x20_0000 {
      assert bs[0] == i / 0x1_0000 + 0xC0 && bs[1] == i / 0x100 % 0x100 && bs[2] == i % 0x100;
      ThreeBytes(bs, i);
    } else {
      assert bs[0] == i / 0x100_0000 + 0xE0;
      assert bs[1] == i / 0x1_0000 % 0x100 && bs[2] == i / 0x100 % 0x100 && bs[3] == i % 0x100;
      FourBytes(bs, i);
    }
  }

  lemma {:induction false} UnsignedRoundTrip(i: u64, rest: seq<byte>)
    ensures Decode(EncodeUnsigned(i) + rest) == Decoded(i, |EncodeUnsigned(i)|)
  {
    var bs := EncodeUnsigned(i) + rest;
    if i < 0x80 {
    } else if i < 0x4000 {
      assert bs[0] == i / 0x100 + 0x80 && bs[1] == i % 0x100;
    } else if i < 0x1000_0000 {
      ReadsBackShort(i, rest);
    } else if i < 0x1_0000_0000 {
      ReadsBack32(i, 0xF0, rest);
    } else {
      ReadsBack64(i, rest);
    }
  }

  /** Every 64-bit value is read back, from exactly the bytes written, whatever follows them. */
  lemma RoundTrip(v: u64, rest: seq<byte>)
    ensures Decode(Encode(v) + rest) == Decoded(v, |Encode(v)|)
  {
    if v >= 0x8000_0000_0000_0000 && Complement(v) < 0x1_0000_0000 {
      var i := Complement(v);
      if i > 0x3 {
        assert (Encode(v) + rest)[1..] == EncodeUnsigned(i) + rest;
        UnsignedRoundTrip(i, rest);
      }
    } else {
      UnsignedRoundTrip(v, rest);
    }
  }

  /** No encoding is a prefix of another, so the boundaries of consecutive values are never in doubt. */
  lemma PrefixFree(v: u64, w: u64)
    requires Encode(v) <= Encode(w)
    ensures v == w
  {
    RoundTrip(v, Encode(w)[|Encode(v)|..]);
    RoundTrip(w, []);
    assert Encode(v) + Encode(w)[|Encode(v)|..] == Encode(w) + [];
  }

  // ----- The bytes

  lemma SmallNumber(v: u64)
    requires v < 0x80
    ensures Encode(v) == [v]
  {
  }

  /** The forms of an unsigned number: seven bits after 0, 14 after 10, 21 after 110 and 28 after 1110, in one
      to four bytes, the high byte first. */
  lemma ShortForms(v: u64, bs: seq<byte>)
    requires v < 0x1000_0000 && bs == EncodeUnsigned(v)
    ensures v < 0x80 ==> bs == [v]
    ensures 0x80 <= v < 0x4000 ==> |bs| == 2 && 0x80 <= bs[0] < 0xC0 && Number(0, 0, bs[0] - 0x80, bs[1]) == v
    ensures 0x4000 <= v < 0x20_0000 ==> |bs| == 3 && 0xC0 <= bs[0] < 0xE0 && Number(0, bs[0] - 0xC0, bs[1], bs[2]) == v
    ensures 0x20_0000 <= v ==> |bs| == 4 && 0xE0 <= bs[0] < 0xF0 && Number(bs[0] - 0xE0, bs[1], bs[2], bs[3]) == v
  {
    var low: u32 := v;
    NumberOfBytes(low);
  }

  /** Above that the mark 0xF0 before four bytes and 0xF4 before eight. */
  lemma LongForms(v: u64, high: u32, low: u32)
    requires high == v / 0x1_0000_0000 && low == v % 0x1_0000_0000
    ensures 0x1000_0000 <= v < 0x1_0000_0000 ==>
              EncodeUnsigned(v) == [0xF0, low / 0x100_0000, low / 0x1_0000 % 0x100, low / 0x100 % 0x100, low % 0x100]
    ensures v >= 0x1_0000_0000 ==>
              EncodeUnsigned(v) == [0xF4, high / 0x100_0000, high / 0x1_0000 % 0x100, high / 0x100 % 0x100, high % 0x100,
                                    low / 0x100_0000, low / 0x1_0000 % 0x100, low / 0x100 % 0x100, low % 0x100]
  {
  }

  /** And of the numbers that are small and negative as signed ones: 0xFC to 0xFF for -1 to -4, and 0xF8
      before the form of the complement of the others down to -2^32. */
  lemma NegativeForms(n: int)
    requires -0x1_0000_0000 <= n < 0
    ensures n >= -4 ==> Encode(0x1_0000_0000_0000_0000 + n) == [0xFC + (-1 - n)]
    ensures n < -4 ==> Encode(0x1_0000_0000_0000_0000 + n) == [0xF8] + EncodeUnsigned(-1 - n)
  {
  }

  lemma OtherForms(v: u64)
    requires v < 0xFFFF_FFFF_0000_0000
    ensures Encode(v) == EncodeUnsigned(v)
  {
  }

  /** How any bytes are read, those no encoder writes included: the first byte decides. */
  lemma ReadForms(bs: seq<byte>)
    requires |bs| >= 9
    ensures bs[0] < 0x80 ==> Decode(bs) == Decoded(bs[0], 1)
    ensures 0x80 <= bs[0] < 0xC0 ==> Decode(bs) == Decoded(Number(0, 0, bs[0] - 0x80, bs[1]), 2)
    ensures 0xC0 <= bs[0] < 0xE0 ==> Decode(bs) == Decoded(Number(0, bs[0] - 0xC0, bs[1], bs[2]), 3)
    ensures 0xE0 <= bs[0] < 0xF0 ==> Decode(bs) == Decoded(Number(bs[0] - 0xE0, bs[1], bs[2], bs[3]), 4)
    ensures 0xF0 <= bs[0] < 0xF4 ==> Decode(bs) == Decoded(Number(bs[1], bs[2], bs[3], bs[4]), 5)
    ensures 0xF4 <= bs[0] < 0xF8 ==>
              Decode(bs) == Decoded(Join(Number(bs[1], bs[2], bs[3], bs[4]), Number(bs[5], bs[6], bs[7], bs[8])), 9)
    ensures 0xF8 <= bs[0] < 0xFC ==>
              Decode(bs) == Decoded(0xFFFF_FFFF_FFFF_FFFF - Decode(bs[1..]).value, Decode(bs[1..]).asked + 1)
    ensures var first: int := bs[0]; first >= 0xFC ==> Decode(bs) == Decoded(0xFFFF_FFFF_FFFF_FFFF - (first - 0xFC), 1)
  {
  }

  // ----- Integers of other widths

  /** The modulus of an integer type of 1, 2, 4 or 8 bytes. */
  function Modulus(bytes: nat): int {
    match bytes
    case 1 => 0x100
    case 2 => 0x1_0000
    case 4 => 0x1_0000_0000
    case _ => 0x1_0000_0000_0000_0000
  }

  /** static_cast of an integer to 64 unsigned bits: negative numbers are sign-extended. */
  function ToU64(n: int): u64 {
    n % 0x1_0000_0000_0000_0000
  }

  /** static_cast of 64 unsigned bits to a signed or unsigned integer type. */
  function Narrow(v: u64, bytes: nat, signed: bool): int
    requires bytes in {1, 2, 4, 8}
  {
    var r := v % Modulus(bytes);
    if signed && r >= Modulus(bytes) / 2 then r - Modulus(bytes) else r
  }

  predicate Fits(n: int, bytes: nat, signed: bool)
    requires bytes in {1, 2, 4, 8}
  {
    if signed then -Modulus(bytes) / 2 <= n < Modulus(bytes) / 2 else 0 <= n < Modulus(bytes)
  }

  /** The cast keeps the value modulo the width and lands in the range of the type. */
  lemma NarrowIsCast(v: u64, bytes: nat, signed: bool)
    requires bytes in {1, 2, 4, 8}
    ensures Fits(Narrow(v, bytes, signed), bytes, signed)
    ensures exists k: int :: v == Narrow(v, bytes, signed) + k * Modulus(bytes)
    ensures Modulus(1) == 0x100 && Modulus(2) == 0x1_0000 && Modulus(4) == 0x1_0000_0000
    ensures Modulus(8) == 0x1_0000_0000_0000_0000
  {
    var r, m := v % Modulus(bytes), Modulus(bytes);
    var k := if Narrow(v, bytes, signed) == r then v / m else v / m + 1;
    assert v == v / m * m + r;
    assert v == Narrow(v, bytes, signed) + k * m;
  }

  lemma AtLeast(d: int, m: int)
    requires 0 < m
    ensures d >= 1 ==> d * m >= m
  {
  }

  lemma Residue(x: int, q: int, r: int, m: int)
    requires 0 <= r < m && x == q * m + r
    ensures x % m == r
  {
    var d := q - x / m;
    assert d * m + r == x % m by {
      assert x == (x / m) * m + x % m;
      assert d * m == q * m - (x / m) * m;
    }
    AtLeast(d, m);
    AtLeast(-d, m);
  }

  lemma NarrowInverts(n: int, bytes: nat, signed: bool)
    requires bytes in {1, 2, 4, 8} && Fits(n, bytes, signed)
    ensures Narrow(ToU64(n), bytes, signed) == n
  {
    if n < 0 {
      assert ToU64(n) == n + 0x1_0000_0000_0000_0000;
      match bytes
      case 1 => Residue(n + 0x1_0000_0000_0000_0000, 0xFF_FFFF_FFFF_FFFF, n + 0x100, 0x100);
      case 2 => Residue(n + 0x1_0000_0000_0000_0000, 0xFFFF_FFFF_FFFF, n + 0x1_0000, 0x1_0000);
      case 4 => Residue(n + 0x1_0000_0000_0000_0000, 0xFFFF_FFFF, n + 0x1_0000_0000, 0x1_0000_0000);
      case 8 =>
    } else {
      assert ToU64(n) == n;
      Residue(n, 0, n, Modulus(bytes));
    }
  }

  /** Every integer of every width, signed or not, survives being written and read as the same type. */
  lemma IntegerRoundTrip(n: int, bytes: nat, signed: bool, rest: seq<byte>)
    requires bytes in {1, 2, 4, 8} && Fits(n, bytes, signed)
    ensures Narrow(Decode(Encode(ToU64(n)) + rest).value, bytes, signed) == n
  {
    RoundTrip(ToU64(n), rest);
    NarrowInverts(n, bytes, signed);
  }

  /** Reading asks for no more than the bytes before the first one that is not the sign flag 0xF8, and
      nine more. */
  lemma {:induction false} AsksLittle(bs: seq<byte>, flags: nat)
    requires forall k :: 0 <= k < flags ==> At(bs, k) / 4 == 0xF8 / 4
    requires At(bs, flags) / 4 != 0xF8 / 4
    ensures flags + 1 <= Decode(bs).asked <= flags + 9
    decreases flags
  {
    if flags > 0 {
      assert At(bs, 0) / 4 == 0xF8 / 4;
      assert forall k :: 0 <= k < flags - 1 ==> At(bs[1..], k) == At(bs, k + 1);
      assert At(bs[1..], flags - 1) == At(bs, flags);
      AsksLittle(bs[1..], flags - 1);
    }
  }
}
