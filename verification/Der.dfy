/** The DER writer of the Diffie-Hellman parameter generator (scripts/generate-ffdhe.py), and a reader
    written from ITU-T X.690 to hold it against. */
module Der {
  import opened Bytes
  import opened Sequences
  import opened Wrappers

  type digit = n: int | 0 <= n < 16

  datatype Result<+T> = Ok(value: T) | Err(error: Error)
  datatype Error = BadSize | Unencodable | BadHex | IndexError

  const INTEGER: byte := 0x02
  const SEQUENCE: byte := 0x30

  // ----- The writer

  function HexDigits(n: nat): (ds: seq<digit>)
    ensures |ds| >= 1 && (n > 0 ==> ds[0] != 0)
  {
    if n < 16 then [n] else HexDigits(n / 16) + [n % 16]
  }

  function Dehexify(digits: seq<digit>): (bs: seq<byte>)
    requires |digits| % 2 == 0
    ensures |bs| == |digits| / 2
  {
    if digits == [] then []
    else
      var n := |digits|;
      var hi: int, lo: int := digits[n - 2], digits[n - 1];
      Dehexify(digits[..n - 2]) + [hi * 16 + lo]
  }

  /** The bytes of a positive number: its hexadecimal digits, made even in number, two by two. */
  function Octets(size: nat): (bs: seq<byte>)
    ensures |bs| >= 1
  {
    var digits := HexDigits(size);
    Dehexify(if |digits| % 2 != 0 then [0] + digits else digits)
  }

  function DerLength(size: int): Result<seq<byte>> {
    if size > 127 then
      var buf := Octets(size);
      var nbytes := |buf|;
      if nbytes > 127 then Err(Unencodable) else Ok([0x80 + nbytes] + buf)
    else if size > 0 then Ok([size])
    else Err(BadSize)
  }

  /** A zero octet keeps the sign bit clear. */
  function Unsigned(buf: seq<byte>): seq<byte>
    requires buf != []
  {
    if buf[0] >= 0x80 then [0] + buf else buf
  }

  function Tagged(tag: byte, content: seq<byte>): Result<seq<byte>> {
    match DerLength(|content|)
    case Err(e) => Err(e)
    case Ok(length) => Ok([tag] + length + content)
  }

  function DerUnsignedInteger(hexString: seq<digit>): Result<seq<byte>> {
    if |hexString| % 2 != 0 then Err(BadHex)
    else if hexString == [] then Err(IndexError)
    else
      Tagged(INTEGER, Unsigned(Dehexify(hexString)))
  }

  method DerSequence(sequence: seq<seq<byte>>) returns (out: Result<seq<byte>>)
    ensures out == Tagged(SEQUENCE, Flatten(sequence))
    ensures out.Ok? ==> out.value[0] == 0x30
  {
    var content := [];
    for i := 0 to |sequence|
      invariant content == Flatten(sequence[..i])
    {
      FlattenAppend(sequence[..i], sequence[i]);
      assert sequence[..i + 1] == sequence[..i] + [sequence[i]];
      content := content + sequence[i];
    }
    assert sequence[..|sequence|] == sequence;
    var length := DerLength(|content|);
    match length {
      case Err(e) => out := Err(e);
      case Ok(bytes) => out := Ok([SEQUENCE] + bytes + content);
    }
  }

  // ----- The reader

  function BigEndian(bs: seq<byte>): nat {
    if bs == [] then 0
    else
      var last: int := bs[|bs| - 1];
      BigEndian(bs[..|bs| - 1]) * 256 + last
  }

  function Power256(n: nat): (p: nat)
    ensures p >= 1
  {
    if n == 0 then 1 else 256 * Power256(n - 1)
  }

  /** Length octets of the definite form (X.690, 8.1.3.3 to 8.1.3.5): the length, and how many octets it
      takes.  The initial octet with all bits set is not used. */
  function BerLength(bs: seq<byte>): (r: Option<(nat, nat)>)
    ensures r.Some? ==> 1 <= r.value.1 <= |bs|
  {
    if bs == [] then None
    else if bs[0] < 0x80 then Some((bs[0], 1))
    else
      var n := bs[0] - 0x80;
      if n == 0 || n == 127 || |bs| < 1 + n then None
      else Some((BigEndian(bs[1..1 + n]), 1 + n))
  }

  /** With as few octets as possible (X.690, 10.1): no long form below 128, no leading zero octet. */
  function ReadLength(bs: seq<byte>): (r: Option<(nat, nat)>)
    ensures r.Some? ==> 1 <= r.value.1 <= |bs|
  {
    var r := BerLength(bs);
    if r.Some? && r.value.1 > 1 && (r.value.0 < 128 || bs[1] == 0) then None else r
  }

  /** The contents of an element with the given tag, and how many octets the element takes. */
  function ReadElement(tag: byte, bs: seq<byte>): (r: Option<(seq<byte>, nat)>)
    ensures r.Some? ==> |r.value.0| <= r.value.1 <= |bs|
  {
    if bs == [] || bs[0] != tag then None
    else
      match ReadLength(bs[1..])
      case None => None
      case Some((length, n)) =>
        if 1 + n + length > |bs| then None else Some((bs[1 + n..1 + n + length], 1 + n + length))
  }

  /** The value of an INTEGER's contents (X.690, 8.3): two's complement, at least one octet, and the first
      nine bits not all alike. */
  function IntegerValue(contents: seq<byte>): Option<int> {
    if contents == [] then None
    else if |contents| > 1 && contents[0] == 0 && contents[1] < 0x80 then None
    else if |contents| > 1 && contents[0] == 0xff && contents[1] >= 0x80 then None
    else if contents[0] >= 0x80 then Some(BigEndian(contents) - Power256(|contents|))
    else Some(BigEndian(contents))
  }

  function ReadInteger(bs: seq<byte>): (r: Option<(int, nat)>)
    ensures r.Some? ==> r.value.1 <= |bs|
  {
    match ReadElement(INTEGER, bs)
    case None => None
    case Some((contents, n)) =>
      match IntegerValue(contents)
      case None => None
      case Some(v) => Some((v, n))
  }

  /** A SEQUENCE of two INTEGERs (X.690, 8.9) that takes all of `bs`. */
  function ReadPair(bs: seq<byte>): Option<(int, int)> {
    match ReadElement(SEQUENCE, bs)
    case None => None
    case Some((contents, n)) =>
      if n != |bs| then None
      else
        match ReadInteger(contents)
        case None => None
        case Some((p, i)) =>
          match ReadInteger(contents[i..])
          case None => None
          case Some((g, j)) => if i + j != |contents| then None else Some((p, g))
  }

  // ----- Numbers and their octets

  function HexValue(digits: seq<digit>): nat {
    if digits == [] then 0
    else
      var last: int := digits[|digits| - 1];
      HexValue(digits[..|digits| - 1]) * 16 + last
  }

  lemma {:induction false} HexDigitsValue(n: nat)
    ensures HexValue(HexDigits(n)) == n
  {
    var ds := HexDigits(n);
    if n < 16 {
      assert ds[..0] == [];
    } else {
      assert ds[..|ds| - 1] == HexDigits(n / 16);
      HexDigitsValue(n / 16);
    }
  }

  lemma {:induction false} LeadingZero(digits: seq<digit>)
    ensures HexValue([0] + digits) == HexValue(digits)
  {
    var padded := [0] + digits;
    if digits == [] {
      assert padded[..0] == [];
    } else {
      assert padded[..|padded| - 1] == [0] + digits[..|digits| - 1];
      LeadingZero(digits[..|digits| - 1]);
    }
  }

  lemma {:induction false} DehexifyValue(digits: seq<digit>)
    requires |digits| % 2 == 0
    ensures BigEndian(Dehexify(digits)) == HexValue(digits)
    ensures digits != [] ==> var hi: int, lo: int := digits[0], digits[1]; Dehexify(digits)[0] == hi * 16 + lo
  {
    if digits != [] {
      var n := |digits|;
      var init := digits[..n - 2];
      DehexifyValue(init);
      var bs := Dehexify(digits);
      assert bs[..|bs| - 1] == Dehexify(init);
      assert digits[..n - 1][..n - 2] == init;
      var hi: int, lo: int := digits[n - 2], digits[n - 1];
      assert HexValue(digits[..n - 1]) == HexValue(init) * 16 + hi;
      assert BigEndian(bs) == BigEndian(Dehexify(init)) * 256 + (hi * 16 + lo);
    }
  }

  /** The octets of a positive number have its value and no leading zero. */
  lemma OctetsValue(size: nat)
    requires size > 0
    ensures BigEndian(Octets(size)) == size && Octets(size)[0] != 0
  {
    var digits := HexDigits(size);
    HexDigitsValue(size);
    LeadingZero(digits);
    DehexifyValue(if |digits| % 2 != 0 then [0] + digits else digits);
  }

  lemma {:induction false} BigEndianBounds(bs: seq<byte>)
    ensures BigEndian(bs) < Power256(|bs|)
    ensures bs != [] && bs[0] != 0 ==> BigEndian(bs) >= Power256(|bs| - 1)
  {
    if bs != [] {
      BigEndianBounds(bs[..|bs| - 1]);
    }
  }

  lemma {:induction false} PowerGrows(m: nat, n: nat)
    requires m <= n
    ensures Power256(m) <= Power256(n)
  {
    if m < n {
      PowerGrows(m, n - 1);
    }
  }

  // ----- Length octets

  /** A reader of X.690 gets the length back, and knows where the contents start, exactly when at most 126
      octets follow the initial one: with 127 the writer uses the initial octet that is reserved. */
  lemma LengthReadsBack(size: int, rest: seq<byte>)
    requires DerLength(size).Ok?
    ensures var enc := DerLength(size).value;
            ReadLength(enc + rest) == if |enc| <= 127 then Some((size, |enc|)) else None
  {
    if size > 127 {
      OctetsValue(size);
      var buf := Octets(size);
      var bs := [0x80 + |buf|] + buf + rest;
      assert bs[1..1 + |buf|] == buf;
    }
  }

  lemma OnlyPositive(size: int)
    ensures DerLength(size) == Err(BadSize) <==> size <= 0
  {
  }

  lemma AtLeast256(n: nat)
    requires n >= 1
    ensures Power256(n) >= 256
  {
    PowerGrows(1, n);
    assert Power256(1) == 256 * Power256(0);
  }

  /** A number below a power of 256 is one that needs no more octets. */
  lemma FitsIn(size: nat, n: nat)
    requires size > 0
    ensures size < Power256(n) <==> |Octets(size)| <= n
  {
    OctetsValue(size);
    BigEndianBounds(Octets(size));
    if |Octets(size)| <= n {
      PowerGrows(|Octets(size)|, n);
    } else {
      PowerGrows(n, |Octets(size)| - 1);
    }
  }

  /** Which sizes have an encoding: those from 1 on that fit 127 octets. */
  lemma {:induction false} Encodable(size: int, most: nat)
    requires most == 127
    ensures DerLength(size) == Err(BadSize) <==> size <= 0
    ensures DerLength(size) == Err(Unencodable) <==> size >= Power256(most)
  {
    OnlyPositive(size);
    if size > 127 {
      FitsIn(size, most);
    } else {
      AtLeast256(most);
    }
  }

  /** No other length octets for the same size are shorter. */
  lemma LengthIsShortest(size: int, bs: seq<byte>)
    requires DerLength(size).Ok? && BerLength(bs).Some? && BerLength(bs).value.0 == size
    ensures |DerLength(size).value| <= BerLength(bs).value.1
  {
    if size > 127 {
      OctetsValue(size);
      BigEndianBounds(Octets(size));
      var n := bs[0] - 0x80;
      BigEndianBounds(bs[1..1 + n]);
      if n < |Octets(size)| {
        PowerGrows(n, |Octets(size)| - 1);
      }
    }
  }

  // ----- Whole elements

  /** Contents whose length octets X.690 can read. */
  predicate Readable(content: seq<byte>) {
    DerLength(|content|).Ok? && |DerLength(|content|).value| <= 127
  }

  lemma Pieces(tag: byte, length: seq<byte>, content: seq<byte>, rest: seq<byte>)
    ensures var bs, n := [tag] + length + content + rest, 1 + |length|;
            bs[0] == tag && bs[1..] == length + (content + rest) && bs[n..n + |content|] == content
  {
  }

  lemma {:induction false} ElementReadsBack(tag: byte, content: seq<byte>, rest: seq<byte>)
    requires Tagged(tag, content).Ok?
    ensures var enc := Tagged(tag, content).value;
            ReadElement(tag, enc + rest) == if Readable(content) then Some((content, |enc|)) else None
  {
    Pieces(tag, DerLength(|content|).value, content, rest);
    LengthReadsBack(|content|, content + rest);
  }

  /** A number is written as X.690 asks exactly when no leading zero octet can be left out: one that is
      followed by an octet below 128. */
  predicate Minimal(buf: seq<byte>) {
    |buf| > 1 && buf[0] == 0 ==> buf[1] >= 0x80
  }

  lemma {:induction false} ZeroOctet(bs: seq<byte>)
    ensures BigEndian([0] + bs) == BigEndian(bs)
  {
    var padded := [0] + bs;
    if bs == [] {
      assert padded[..0] == [];
    } else {
      assert padded[..|padded| - 1] == [0] + bs[..|bs| - 1];
      ZeroOctet(bs[..|bs| - 1]);
    }
  }

  /** The reader gets the non-negative number back, whatever its sign bit was, exactly when the text had
      no leading zero octet to leave out. */
  lemma IntegerReadsBack(hexString: seq<digit>, rest: seq<byte>)
    requires DerUnsignedInteger(hexString).Ok?
    ensures var buf, enc := Dehexify(hexString), DerUnsignedInteger(hexString).value;
            ReadInteger(enc + rest) ==
            if Minimal(buf) && Readable(Unsigned(buf)) then Some((BigEndian(buf), |enc|)) else None
  {
    var buf := Dehexify(hexString);
    ElementReadsBack(INTEGER, Unsigned(buf), rest);
    ZeroOctet(buf);
  }

  /** The contents of an integer take half as many octets as the text has digits, and one more if the first
      digit is 8 or above. */
  lemma ContentsSize(hexString: seq<digit>)
    requires |hexString| % 2 == 0 && hexString != []
    ensures |Unsigned(Dehexify(hexString))| == |hexString| / 2 + if hexString[0] >= 8 then 1 else 0
  {
    DehexifyValue(hexString);
    var hi: int, lo: int := hexString[0], hexString[1];
    assert hi >= 8 <==> hi * 16 + lo >= 0x80;
  }

  /** When an integer is written, and with which tag: from an even number of digits, at least two, whose
      contents need fewer than 256^127 octets. */
  lemma IntegerIsWritten(hexString: seq<digit>, most: nat)
    requires most == 127
    ensures DerUnsignedInteger(hexString) == Err(BadHex) <==> |hexString| % 2 != 0
    ensures DerUnsignedInteger(hexString) == Err(IndexError) <==> hexString == []
    ensures DerUnsignedInteger(hexString).Ok? ==> DerUnsignedInteger(hexString).value[0] == 0x02
    ensures |hexString| % 2 == 0 && hexString != [] ==>
              (DerUnsignedInteger(hexString).Ok? <==> |Unsigned(Dehexify(hexString))| < Power256(most))
  {
    if |hexString| % 2 == 0 && hexString != [] {
      Encodable(|Unsigned(Dehexify(hexString))|, most);
    }
  }

  predicate Writable(hexString: seq<digit>)
    requires |hexString| % 2 == 0 && hexString != []
  {
    var buf := Dehexify(hexString);
    Minimal(buf) && Readable(Unsigned(buf))
  }

  lemma ConcatenatedPair(a: seq<byte>, b: seq<byte>)
    ensures Flatten([a, b]) == a + b
  {
    assert [a, b][1..] == [b] && [b][1..] == [];
    assert Flatten([b]) == b + [] == b;
  }

  /** The sequence of two integers, as the parameter file has it: read back in order, with nothing left
      over. */
  lemma PairReadsBack(p: seq<digit>, g: seq<digit>)
    requires DerUnsignedInteger(p).Ok? && DerUnsignedInteger(g).Ok?
    requires var parts := [DerUnsignedInteger(p).value, DerUnsignedInteger(g).value];
             Tagged(SEQUENCE, Flatten(parts)).Ok?
    ensures var content := Flatten([DerUnsignedInteger(p).value, DerUnsignedInteger(g).value]);
            ReadPair(Tagged(SEQUENCE, content).value) ==
            if Writable(p) && Writable(g) && Readable(content)
            then Some((HexValue(p), HexValue(g))) else None
  {
    var a, b := DerUnsignedInteger(p).value, DerUnsignedInteger(g).value;
    ConcatenatedPair(a, b);
    var enc := Tagged(SEQUENCE, a + b).value;
    ElementReadsBack(SEQUENCE, a + b, []);
    assert enc + [] == enc;
    IntegerReadsBack(p, b);
    assert (a + b)[|a|..] == b == b + [];
    IntegerReadsBack(g, []);
    DehexifyValue(p);
    DehexifyValue(g);
  }

  lemma {:induction false} NothingIn(parts: seq<seq<byte>>)
    ensures Flatten(parts) == [] <==> forall part | part in parts :: part == []
  {
    if parts != [] {
      var first, rest := parts[0], parts[1..];
      NothingIn(rest);
      assert first in parts && forall part | part in rest :: part in parts;
      assert forall part | part in parts :: part in rest || part == first;
    }
  }

  /** X.690 (8.9) allows a sequence without contents, but the writer fails on it. */
  lemma EmptySequenceFails(parts: seq<seq<byte>>)
    ensures Tagged(SEQUENCE, Flatten(parts)) == Err(BadSize) <==> forall part | part in parts :: part == []
  {
    NothingIn(parts);
  }
}
