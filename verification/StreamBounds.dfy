/** Reading from bytes that no writer produced (src/PacketDataStream.h): every element takes a byte, and a
    length that promises too much is cut down; and the layout of containers. */
module StreamBounds {
  import opened Bytes
  import opened Varint
  import opened StreamValues

  // ----- Any bytes

  /** Reading never goes back, drops the flag for good, and takes a byte if there is one. */
  lemma {:induction false} ReadMovesOn(s: Stream, t: Type)
    requires s.Valid() && WellFormed(t)
    ensures Read(s, t).0.offset >= s.offset && (s.offset < |s.data| ==> Read(s, t).0.offset > s.offset)
    ensures Read(s, t).0.ok ==> s.ok
    decreases t, 0
  {
    match t
    case Integer(_, _) =>
    case ByteArray =>
    case Float =>
    case List(e) =>
      ElementsMoveOn(ReadLength(s).0, e, ReadLength(s).1, [], false);
    case Set(e) =>
      ElementsMoveOn(ReadLength(s).0, e, ReadLength(s).1, [], true);
    case Pair(a, b) =>
      ReadMovesOn(s, a);
      ReadMovesOn(Read(s, a).0, b);
  }

  /** However many elements a length promises, no more are read than there are bytes left; and if fewer are
      read than promised, the flag drops and no byte is left. */
  lemma {:induction false} ElementsMoveOn(s: Stream, e: Type, n: nat, acc: seq<Value>, asSet: bool)
    requires s.Valid() && WellFormed(e)
    ensures var (s', vs) := ReadElems(s, e, n, acc, asSet);
            && s'.offset >= s.offset && (s'.ok ==> s.ok)
            && |acc| <= |vs| <= |acc| + n && |vs| - |acc| <= s'.offset - s.offset
            && (!asSet && |vs| < |acc| + n ==> !s'.ok && s'.offset == |s.data|)
    decreases e, 1, n
  {
    if n > 0 && s.Left() > 0 {
      ReadMovesOn(s, e);
      var (s1, v) := Read(s, e);
      ElementsMoveOn(s1, e, n - 1, if asSet then Insert(acc, v) else acc + [v], asSet);
    }
  }

  /** Every element differs from those before it. */
  ghost predicate NoneTwice(vs: seq<Value>) {
    forall i, j :: 0 <= i < j < |vs| ==> vs[i] != vs[j]
  }

  lemma {:induction false} SetsHaveNoneTwice(s: Stream, e: Type, n: nat, acc: seq<Value>)
    requires s.Valid() && WellFormed(e) && NoneTwice(acc)
    ensures NoneTwice(ReadElems(s, e, n, acc, true).1)
    decreases n
  {
    if n > 0 && s.Left() > 0 {
      var (s1, v) := Read(s, e);
      SetsHaveNoneTwice(s1, e, n - 1, Insert(acc, v));
    }
  }

  /** What is inserted into a set is in it, with everything that was. */
  lemma InsertedIsThere(acc: seq<Value>, v: Value)
    ensures v in Insert(acc, v) && acc <= Insert(acc, v) && |Insert(acc, v)| <= |acc| + 1
  {
  }

  lemma LengthMovesOn(s: Stream, s1: Stream, n: nat)
    requires s.Valid() && (s1, n) == ReadLength(s)
    ensures s1.Valid() && s1.data == s.data && s1.offset >= s.offset
  {
  }

  lemma ElementsAreBounded(s: Stream, e: Type, asSet: bool, s1: Stream, n: nat)
    requires s.Valid() && WellFormed(e) && (s1, n) == ReadLength(s)
    ensures s1.Valid() && |ReadElems(s1, e, n, [], asSet).1| <= |s.data| - s.offset
  {
    LengthMovesOn(s, s1, n);
    ElementsMoveOn(s1, e, n, [], asSet);
  }

  /** A container read from any bytes has no more elements than there were bytes. */
  lemma ListsAreBounded(s: Stream, e: Type)
    requires s.Valid() && WellFormed(e)
    ensures var v := Read(s, List(e)).1; v.ListOf? && |v.elems| <= |s.data| - s.offset
  {
    ElementsAreBounded(s, e, false, ReadLength(s).0, ReadLength(s).1);
  }

  lemma SetsAreBounded(s: Stream, e: Type)
    requires s.Valid() && WellFormed(e)
    ensures var v := Read(s, Set(e)).1; v.SetOf? && |v.elems| <= |s.data| - s.offset
  {
    ElementsAreBounded(s, e, true, ReadLength(s).0, ReadLength(s).1);
  }

  lemma CutDown(s: Stream, s1: Stream, head: seq<byte>, rest: seq<byte>, n: nat)
    requires Holds(s, head, rest) && s1 == Skipped(s, |head|) && |rest| < n
    requires ReadU64(s) == (s1, n) && Narrow(n, 4, false) == n
    ensures Read(s, ByteArray).1 == Bytes(rest)
    ensures !Read(s, ByteArray).0.ok && Read(s, ByteArray).0.offset == |s.data|
  {
    HoldsNext(s, head, rest);
    assert ReadLength(s) == (s1.(ok := false), |rest|);
  }

  /** A byte array whose length promises more than is left: what is left is the array, and the flag drops. */
  lemma ArrayCutDown(s: Stream, n: nat, rest: seq<byte>)
    requires n < 0x1_0000_0000 && Holds(s, Encode(n), rest) && |rest| < n
    ensures Read(s, ByteArray).1 == Bytes(rest)
    ensures !Read(s, ByteArray).0.ok && Read(s, ByteArray).0.offset == |s.data|
  {
    IntegerReadsBack(s, n, rest);
    NarrowInverts(n, 4, false);
    CutDown(s, Skipped(s, |Encode(n)|), Encode(n), rest, n);
  }

  /** Past the end integers read as 0 and floats as zeros, and the flag drops. */
  lemma PastTheEnd(s: Stream)
    requires s.Valid() && s.offset == |s.data|
    ensures ReadU64(s) == (s.(ok := false), 0)
    ensures ReadFour(s) == (s.(ok := false), [0, 0, 0, 0])
  {
  }

  // ----- Containers of small numbers, whose elements take one byte each

  function SmallInts(ns: seq<byte>): (vs: seq<Value>)
    ensures |vs| == |ns|
  {
    seq(|ns|, i requires 0 <= i < |ns| => Int(ns[i]))
  }

  lemma SmallInt(n: nat)
    requires n < 0x80
    ensures Encode(ToU64(n)) == [n]
  {
    assert ToU64(n) == n;
    SmallNumber(n);
  }

  lemma {:induction false} SmallElements(ns: seq<byte>)
    requires forall i :: 0 <= i < |ns| ==> ns[i] < 0x80
    ensures SerializeAll(SmallInts(ns)) == ns
  {
    if ns != [] {
      assert SmallInts(ns)[1..] == SmallInts(ns[1..]);
      SmallElements(ns[1..]);
      SmallInt(ns[0]);
      assert [ns[0]] + ns[1..] == ns;
    }
  }

  /** The count and then the elements in order. */
  lemma SmallContainers(ns: seq<byte>)
    requires (forall i :: 0 <= i < |ns| ==> ns[i] < 0x80) && |ns| < 0x80
    ensures Serialize(ListOf(SmallInts(ns))) == [|ns|] + ns
    ensures Serialize(SetOf(SmallInts(ns))) == [|ns|] + ns
  {
    SmallElements(ns);
    SmallInt(|ns|);
  }

  /** The first of a pair and then the second. */
  lemma SmallPair(a: nat, b: nat)
    requires a < 0x80 && b < 0x80
    ensures Serialize(PairOf(Int(a), Int(b))) == [a, b]
  {
    SmallInt(a);
    SmallInt(b);
  }

  /** The length of an array and then its bytes. */
  lemma SmallArray(bs: seq<byte>)
    requires |bs| < 0x80
    ensures Serialize(Bytes(bs)) == [|bs|] + bs
  {
    SmallInt(|bs|);
  }
}
