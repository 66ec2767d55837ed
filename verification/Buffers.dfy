/** Writing into part of a byte buffer. */
module Buffers {
  import opened Bytes

  /** `bs` with the bytes from `at` on replaced by `d`. */
  ghost function Splice(bs: seq<byte>, at: nat, d: seq<byte>): (r: seq<byte>)
    requires at + |d| <= |bs|
    ensures |r| == |bs|
  {
    bs[..at] + d + bs[at + |d|..]
  }

  lemma SpliceStep(bs: seq<byte>, at: nat, d: seq<byte>, i: nat)
    requires at + |d| <= |bs| && i < |d|
    ensures Splice(bs, at, d[..i])[at + i := d[i]] == Splice(bs, at, d[..i + 1])
  {
  }

  method CopyInto(buffer: array<byte>, at: nat, d: seq<byte>)
    requires at + |d| <= buffer.Length
    modifies buffer
    ensures buffer[..] == Splice(old(buffer[..]), at, d)
  {
    ghost var before := buffer[..];
    assert Splice(before, at, d[..0]) == before;
    for i := 0 to |d|
      invariant buffer[..] == Splice(before, at, d[..i])
    {
      SpliceStep(before, at, d, i);
      buffer[at + i] := d[i];
    }
    assert d[..|d|] == d;
  }

  lemma SliceOfSlice<T>(s: seq<T>, lo: nat, hi: nat, from: nat, to: nat)
    requires lo <= hi <= |s| && from <= to <= hi - lo
    ensures s[lo..hi][from..to] == s[lo + from..lo + to]
  {
    forall i | 0 <= i < to - from
      ensures s[lo..hi][from..to][i] == s[lo + from..lo + to][i]
    {
    }
  }

  lemma SplitAt<T>(s: seq<T>, lo: nat, at: nat, hi: nat)
    requires lo <= at <= hi <= |s|
    ensures s[lo..hi] == s[lo..at] + s[at..hi]
  {
    forall i | 0 <= i < hi - lo
      ensures s[lo..hi][i] == (s[lo..at] + s[at..hi])[i]
    {
    }
  }
}
