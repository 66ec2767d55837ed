/** Dirty-rectangle coalescing of the in-game overlay (overlay/lib.cpp, the BLIT case of Pipe::checkMessage).

    The overlay collects the rectangles that changed and merges any two that intersect into their
    bounding box, restarting the scan after each merge.  The result is shown to be canonical: it is the
    least pairwise non-intersecting family of rectangles that covers the input, and so it does not
    depend on the order in which the blits arrive. */
module DirtyRects {
  import opened Bytes

  /** A Win32 RECT: right and bottom are exclusive. */
  datatype Rect = Rect(left: int, top: int, right: int, bottom: int)

  /** The four unsigned 32-bit fields of OverlayMsgBlit. */
  datatype BlitMsg = BlitMsg(x: u32, y: u32, w: u32, h: u32)

  function Max(a: int, b: int): int { if a < b then b else a }

  function Min(a: int, b: int): int { if a < b then a else b }

  predicate NonEmpty(r: Rect) {
    r.left < r.right && r.top < r.bottom
  }

  /** The truth value of IntersectRect: the common part is not empty. */
  predicate Intersects(r: Rect, s: Rect) {
    && NonEmpty(r) && NonEmpty(s)
    && Max(r.left, s.left) < Min(r.right, s.right)
    && Max(r.top, s.top) < Min(r.bottom, s.bottom)
  }

  /** UnionRect: the bounding box; an empty operand is ignored. */
  function Union(r: Rect, s: Rect): Rect {
    if !NonEmpty(r) then s
    else if !NonEmpty(s) then r
    else Rect(Min(r.left, s.left), Min(r.top, s.top), Max(r.right, s.right), Max(r.bottom, s.bottom))
  }

  predicate Inside(r: Rect, s: Rect) {
    s.left <= r.left && s.top <= r.top && r.right <= s.right && r.bottom <= s.bottom
  }

  /** The corners, with sums that wrap and casts to LONG. */
  function ToRect(m: BlitMsg): Rect {
    Rect(ToInt32(m.x), ToInt32(m.y), ToInt32(AddU32(m.x, m.w)), ToInt32(AddU32(m.y, m.h)))
  }

  /** The corners agree with the message modulo 2^32 and are signed 32-bit numbers. */
  lemma Corners(m: BlitMsg)
    ensures var r := ToRect(m);
            && (r.left - m.x) % 0x1_0000_0000 == 0 && (r.top - m.y) % 0x1_0000_0000 == 0
            && (r.right - m.x - m.w) % 0x1_0000_0000 == 0 && (r.bottom - m.y - m.h) % 0x1_0000_0000 == 0
            && -0x8000_0000 <= r.left < 0x8000_0000 && -0x8000_0000 <= r.top < 0x8000_0000
            && -0x8000_0000 <= r.right < 0x8000_0000 && -0x8000_0000 <= r.bottom < 0x8000_0000
  {
  }

  lemma ExtentIsPositive(x: u32, w: u32)
    ensures ToInt32(x) < ToInt32(AddU32(x, w)) <==> 0 < w && ToInt32(x) + w < 0x8000_0000
  {
    assert AddU32(x, w) == if x + w < 0x1_0000_0000 then x + w else x + w - 0x1_0000_0000;
  }

  /** A message gives a non-empty rectangle exactly when both extents are positive and neither far edge
      leaves the signed 32-bit range; otherwise the wrapped edge lies at or before the near one. */
  lemma BlitIsNonEmpty(m: BlitMsg)
    ensures NonEmpty(ToRect(m)) <==>
            && 0 < m.w && ToInt32(m.x) + m.w < 0x8000_0000
            && 0 < m.h && ToInt32(m.y) + m.h < 0x8000_0000
  {
    ExtentIsPositive(m.x, m.w);
    ExtentIsPositive(m.y, m.h);
  }

  // ----- Points

  /** The point lies in the rectangle. */
  predicate Has(r: Rect, px: int, py: int) {
    r.left <= px < r.right && r.top <= py < r.bottom
  }

  /** The point lies in the blit: x and y are the near corner as signed numbers, and a blit whose far edge
      leaves the signed 32-bit range has no points. */
  predicate InBlit(m: BlitMsg, px: int, py: int) {
    var x := if m.x < 0x8000_0000 then m.x else m.x - 0x1_0000_0000;
    var y := if m.y < 0x8000_0000 then m.y else m.y - 0x1_0000_0000;
    && x + m.w < 0x8000_0000 && y + m.h < 0x8000_0000
    && x <= px < x + m.w && y <= py < y + m.h
  }

  lemma PointsOfBlit(m: BlitMsg, px: int, py: int)
    ensures Has(ToRect(m), px, py) <==> InBlit(m, px, py)
  {
    ExtentIsPositive(m.x, m.w);
    ExtentIsPositive(m.y, m.h);
  }

  /** Rectangles intersect exactly when they share a point; touching edges do not count. */
  lemma IntersectingShareAPoint(r: Rect, s: Rect)
    ensures Intersects(r, s) <==> exists px, py :: Has(r, px, py) && Has(s, px, py)
  {
    if Intersects(r, s) {
      assert Has(r, Max(r.left, s.left), Max(r.top, s.top)) && Has(s, Max(r.left, s.left), Max(r.top, s.top));
    }
  }

  /** The union holds the points of both, and lies inside every rectangle that does. */
  lemma UnionIsBoundingBox(r: Rect, s: Rect, t: Rect)
    requires NonEmpty(r) && NonEmpty(s)
    ensures forall px, py :: Has(r, px, py) || Has(s, px, py) ==> Has(Union(r, s), px, py)
    ensures Inside(Union(r, s), t) <==> forall px, py :: Has(r, px, py) || Has(s, px, py) ==> Has(t, px, py)
  {
    if forall px, py :: Has(r, px, py) || Has(s, px, py) ==> Has(t, px, py) {
      assert Has(r, r.left, r.top) && Has(r, r.right - 1, r.bottom - 1);
      assert Has(s, s.left, s.top) && Has(s, s.right - 1, s.bottom - 1);
    }
  }

  // ----- What a canonical family is

  /** No two members at different places intersect. */
  ghost predicate Disjoint(rs: seq<Rect>) {
    forall i, j :: 0 <= i < j < |rs| ==> !Intersects(rs[i], rs[j])
  }

  /** A set of rectangles no two of which intersect. */
  ghost predicate DisjointFamily(f: set<Rect>) {
    forall r, s :: r in f && s in f && r != s ==> !Intersects(r, s)
  }

  /** `r` lies inside some non-empty member of the family. */
  ghost predicate Covered(r: Rect, f: set<Rect>) {
    exists s :: s in f && NonEmpty(s) && Inside(r, s)
  }

  /** Every non-empty rectangle of `rs` is covered by the family. */
  ghost predicate CoveredBy(rs: seq<Rect>, f: set<Rect>) {
    forall r {:trigger Covered(r, f)} :: r in rs && NonEmpty(r) ==> Covered(r, f)
  }

  ghost function Members(rs: seq<Rect>): (f: set<Rect>) {
    set r | r in rs
  }

  /** Every non-empty member of `rs` lies inside a member of any disjoint family covering `input`. */
  ghost predicate Least(rs: seq<Rect>, input: seq<Rect>) {
    forall f: set<Rect> {:trigger CoveredBy(rs, f)} :: DisjointFamily(f) && CoveredBy(input, f) ==> CoveredBy(rs, f)
  }

  /** The same empty rectangles, each as many times. */
  ghost predicate SameEmpties(rs: seq<Rect>, input: seq<Rect>) {
    forall r :: !NonEmpty(r) ==> multiset(rs)[r] == multiset(input)[r]
  }

  /** `rs` is the least disjoint family covering `input`; empty rectangles pass through untouched. */
  ghost predicate Canonical(rs: seq<Rect>, input: seq<Rect>) {
    && Disjoint(rs)
    && CoveredBy(input, Members(rs))
    && Least(rs, input)
    && SameEmpties(rs, input)
  }

  // ----- The algorithm

  ghost function Rects(msgs: seq<BlitMsg>): (rs: seq<Rect>) {
    seq(|msgs|, i requires 0 <= i < |msgs| => ToRect(msgs[i]))
  }

  lemma StepStart(blits: seq<Rect>, r: Rect, input: seq<Rect>)
    requires Canonical(blits, input)
    ensures CoveredBy(input + [r], Members(blits + [r])) && Least(blits + [r], input + [r])
    ensures SameEmpties(blits + [r], input + [r])
  {
    var more := Members(blits + [r]);
    assert Members(blits) <= more;
    assert r in more;
    forall x | x in input + [r] && NonEmpty(x)
      ensures Covered(x, more)
    {
      if x in input {
        assert Covered(x, Members(blits));
      } else {
        assert Inside(x, r);
      }
    }
    forall f: set<Rect> | DisjointFamily(f) && CoveredBy(input + [r], f)
      ensures CoveredBy(blits + [r], f)
    {
      assert Covered(r, f) || !NonEmpty(r);
      assert CoveredBy(input, f);
      assert CoveredBy(blits, f);
    }
    assert multiset(blits + [r]) == multiset(blits) + multiset{r};
    assert multiset(input + [r]) == multiset(input) + multiset{r};
  }

  lemma MergeKeepsCover(blits: seq<Rect>, i: nat, r: Rect, goal: seq<Rect>)
    requires i < |blits| && Intersects(r, blits[i])
    requires CoveredBy(goal, Members(blits + [r]))
    ensures CoveredBy(goal, Members(blits[..i] + blits[i + 1..] + [Union(r, blits[i])]))
  {
    var u := Union(r, blits[i]);
    var after := blits[..i] + blits[i + 1..] + [u];
    forall x | x in goal && NonEmpty(x)
      ensures Covered(x, Members(after))
    {
      assert Covered(x, Members(blits + [r]));
      var s :| s in Members(blits + [r]) && NonEmpty(s) && Inside(x, s);
      if s == r || s == blits[i] {
        assert after[|after| - 1] == u;
        assert Inside(x, u);
      } else {
        var j :| 0 <= j < |blits| && blits[j] == s;
        assert after[if j < i then j else j - 1] == s;
      }
    }
  }

  /** Two intersecting rectangles inside members of a disjoint family are inside the same one,
      which then holds their bounding box too. */
  lemma MergeKeepsLeast(blits: seq<Rect>, i: nat, r: Rect, goal: seq<Rect>)
    requires i < |blits| && Intersects(r, blits[i])
    requires Least(blits + [r], goal)
    ensures Least(blits[..i] + blits[i + 1..] + [Union(r, blits[i])], goal)
  {
    var u := Union(r, blits[i]);
    var after := blits[..i] + blits[i + 1..] + [u];
    forall f: set<Rect> | DisjointFamily(f) && CoveredBy(goal, f)
      ensures CoveredBy(after, f)
    {
      assert r in blits + [r] && blits[i] in blits + [r];
      assert CoveredBy(blits + [r], f);
      assert Covered(r, f) && Covered(blits[i], f);
      var s :| s in f && NonEmpty(s) && Inside(r, s);
      var t :| t in f && NonEmpty(t) && Inside(blits[i], t);
      assert Intersects(s, t);
      assert Inside(u, s);
      assert Covered(u, f);
      assert forall x :: x in after && x != u ==> x in blits;
    }
  }

  lemma MergeKeepsEmpties(blits: seq<Rect>, i: nat, r: Rect, goal: seq<Rect>)
    requires i < |blits| && Intersects(r, blits[i])
    requires SameEmpties(blits + [r], goal)
    ensures SameEmpties(blits[..i] + blits[i + 1..] + [Union(r, blits[i])], goal)
  {
    assert blits == blits[..i] + [blits[i]] + blits[i + 1..];
    var rest := multiset(blits[..i] + blits[i + 1..]);
    assert multiset(blits + [r]) == rest + multiset{blits[i]} + multiset{r};
    assert multiset(blits[..i] + blits[i + 1..] + [Union(r, blits[i])]) == rest + multiset{Union(r, blits[i])};
  }

  /** The loop for one rectangle.  `input` is the list of rectangles merged so far. */
  method AddBlit(blits0: seq<Rect>, r0: Rect, ghost input: seq<Rect>) returns (blits: seq<Rect>)
    requires Canonical(blits0, input)
    ensures Canonical(blits, input + [r0])
  {
    blits := blits0;
    var r := r0;
    var i := 0;
    ghost var goal := input + [r0];
    StepStart(blits0, r0, input);
    while i != |blits|
      invariant 0 <= i <= |blits|
      invariant Disjoint(blits)
      invariant CoveredBy(goal, Members(blits + [r])) && Least(blits + [r], goal)
      invariant SameEmpties(blits + [r], goal)
      invariant forall j :: 0 <= j < i ==> !Intersects(r, blits[j])
      decreases |blits|, |blits| - i
    {
      if Intersects(r, blits[i]) {
        MergeKeepsCover(blits, i, r, goal);
        MergeKeepsLeast(blits, i, r, goal);
        MergeKeepsEmpties(blits, i, r, goal);
        r := Union(r, blits[i]);
        blits := blits[..i] + blits[i + 1..];
        i := 0;
      } else {
        i := i + 1;
      }
    }
    blits := blits + [r];
  }

  lemma PointsAreCovered(msgs: seq<BlitMsg>, blits: seq<Rect>)
    requires CoveredBy(Rects(msgs), Members(blits))
    ensures forall m, px, py :: m in msgs && InBlit(m, px, py) ==> exists r :: r in blits && Has(r, px, py)
  {
    forall m, px, py | m in msgs && InBlit(m, px, py)
      ensures exists r :: r in blits && Has(r, px, py)
    {
      var k :| 0 <= k < |msgs| && msgs[k] == m;
      var r := Rects(msgs)[k];
      assert r == ToRect(m);
      PointsOfBlit(m, px, py);
      assert Has(r, px, py);
      assert NonEmpty(r) && Covered(r, Members(blits));
      var s :| s in Members(blits) && Inside(r, s);
      assert Inside(r, s) && Has(s, px, py);
    }
  }

  lemma NoPointTwice(blits: seq<Rect>)
    requires Disjoint(blits)
    ensures forall i, j, px, py :: 0 <= i < j < |blits| ==> !(Has(blits[i], px, py) && Has(blits[j], px, py))
  {
    forall i, j, px, py | 0 <= i < j < |blits|
      ensures !(Has(blits[i], px, py) && Has(blits[j], px, py))
    {
      IntersectingShareAPoint(blits[i], blits[j]);
    }
  }

  /** Handles the BLIT messages of one checkMessage call: each rectangle swallows the listed
      rectangles it intersects, the scan starting over after each merge. */
  method CollectBlits(msgs: seq<BlitMsg>) returns (blits: seq<Rect>)
    ensures Canonical(blits, Rects(msgs))
    ensures forall m, px, py :: m in msgs && InBlit(m, px, py) ==> exists r :: r in blits && Has(r, px, py)
    ensures forall i, j, px, py :: 0 <= i < j < |blits| ==> !(Has(blits[i], px, py) && Has(blits[j], px, py))
  {
    blits := [];
    for k := 0 to |msgs|
      invariant Canonical(blits, Rects(msgs[..k]))
    {
      assert Rects(msgs[..k + 1]) == Rects(msgs[..k]) + [ToRect(msgs[k])];
      assert msgs[..k + 1] == msgs[..k] + [msgs[k]];
      blits := AddBlit(blits, ToRect(msgs[k]), Rects(msgs[..k]));
    }
    assert msgs[..|msgs|] == msgs;
    PointsAreCovered(msgs, blits);
    NoPointTwice(blits);
  }

  // ----- The canonical family is unique

  lemma DisjointAsFamily(rs: seq<Rect>)
    requires Disjoint(rs)
    ensures DisjointFamily(Members(rs))
  {
    forall r, s | r in Members(rs) && s in Members(rs) && r != s
      ensures !Intersects(r, s)
    {
      var i :| 0 <= i < |rs| && rs[i] == r;
      var j :| 0 <= j < |rs| && rs[j] == s;
      assert i < j || j < i;
    }
  }

  /** Two members of a disjoint family with a rectangle between them are the same. */
  lemma Between(out: seq<Rect>, r: Rect, s: Rect, t: Rect)
    requires Disjoint(out) && r in out && t in out && NonEmpty(r) && Inside(r, s) && Inside(s, t)
    ensures r == s == t
  {
    DisjointAsFamily(out);
    assert r in Members(out) && t in Members(out) && Intersects(r, t);
  }

  /** Either family is covered by the other. */
  lemma MembersAreCovered(input: seq<Rect>, input': seq<Rect>, out: seq<Rect>, out': seq<Rect>)
    requires forall x :: x in input <==> x in input'
    requires Canonical(out, input) && Canonical(out', input')
    ensures CoveredBy(out, Members(out'))
  {
    DisjointAsFamily(out');
    assert CoveredBy(input, Members(out'));
  }

  lemma SameMember(input: seq<Rect>, input': seq<Rect>, out: seq<Rect>, out': seq<Rect>, r: Rect)
    requires forall x :: x in input <==> x in input'
    requires Canonical(out, input) && Canonical(out', input')
    requires r in out && NonEmpty(r)
    ensures r in out'
  {
    MembersAreCovered(input, input', out, out');
    MembersAreCovered(input', input, out', out);
    assert Covered(r, Members(out'));
    var s :| s in Members(out') && NonEmpty(s) && Inside(r, s);
    assert Covered(s, Members(out));
    var t :| t in Members(out) && NonEmpty(t) && Inside(s, t);
    Between(out, r, s, t);
  }

  lemma {:induction false} AtMostOnce(rs: seq<Rect>, r: Rect)
    requires Disjoint(rs) && NonEmpty(r)
    ensures multiset(rs)[r] <= 1
  {
    if rs == [] {
    } else {
      var front := rs[..|rs| - 1];
      assert rs == front + [rs[|rs| - 1]];
      AtMostOnce(front, r);
      assert forall i :: 0 <= i < |front| && front[i] == r ==> Intersects(rs[i], r);
    }
  }

  /** Two runs over blits in any order give the same rectangles with the same multiplicities. */
  lemma OrderDoesNotMatter(input: seq<Rect>, input': seq<Rect>, out: seq<Rect>, out': seq<Rect>)
    requires multiset(input) == multiset(input')
    requires Canonical(out, input) && Canonical(out', input')
    ensures multiset(out) == multiset(out')
  {
    assert forall r :: r in input <==> r in multiset(input);
    assert forall r :: r in input' <==> r in multiset(input');
    forall r
      ensures multiset(out)[r] == multiset(out')[r]
    {
      if NonEmpty(r) {
        AtMostOnce(out, r);
        AtMostOnce(out', r);
        if r in out { SameMember(input, input', out, out', r); }
        if r in out' { SameMember(input', input, out', out, r); }
        assert r in out <==> r in multiset(out);
        assert r in out' <==> r in multiset(out');
      } else {
        assert multiset(out)[r] == multiset(input)[r];
      }
    }
  }
}
