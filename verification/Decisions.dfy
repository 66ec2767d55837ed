/** Who gets a permission (src/ACL.cpp): the result of the walk stated on the access control lists
    themselves.

    A place (k, i) is entry `i` in the list of channel `k` of the root path.  An entry speaks about a flag
    if it names it, applies in the queried channel and is about the user, by id or by group.  The last
    entry that speaks decides. */
module Decisions {
  import opened Sequences
  import opened ServerTypes
  import opened Groups
  import opened Acl

  /** The entry at the place is about the user: it carries the user's own id, whatever its group, or its
      group applies. */
  predicate Addressed(q: Query, k: nat, i: nat)
    requires k < q.Length() && i < |q.current[k].qlACL|
  {
    var acl := q.current[k].qlACL[i];
    || (acl.iUserId == q.user.iId && acl.iUserId != -1)
    || AppliesTo(q.current, q.current[..k + 1], acl.qsGroup, q.user, q.home, q.lib)
  }

  /** In the queried channel, the last of the path, an entry applies if it applies here; in a channel above
      it, if it applies to sub-channels.  On the way, Traverse is also decided by entries that apply in
      the channel passed. */
  predicate InEffect(q: Query, traversing: bool, k: nat, i: nat)
    requires k < q.Length() && i < |q.current[k].qlACL|
  {
    var acl := q.current[k].qlACL[i];
    if k < q.Length() - 1 then acl.bApplySubs || (traversing && acl.bApplyHere) else acl.bApplyHere
  }

  predicate Speaks(q: Query, traversing: bool, b: Flag, k: nat, i: nat) {
    && k < q.Length() && i < |q.current[k].qlACL|
    && (b in q.current[k].qlACL[i].pAllow || b in q.current[k].qlACL[i].pDeny)
    && InEffect(q, traversing, k, i) && Addressed(q, k, i)
  }

  predicate Later(k: nat, i: nat, k': nat, i': nat) {
    k < k' || (k == k' && i < i')
  }

  /** The place is in the lists of the channels from `lo` on, before place `m` of channel `hi`. */
  predicate Within(lo: nat, hi: nat, m: nat, k: nat, i: nat) {
    lo <= k && Later(k, i, hi, m)
  }

  ghost predicate LastWord(q: Query, lo: nat, hi: nat, m: nat, traversing: bool, b: Flag, k: nat, i: nat) {
    && Within(lo, hi, m, k, i) && Speaks(q, traversing, b, k, i)
    && forall k': nat, i': nat :: Within(lo, hi, m, k', i') && Later(k, i, k', i') ==> !Speaks(q, traversing, b, k', i')
  }

  ghost predicate Silent(q: Query, lo: nat, hi: nat, m: nat, traversing: bool, b: Flag) {
    forall k: nat, i: nat :: Within(lo, hi, m, k, i) ==> !Speaks(q, traversing, b, k, i)
  }

  /** The last entry that speaks about the flag allows it and does not deny it; if none speaks, `default`
      holds. */
  ghost predicate AllowedBefore(q: Query, lo: nat, hi: nat, m: nat, traversing: bool, b: Flag, default: bool) {
    || (exists k: nat, i: nat :: LastWord(q, lo, hi, m, traversing, b, k, i)
                                 && b in q.current[k].qlACL[i].pAllow && b !in q.current[k].qlACL[i].pDeny)
    || (default && Silent(q, lo, hi, m, traversing, b))
  }

  /** The same for whole lists: the channels from `lo` up to but not including `hi`. */
  ghost predicate Allowed(q: Query, lo: nat, hi: nat, traversing: bool, b: Flag, default: bool) {
    AllowedBefore(q, lo, hi, 0, traversing, b, default)
  }

  /** Some channel on the path leaves the user without Traverse and without Write. */
  ghost predicate Stopped(q: Query) {
    exists k: nat :: k < q.Length() && StoppedAt(q, k)
  }

  ghost predicate StoppedAt(q: Query, k: nat) {
    !Allowed(q, 0, k + 1, true, 0x2, true) && !Allowed(q, 0, k + 1, false, 0x1, false)
  }

  /** The last channel of the path that does not inherit its list, or the root. */
  predicate StartsAt(q: Query, s: nat) {
    && s < q.Length()
    && (s == 0 || !q.current[s].bInheritACL)
    && forall j :: s < j < q.Length() ==> q.current[j].bInheritACL
  }

  /** The flag is granted by the lists alone: the server-wide flags by the queried channel's own list, if
      its id is 0; the others by the lists from `s` on, six of them by default. */
  ghost predicate Granted(q: Query, s: nat, b: Flag)
    requires q.Valid()
  {
    var n := q.Length();
    if b in {0x1_0000, 0x2_0000, 0x4_0000, 0x8_0000, 0x10_0000}
    then q.current[n - 1].iId == 0 && Allowed(q, n - 1, n, false, b, false)
    else Allowed(q, s, n, false, b, b in {0x2, 0x4, 0x8, 0x100, 0x200, 0x800})
  }

  // ----- Proof

  lemma OneMorePlace(q: Query, lo: nat, hi: nat, m: nat, traversing: bool, b: Flag, default: bool)
    requires lo <= hi
    ensures AllowedBefore(q, lo, hi, m + 1, traversing, b, default) <==>
            if Speaks(q, traversing, b, hi, m) then b in q.current[hi].qlACL[m].pAllow && b !in q.current[hi].qlACL[m].pDeny
            else AllowedBefore(q, lo, hi, m, traversing, b, default)
  {
    assert Within(lo, hi, m + 1, hi, m);
    forall k: nat, i: nat
      ensures Within(lo, hi, m + 1, k, i) <==> Within(lo, hi, m, k, i) || (k == hi && i == m)
    {
    }
    if Speaks(q, traversing, b, hi, m) {
      assert LastWord(q, lo, hi, m + 1, traversing, b, hi, m);
    } else {
      forall k: nat, i: nat
        ensures LastWord(q, lo, hi, m + 1, traversing, b, k, i) <==> LastWord(q, lo, hi, m, traversing, b, k, i)
      {
      }
    }
  }

  /** After the last place of one list comes the first of the next. */
  lemma NextList(q: Query, lo: nat, hi: nat, m: nat, traversing: bool, b: Flag, default: bool)
    requires hi < q.Length() && m == |q.current[hi].qlACL|
    ensures AllowedBefore(q, lo, hi + 1, 0, traversing, b, default) <==> AllowedBefore(q, lo, hi, m, traversing, b, default)
  {
    forall k: nat, i: nat | Speaks(q, traversing, b, k, i)
      ensures Within(lo, hi + 1, 0, k, i) <==> Within(lo, hi, m, k, i)
    {
    }
    forall k: nat, i: nat
      ensures LastWord(q, lo, hi + 1, 0, traversing, b, k, i) <==> LastWord(q, lo, hi, m, traversing, b, k, i)
    {
    }
  }

  /** The fold over the entries of the first channels and of part of the next list. */
  function FoldBefore(q: Query, lo: nat, hi: nat, m: nat, traversing: bool, b: Flag, default: bool): bool
    requires hi <= q.Length() && (m == 0 || (hi < q.Length() && m <= |q.current[hi].qlACL|))
  {
    var sofar := Verdict(Entries(q, lo, hi, traversing), b, default);
    if m == 0 then sofar else Verdict(EntriesOf(q, hi, q.current[hi].qlACL[..m], traversing), b, sofar)
  }

  lemma FoldEntry(q: Query, lo: nat, hi: nat, m: nat, traversing: bool, b: Flag, default: bool)
    requires hi < q.Length() && m < |q.current[hi].qlACL|
    ensures FoldBefore(q, lo, hi, m + 1, traversing, b, default) ==
            if Speaks(q, traversing, b, hi, m) then b in q.current[hi].qlACL[m].pAllow && b !in q.current[hi].qlACL[m].pDeny
            else FoldBefore(q, lo, hi, m, traversing, b, default)
  {
    var acls := q.current[hi].qlACL[..m + 1];
    assert Init(acls) == q.current[hi].qlACL[..m] && Last(acls) == q.current[hi].qlACL[m];
    VerdictAppend(EntriesOf(q, hi, Init(acls), traversing), Last(acls), b, Verdict(Entries(q, lo, hi, traversing), b, default));
  }

  lemma FoldList(q: Query, lo: nat, hi: nat, traversing: bool, b: Flag, default: bool)
    requires lo <= hi < q.Length()
    ensures FoldBefore(q, lo, hi + 1, 0, traversing, b, default) ==
            FoldBefore(q, lo, hi, |q.current[hi].qlACL|, traversing, b, default)
  {
    var acls := q.current[hi].qlACL;
    assert acls[..|acls|] == acls;
    VerdictConcat(Entries(q, lo, hi, traversing), EntriesOf(q, hi, acls, traversing), b, default);
  }

  /** The fold gives the word of the last entry that speaks. */
  ghost predicate Agree(q: Query, lo: nat, hi: nat, m: nat, traversing: bool, b: Flag, default: bool) {
    && hi <= q.Length() && (m == 0 || (hi < q.Length() && m <= |q.current[hi].qlACL|))
    && FoldBefore(q, lo, hi, m, traversing, b, default) == AllowedBefore(q, lo, hi, m, traversing, b, default)
  }

  lemma NothingYet(q: Query, lo: nat, traversing: bool, b: Flag, default: bool)
    requires lo <= q.Length()
    ensures Agree(q, lo, lo, 0, traversing, b, default)
  {
    assert forall k: nat, i: nat :: !Within(lo, lo, 0, k, i);
  }

  lemma AgreeEntry(q: Query, lo: nat, hi: nat, m: nat, traversing: bool, b: Flag, default: bool)
    requires lo <= hi < q.Length() && m < |q.current[hi].qlACL| && Agree(q, lo, hi, m, traversing, b, default)
    ensures Agree(q, lo, hi, m + 1, traversing, b, default)
  {
    FoldEntry(q, lo, hi, m, traversing, b, default);
    OneMorePlace(q, lo, hi, m, traversing, b, default);
  }

  lemma AgreeList(q: Query, lo: nat, hi: nat, traversing: bool, b: Flag, default: bool)
    requires lo <= hi < q.Length() && Agree(q, lo, hi, |q.current[hi].qlACL|, traversing, b, default)
    ensures Agree(q, lo, hi + 1, 0, traversing, b, default)
  {
    FoldList(q, lo, hi, traversing, b, default);
    NextList(q, lo, hi, |q.current[hi].qlACL|, traversing, b, default);
  }

  lemma {:induction false} AgreeInList(q: Query, lo: nat, hi: nat, m: nat, traversing: bool, b: Flag, default: bool)
    requires lo <= hi < q.Length() && m <= |q.current[hi].qlACL| && Agree(q, lo, hi, 0, traversing, b, default)
    ensures Agree(q, lo, hi, m, traversing, b, default)
  {
    if m > 0 {
      AgreeInList(q, lo, hi, m - 1, traversing, b, default);
      AgreeEntry(q, lo, hi, m - 1, traversing, b, default);
    }
  }

  lemma {:induction false} FoldIsLastWord(q: Query, lo: nat, hi: nat, traversing: bool, b: Flag, default: bool)
    requires lo <= hi <= q.Length()
    ensures Agree(q, lo, hi, 0, traversing, b, default)
  {
    if lo == hi {
      NothingYet(q, lo, traversing, b, default);
    } else {
      FoldIsLastWord(q, lo, hi - 1, traversing, b, default);
      AgreeInList(q, lo, hi - 1, |q.current[hi - 1].qlACL|, traversing, b, default);
      AgreeList(q, lo, hi - 1, traversing, b, default);
    }
  }

  lemma AllowedIsLastEntry(q: Query, lo: nat, hi: nat, traversing: bool, b: Flag, default: bool)
    requires lo <= hi <= q.Length()
    ensures Allowed(q, lo, hi, traversing, b, default) <==> LastEntryHolds(Entries(q, lo, hi, traversing), b, default)
  {
    FoldIsLastWord(q, lo, hi, traversing, b, default);
    VerdictIsLastEntry(Entries(q, lo, hi, traversing), b, default);
  }

  lemma StoppedIsBlocked(q: Query)
    ensures Stopped(q) <==> Blocked(q)
  {
    forall k: nat | k < q.Length()
      ensures StoppedAt(q, k) <==> BlockedAt(q, k)
    {
      AllowedIsLastEntry(q, 0, k + 1, true, TRAVERSE, true);
      AllowedIsLastEntry(q, 0, k + 1, false, WRITE, false);
    }
  }

  lemma GrantedIsHeld(q: Query, s: nat, b: Flag)
    requires q.Valid() && StartsAt(q, s)
    ensures Granted(q, s, b) <==> Held(q, b)
  {
    var n := q.Length();
    assert s == Start(q, n);
    if b in ROOT_ONLY {
      AllowedIsLastEntry(q, n - 1, n, false, b, false);
    } else {
      AllowedIsLastEntry(q, s, n, false, b, b in DEFAULTS);
    }
  }

  // ----- The result

  /** Who gets a flag, for everyone but the superuser: nobody stopped on the way; otherwise whoever is
      granted it, or is granted Write where Write brings it along. */
  lemma FreshByPlaces(q: Query, s: nat, b: Flag)
    requires q.Valid() && q.user.iId != 0 && StartsAt(q, s) && b != 0x800_0000
    ensures b in Fresh(q) <==>
            && !Stopped(q)
            && (|| Granted(q, s, b)
                || (Granted(q, s, 0x1)
                    && (|| b in {0x2, 0x4, 0x10, 0x20, 0x40, 0x80, 0x200, 0x400, 0x800}
                        || (q.current[q.Length() - 1].iId == 0
                            && b in {0x1_0000, 0x2_0000, 0x4_0000, 0x8_0000, 0x10_0000}))))
  {
    FreshFlag(q, b);
    StoppedIsBlocked(q);
    GrantedIsHeld(q, s, b);
    GrantedIsHeld(q, s, WRITE);
  }

  /** The superuser, the user with id 0, has every permission but speaking and whispering. */
  lemma SuperUser(q: Query)
    requires q.Valid() && q.user.iId == 0
    ensures Fresh(q) == {0x1, 0x2, 0x4, 0x10, 0x20, 0x40, 0x80, 0x200, 0x400, 0x800,
                         0x1_0000, 0x2_0000, 0x4_0000, 0x8_0000, 0x10_0000}
  {
  }

  /** Without entries the user has the six defaults. */
  lemma DefaultsAlone(q: Query)
    requires q.Valid() && q.user.iId != 0
    requires forall k :: 0 <= k < q.Length() ==> q.current[k].qlACL == []
    ensures Fresh(q) == {0x2, 0x4, 0x8, 0x100, 0x200, 0x800}
  {
    var s := Start(q, q.Length());
    FreshIsNotCached(q);
    forall k: nat
      ensures k < q.Length() ==> !StoppedAt(q, k)
    {
      assert Silent(q, 0, k + 1, 0, true, 0x2);
    }
    forall b: Flag | b != CACHED
      ensures b in Fresh(q) <==> b in {0x2, 0x4, 0x8, 0x100, 0x200, 0x800}
    {
      FreshByPlaces(q, s, b);
      assert Silent(q, s, q.Length(), 0, false, b) && Silent(q, s, q.Length(), 0, false, 0x1);
    }
  }

  /** A last entry in effect that carries the user's own id decides the flags it names, whatever its group
      says: what it allows is held by a user who is not stopped, and what it denies is held only if Write
      brings it along. */
  lemma UserIdDecides(q: Query, s: nat, k: nat, i: nat, b: Flag)
    requires q.Valid() && q.user.iId != 0 && StartsAt(q, s)
    requires b !in {0x1_0000, 0x2_0000, 0x4_0000, 0x8_0000, 0x10_0000, 0x800_0000}
    requires s <= k < q.Length() && i < |q.current[k].qlACL|
    requires q.current[k].qlACL[i].iUserId == q.user.iId && q.user.iId != -1
    requires if k == q.Length() - 1 then q.current[k].qlACL[i].bApplyHere else q.current[k].qlACL[i].bApplySubs
    requires b in q.current[k].qlACL[i].pAllow + q.current[k].qlACL[i].pDeny
    requires forall k': nat, i': nat :: Later(k, i, k', i') ==> !Speaks(q, false, b, k', i')
    ensures var acl := q.current[k].qlACL[i];
            b in Fresh(q) <==>
            && !Stopped(q)
            && (|| (b in acl.pAllow && b !in acl.pDeny)
                || (Granted(q, s, 0x1) && b in {0x2, 0x4, 0x10, 0x20, 0x40, 0x80, 0x200, 0x400, 0x800}))
  {
    FreshByPlaces(q, s, b);
    assert LastWord(q, s, q.Length(), 0, false, b, k, i);
  }

  /** One entry alone, in a channel without a parent, that allows one flag nobody has by default: the flag
      is held exactly by the users the entry is about. */
  lemma SoleEntryDecides(q: Query, acl: ChanACL, b: Flag)
    requires |q.current| == 1 && q.current[0].qlACL == [acl] && q.user.iId != 0
    requires b !in {0x2, 0x4, 0x8, 0x100, 0x200, 0x800, 0x1_0000, 0x2_0000, 0x4_0000, 0x8_0000, 0x10_0000, 0x800_0000}
    requires acl.bApplyHere && acl.pAllow == {b} && acl.pDeny == {}
    ensures acl.iUserId == q.user.iId && acl.iUserId != -1 ==> b in Fresh(q)
    ensures acl.iUserId == -1 || acl.iUserId != q.user.iId ==>
              (b in Fresh(q) <==> AppliesTo(q.current, q.current, acl.qsGroup, q.user, q.home, q.lib))
    ensures acl.iUserId == -1 || acl.iUserId != q.user.iId ==>
              (acl.qsGroup in {"", "none"} ==> b !in Fresh(q)) && (acl.qsGroup == "all" ==> b in Fresh(q))
  {
    FreshByPlaces(q, 0, b);
    assert q.current[..1] == q.current;
    forall k: nat
      ensures k < q.Length() ==> !StoppedAt(q, k)
    {
      assert Silent(q, 0, 1, 0, true, 0x2);
    }
    assert b != 0x1 ==> Silent(q, 0, 1, 0, false, 0x1);
    if Addressed(q, 0, 0) {
      assert LastWord(q, 0, 1, 0, false, b, 0, 0);
    } else {
      assert Silent(q, 0, 1, 0, false, b);
    }
  }

  /** User 7, whom one entry of the root gives Write by id: every permission but those that Write does not
      bring, and these are held by default. */
  lemma WriteByIdExample(q: Query)
    requires |q.current| == 1 && q.current[0].iId == 0 && q.user.iId == 7
    requires q.current[0].qlACL == [ChanACL(true, true, 7, "", {0x1}, {})]
    ensures Fresh(q) == {0x1, 0x2, 0x4, 0x8, 0x10, 0x20, 0x40, 0x80, 0x100, 0x200, 0x400, 0x800,
                         0x1_0000, 0x2_0000, 0x4_0000, 0x8_0000, 0x10_0000}
  {
    FreshIsNotCached(q);
    SoleEntryDecides(q, ChanACL(true, true, 7, "", {0x1}, {}), 0x1);
    FreshByPlaces(q, 0, 0x1);
    forall b: Flag | b != 0x1
      ensures !Speaks(q, false, b, 0, 0)
    {
    }
    forall b: Flag | b != CACHED && b != 0x1
      ensures b in Fresh(q) <==> b in {0x2, 0x4, 0x8, 0x10, 0x20, 0x40, 0x80, 0x100, 0x200, 0x400, 0x800,
                                       0x1_0000, 0x2_0000, 0x4_0000, 0x8_0000, 0x10_0000}
    {
      FreshByPlaces(q, 0, b);
      assert Silent(q, 0, 1, 0, false, b);
    }
  }
}
