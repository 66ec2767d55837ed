/** Effective permissions (src/ACL.cpp).

    `EffectivePermissions` is the walk from the root to a channel that updates the granted flags and
    two running flags, with its cache.  `Fresh` is the same walk on values; the theorems say flag by
    flag what it grants in terms of the last applicable entry that names the flag. */
module Acl {
  import opened Sequences
  import opened ServerTypes
  import opened Channels
  import opened Paths
  import opened Users
  import opened Groups

  /** Granted by default. */
  const DEFAULTS: Permissions := {TRAVERSE, ENTER, SPEAK, WHISPER, TEXT_MESSAGE, LISTEN}

  /** Grantable in the root channel only. */
  const ROOT_ONLY: Permissions := {KICK, BAN, RESET_USER_CONTENT, REGISTER, SELF_REGISTER}

  /** What Write brings along. */
  const WRITE_IMPLIES: Permissions :=
    {TRAVERSE, ENTER, MUTE_DEAFEN, MOVE, MAKE_CHANNEL, LINK_CHANNEL, TEXT_MESSAGE, MAKE_TEMP_CHANNEL, LISTEN}

  /** A flag that entries can grant in any channel. */
  predicate Ordinary(b: Flag) {
    b !in ROOT_ONLY && b != CACHED
  }

  // ----- The walk on values

  /** What a decision depends on: the root path of the channel, the user, the path of the user's
      channel. */
  datatype Query = Query(current: Path, user: UserView, home: Path, lib: Library) {
    predicate Valid() {
      current != []
    }

    function Length(): nat {
      |current|
    }
  }

  datatype Walk = Walk(granted: Permissions, traverse: bool, write: bool)

  /** The entry is about the user, by id or by group. */
  predicate Concerns(q: Query, k: nat, acl: ChanACL)
    requires k < q.Length()
  {
    || (acl.iUserId != -1 && acl.iUserId == q.user.iId)
    || AppliesTo(q.current, q.current[..k + 1], acl.qsGroup, q.user, q.home, q.lib)
  }

  predicate IsTarget(q: Query, k: nat) {
    k + 1 == q.Length()
  }

  predicate AppliesHere(q: Query, k: nat, acl: ChanACL) {
    if IsTarget(q, k) then acl.bApplyHere else acl.bApplySubs
  }

  /** Traverse is also decided by entries of channels on the way that do not hand it down. */
  predicate AppliesToTraverse(q: Query, k: nat, acl: ChanACL) {
    (!IsTarget(q, k) && acl.bApplySubs) || acl.bApplyHere
  }

  function Toggle(before: bool, acl: ChanACL, b: Flag): bool {
    if b in acl.pDeny then false else if b in acl.pAllow then true else before
  }

  function GrantRoot(g: Permissions, acl: ChanACL): Permissions {
    g + acl.pAllow * ROOT_ONLY
  }

  function GrantOrdinary(g: Permissions, acl: ChanACL): Permissions {
    g + (acl.pAllow - ROOT_ONLY - {CACHED}) - acl.pDeny
  }

  /** What an entry that concerns the user does: `own` says that it is the target's and the target has
      id 0. */
  function Decided(w: Walk, acl: ChanACL, own: bool, apply: bool, applyTraverse: bool): Walk {
    var rooted := if own then GrantRoot(w.granted, acl) else w.granted;
    Walk(if apply then GrantOrdinary(rooted, acl) else rooted,
         if applyTraverse then Toggle(w.traverse, acl, TRAVERSE) else w.traverse,
         if apply then Toggle(w.write, acl, WRITE) else w.write)
  }

  function StepAcl(q: Query, k: nat, w: Walk, acl: ChanACL): Walk
    requires k < q.Length()
  {
    if !Concerns(q, k, acl) then w
    else Decided(w, acl, q.current[k].iId == 0 && IsTarget(q, k) && acl.bApplyHere,
                 AppliesHere(q, k, acl), AppliesToTraverse(q, k, acl))
  }

  function WalkAcls(q: Query, k: nat, w: Walk, acls: seq<ChanACL>): Walk
    requires k < q.Length()
  {
    if acls == [] then w else StepAcl(q, k, WalkAcls(q, k, w, Init(acls)), Last(acls))
  }

  function EnterChannel(n: Node, w: Walk): Walk {
    if n.bInheritACL then w else w.(granted := DEFAULTS)
  }

  /** The walk through the first `k` channels, as if it were never cut off. */
  function WalkTo(q: Query, k: nat): Walk
    requires k <= q.Length()
  {
    if k == 0 then Walk(DEFAULTS, true, false)
    else WalkAcls(q, k - 1, EnterChannel(q.current[k - 1], WalkTo(q, k - 1)), q.current[k - 1].qlACL)
  }

  /** After channel `k` the user may neither traverse nor write. */
  predicate CutOffAt(q: Query, k: nat)
    requires k < q.Length()
  {
    !WalkTo(q, k + 1).traverse && !WalkTo(q, k + 1).write
  }

  predicate CutOff(q: Query) {
    exists k :: 0 <= k < q.Length() && CutOffAt(q, k)
  }

  function BeforeExpansion(q: Query): Permissions {
    if CutOff(q) then NONE else WalkTo(q, q.Length()).granted
  }

  function Expand(g: Permissions, id: nat): Permissions {
    if WRITE in g then (if id == 0 then g + WRITE_IMPLIES + ROOT_ONLY else g + WRITE_IMPLIES) else g
  }

  function Fresh(q: Query): Permissions
    requires q.Valid()
  {
    if q.user.iId == 0 then ALL - {SPEAK, WHISPER}
    else Expand(BeforeExpansion(q), Last(q.current).iId)
  }

  // ----- What is granted, flag by flag

  /** The entry says something about the flag. */
  predicate Names(acl: ChanACL, b: Flag) {
    b in acl.pAllow || b in acl.pDeny
  }

  /** The last entry naming the flag allows it and does not deny it; without any, the default holds. */
  ghost predicate LastEntryHolds(es: seq<ChanACL>, b: Flag, default: bool) {
    || (exists i :: 0 <= i < |es| && b in es[i].pAllow && b !in es[i].pDeny
                    && forall j :: i < j < |es| ==> !Names(es[j], b))
    || (default && forall j :: 0 <= j < |es| ==> !Names(es[j], b))
  }

  /** The entries of one channel that concern the user and apply. */
  function EntriesOf(q: Query, k: nat, acls: seq<ChanACL>, traversing: bool): seq<ChanACL>
    requires k < q.Length()
  {
    if acls == [] then [] else
    EntriesOf(q, k, Init(acls), traversing) +
    if Concerns(q, k, Last(acls)) && (if traversing then AppliesToTraverse(q, k, Last(acls)) else AppliesHere(q, k, Last(acls)))
    then [Last(acls)] else []
  }

  /** Those of the channels from `lo` up to but not including `hi`, in evaluation order. */
  function Entries(q: Query, lo: nat, hi: nat, traversing: bool): seq<ChanACL>
    requires hi <= q.Length()
  {
    if hi <= lo then [] else Entries(q, lo, hi - 1, traversing) + EntriesOf(q, hi - 1, q.current[hi - 1].qlACL, traversing)
  }

  /** The last channel before `k` that does not inherit, or the root. */
  function Start(q: Query, k: nat): (s: nat)
    requires k <= q.Length()
    ensures s < k || s == 0
    ensures forall j :: s < j < k ==> q.current[j].bInheritACL
    ensures s > 0 ==> !q.current[s].bInheritACL
  {
    if k == 0 then 0 else if !q.current[k - 1].bInheritACL then k - 1 else Start(q, k - 1)
  }

  /** The flag is held before Write brings in others, leaving the cut-off aside. */
  ghost predicate Held(q: Query, b: Flag)
    requires q.Valid()
  {
    var n := q.Length();
    if b in ROOT_ONLY
    then Last(q.current).iId == 0 && LastEntryHolds(Entries(q, n - 1, n, false), b, false)
    else LastEntryHolds(Entries(q, Start(q, n), n, false), b, b in DEFAULTS)
  }

  ghost predicate BlockedAt(q: Query, k: nat)
    requires k < q.Length()
  {
    && !LastEntryHolds(Entries(q, 0, k + 1, true), TRAVERSE, true)
    && !LastEntryHolds(Entries(q, 0, k + 1, false), WRITE, false)
  }

  /** Some channel on the path leaves the user without Traverse and without Write. */
  ghost predicate Blocked(q: Query) {
    exists k :: 0 <= k < q.Length() && BlockedAt(q, k)
  }

  // ----- Proof

  /** The decision as a fold, for the induction. */
  function Verdict(es: seq<ChanACL>, b: Flag, default: bool): bool {
    if es == [] then default else Toggle(Verdict(Init(es), b, default), Last(es), b)
  }

  lemma FrontDecides(es: seq<ChanACL>, b: Flag, default: bool)
    requires es != [] && !Names(Last(es), b)
    ensures LastEntryHolds(es, b, default) <==> LastEntryHolds(Init(es), b, default)
  {
    var front := Init(es);
    assert forall i :: 0 <= i < |front| ==> es[i] == front[i];
    if i :| 0 <= i < |front| && b in front[i].pAllow && b !in front[i].pDeny
            && forall j :: i < j < |front| ==> !Names(front[j], b) {
      assert b in es[i].pAllow;
    }
  }

  lemma {:induction false} VerdictIsLastEntry(es: seq<ChanACL>, b: Flag, default: bool)
    ensures Verdict(es, b, default) <==> LastEntryHolds(es, b, default)
  {
    if es != [] {
      var front := Init(es);
      VerdictIsLastEntry(front, b, default);
      assert forall i :: 0 <= i < |front| ==> es[i] == front[i];
      var last := Last(es);
      if Names(last, b) {
        if b in last.pAllow && b !in last.pDeny {
          assert es[|es| - 1] == last;
        }
      } else {
        FrontDecides(es, b, default);
      }
    }
  }

  lemma {:induction false} VerdictConcat(es: seq<ChanACL>, fs: seq<ChanACL>, b: Flag, default: bool)
    ensures Verdict(es + fs, b, default) == Verdict(fs, b, Verdict(es, b, default))
  {
    if fs == [] {
      assert es + fs == es;
    } else {
      assert Init(es + fs) == es + Init(fs);
      VerdictConcat(es, Init(fs), b, default);
    }
  }

  /** One entry, for the two running flags and an ordinary flag. */
  lemma EntryVerdicts(q: Query, k: nat, w: Walk, acl: ChanACL, b: Flag)
    requires k < q.Length() && Ordinary(b)
    ensures var w' := StepAcl(q, k, w, acl);
            && w'.traverse == (if Concerns(q, k, acl) && AppliesToTraverse(q, k, acl) then Toggle(w.traverse, acl, TRAVERSE)
                               else w.traverse)
            && w'.write == (if Concerns(q, k, acl) && AppliesHere(q, k, acl) then Toggle(w.write, acl, WRITE) else w.write)
            && (b in w'.granted <==> if Concerns(q, k, acl) && AppliesHere(q, k, acl) then Toggle(b in w.granted, acl, b)
                                      else b in w.granted)
  {
  }

  lemma VerdictAppend(es: seq<ChanACL>, e: ChanACL, b: Flag, default: bool)
    ensures Verdict(es + [e], b, default) == Toggle(Verdict(es, b, default), e, b)
    ensures Verdict(es + [], b, default) == Verdict(es, b, default)
  {
    assert Init(es + [e]) == es && es + [] == es;
  }

  /** One channel's list. */
  lemma {:induction false} ListVerdicts(q: Query, k: nat, w: Walk, acls: seq<ChanACL>, b: Flag)
    requires k < q.Length() && Ordinary(b)
    ensures var w' := WalkAcls(q, k, w, acls);
            && w'.traverse == Verdict(EntriesOf(q, k, acls, true), TRAVERSE, w.traverse)
            && w'.write == Verdict(EntriesOf(q, k, acls, false), WRITE, w.write)
            && (b in w'.granted <==> Verdict(EntriesOf(q, k, acls, false), b, b in w.granted))
  {
    if acls != [] {
      var front, last := Init(acls), Last(acls);
      ListVerdicts(q, k, w, front, b);
      EntryVerdicts(q, k, WalkAcls(q, k, w, front), last, b);
      VerdictAppend(EntriesOf(q, k, front, true), last, TRAVERSE, w.traverse);
      VerdictAppend(EntriesOf(q, k, front, false), last, WRITE, w.write);
      VerdictAppend(EntriesOf(q, k, front, false), last, b, b in w.granted);
    }
  }

  /** One more channel: a fold over the entries so far goes on with the channel's own. */
  lemma FoldOn(es: seq<ChanACL>, fs: seq<ChanACL>, b: Flag, default: bool, before: bool, after: bool)
    requires before == Verdict(es, b, default) && after == Verdict(fs, b, before)
    ensures after == Verdict(es + fs, b, default)
  {
    VerdictConcat(es, fs, b, default);
  }

  function OwnEntries(q: Query, k: nat, traversing: bool): seq<ChanACL>
    requires k < q.Length()
  {
    EntriesOf(q, k, q.current[k].qlACL, traversing)
  }

  /** One more channel for the three flags. */
  lemma ChannelVerdicts(q: Query, k: nat, b: Flag)
    requires k < q.Length() && Ordinary(b)
    ensures WalkTo(q, k + 1).traverse == Verdict(OwnEntries(q, k, true), TRAVERSE, WalkTo(q, k).traverse)
    ensures WalkTo(q, k + 1).write == Verdict(OwnEntries(q, k, false), WRITE, WalkTo(q, k).write)
    ensures b in WalkTo(q, k + 1).granted <==>
            Verdict(OwnEntries(q, k, false), b, if q.current[k].bInheritACL then b in WalkTo(q, k).granted else b in DEFAULTS)
  {
    ListVerdicts(q, k, EnterChannel(q.current[k], WalkTo(q, k)), q.current[k].qlACL, b);
  }

  lemma ChannelTraverse(q: Query, k: nat, before: bool, after: bool)
    requires k < q.Length() && before == WalkTo(q, k).traverse && after == WalkTo(q, k + 1).traverse
    ensures after == Verdict(OwnEntries(q, k, true), TRAVERSE, before)
  {
    ChannelVerdicts(q, k, WRITE);
  }

  lemma ChannelWrite(q: Query, k: nat, before: bool, after: bool)
    requires k < q.Length() && before == WalkTo(q, k).write && after == WalkTo(q, k + 1).write
    ensures after == Verdict(OwnEntries(q, k, false), WRITE, before)
  {
    ChannelVerdicts(q, k, WRITE);
  }

  lemma {:induction false} TraverseFlag(q: Query, k: nat)
    requires k <= q.Length()
    ensures WalkTo(q, k).traverse == Verdict(Entries(q, 0, k, true), TRAVERSE, true)
  {
    if k > 0 {
      TraverseFlag(q, k - 1);
      ChannelTraverse(q, k - 1, WalkTo(q, k - 1).traverse, WalkTo(q, k).traverse);
      FoldOn(Entries(q, 0, k - 1, true), OwnEntries(q, k - 1, true), TRAVERSE, true,
             WalkTo(q, k - 1).traverse, WalkTo(q, k).traverse);
    }
  }

  lemma {:induction false} WriteFlag(q: Query, k: nat)
    requires k <= q.Length()
    ensures WalkTo(q, k).write == Verdict(Entries(q, 0, k, false), WRITE, false)
  {
    if k > 0 {
      WriteFlag(q, k - 1);
      ChannelWrite(q, k - 1, WalkTo(q, k - 1).write, WalkTo(q, k).write);
      FoldOn(Entries(q, 0, k - 1, false), OwnEntries(q, k - 1, false), WRITE, false,
             WalkTo(q, k - 1).write, WalkTo(q, k).write);
    }
  }

  lemma {:induction false} GrantedFlag(q: Query, k: nat, b: Flag)
    requires k <= q.Length() && Ordinary(b)
    ensures b in WalkTo(q, k).granted <==> Verdict(Entries(q, Start(q, k), k, false), b, b in DEFAULTS)
  {
    if k > 0 {
      var own, after := OwnEntries(q, k - 1, false), b in WalkTo(q, k).granted;
      ChannelVerdicts(q, k - 1, b);
      if q.current[k - 1].bInheritACL {
        GrantedFlag(q, k - 1, b);
        FoldOn(Entries(q, Start(q, k - 1), k - 1, false), own, b, b in DEFAULTS, b in WalkTo(q, k - 1).granted, after);
        assert Start(q, k) == Start(q, k - 1) && Start(q, k) < k;
      } else {
        assert Start(q, k) == k - 1 && Entries(q, k - 1, k - 1, false) == [];
        assert Entries(q, k - 1, k, false) == [] + own == own;
      }
    }
  }

  lemma RootFlagByEntry(q: Query, k: nat, w: Walk, acl: ChanACL, b: Flag)
    requires k < q.Length() && b in ROOT_ONLY
    requires IsTarget(q, k) && q.current[k].iId == 0
    ensures b in StepAcl(q, k, w, acl).granted <==>
            if Concerns(q, k, acl) && AppliesHere(q, k, acl) then Toggle(b in w.granted, acl, b) else b in w.granted
  {
  }

  lemma NoRootFlagByEntry(q: Query, k: nat, w: Walk, acl: ChanACL, b: Flag)
    requires k < q.Length() && b in ROOT_ONLY && b !in w.granted
    requires !(IsTarget(q, k) && q.current[k].iId == 0)
    ensures b !in StepAcl(q, k, w, acl).granted
  {
  }

  /** A flag reserved for the root is granted by the target's own list only, and only if the target has
      id 0. */
  lemma {:induction false} RootFlagInList(q: Query, k: nat, w: Walk, acls: seq<ChanACL>, b: Flag)
    requires k < q.Length() && b in ROOT_ONLY
    requires b !in w.granted
    ensures b in WalkAcls(q, k, w, acls).granted <==>
            && IsTarget(q, k) && q.current[k].iId == 0
            && Verdict(EntriesOf(q, k, acls, false), b, false)
  {
    if acls != [] {
      var before := WalkAcls(q, k, w, Init(acls));
      RootFlagInList(q, k, w, Init(acls), b);
      if IsTarget(q, k) && q.current[k].iId == 0 {
        RootFlagByEntry(q, k, before, Last(acls), b);
        VerdictAppend(EntriesOf(q, k, Init(acls), false), Last(acls), b, false);
      } else {
        NoRootFlagByEntry(q, k, before, Last(acls), b);
      }
    }
  }

  lemma {:induction false} RootFlag(q: Query, k: nat, b: Flag)
    requires k <= q.Length() && b in ROOT_ONLY
    ensures b in WalkTo(q, k).granted <==>
            && k > 0 && IsTarget(q, k - 1) && q.current[k - 1].iId == 0
            && Verdict(EntriesOf(q, k - 1, q.current[k - 1].qlACL, false), b, false)
  {
    if k > 0 {
      RootFlag(q, k - 1, b);
      RootFlagInList(q, k - 1, EnterChannel(q.current[k - 1], WalkTo(q, k - 1)), q.current[k - 1].qlACL, b);
    }
  }

  lemma {:induction false} NeverCached(q: Query, k: nat, w: Walk, acls: seq<ChanACL>)
    requires k < q.Length() && CACHED !in w.granted
    ensures CACHED !in WalkAcls(q, k, w, acls).granted
  {
    if acls != [] {
      NeverCached(q, k, w, Init(acls));
    }
  }

  lemma {:induction false} WalkNeverCached(q: Query, k: nat)
    requires k <= q.Length()
    ensures CACHED !in WalkTo(q, k).granted
  {
    if k > 0 {
      WalkNeverCached(q, k - 1);
      NeverCached(q, k - 1, EnterChannel(q.current[k - 1], WalkTo(q, k - 1)), q.current[k - 1].qlACL);
    }
  }

  /** A freshly computed result never carries the cache's own flag. */
  lemma FreshIsNotCached(q: Query)
    requires q.Valid()
    ensures CACHED !in Fresh(q)
  {
    WalkNeverCached(q, q.Length());
  }

  lemma CutOffIsBlocked(q: Query, k: nat)
    requires k < q.Length()
    ensures CutOffAt(q, k) <==> BlockedAt(q, k)
  {
    TraverseFlag(q, k + 1);
    WriteFlag(q, k + 1);
    VerdictIsLastEntry(Entries(q, 0, k + 1, true), TRAVERSE, true);
    VerdictIsLastEntry(Entries(q, 0, k + 1, false), WRITE, false);
  }

  lemma BlockedIsCutOff(q: Query)
    ensures Blocked(q) <==> CutOff(q)
  {
    forall k | 0 <= k < q.Length()
      ensures CutOffAt(q, k) <==> BlockedAt(q, k)
    {
      CutOffIsBlocked(q, k);
    }
  }

  lemma OnlyTheLastList(q: Query, n: nat, traversing: bool)
    requires 0 < n <= q.Length()
    ensures Entries(q, n - 1, n, traversing) == EntriesOf(q, n - 1, q.current[n - 1].qlACL, traversing)
  {
    assert Entries(q, n - 1, n - 1, traversing) == [];
  }

  lemma RootFlagHeld(q: Query, b: Flag, own: seq<ChanACL>)
    requires q.Valid() && b in ROOT_ONLY && own == Entries(q, q.Length() - 1, q.Length(), false)
    ensures b in WalkTo(q, q.Length()).granted <==> Last(q.current).iId == 0 && LastEntryHolds(own, b, false)
  {
    OnlyTheLastList(q, q.Length(), false);
    RootFlag(q, q.Length(), b);
    VerdictIsLastEntry(own, b, false);
  }

  /** Before Write brings in others, a flag is held exactly when the user is not blocked on the way and
      the last applicable entry naming it, from the last channel that does not inherit, allows and
      does not deny it, or there is no such entry and it is a default; the flags reserved for the root
      come from the target's own entries, and only if its id is 0. */
  lemma HeldBeforeExpansion(q: Query, b: Flag)
    requires q.Valid() && b != CACHED
    ensures b in BeforeExpansion(q) <==> !Blocked(q) && Held(q, b)
  {
    BlockedIsCutOff(q);
    if b in ROOT_ONLY {
      RootFlagHeld(q, b, Entries(q, q.Length() - 1, q.Length(), false));
    } else {
      GrantedFlag(q, q.Length(), b);
      VerdictIsLastEntry(Entries(q, Start(q, q.Length()), q.Length(), false), b, b in DEFAULTS);
    }
  }

  /** The whole result for everyone but the superuser, flag by flag. */
  lemma FreshFlag(q: Query, b: Flag)
    requires q.Valid() && q.user.iId != 0 && b != CACHED
    ensures b in Fresh(q) <==>
            && !Blocked(q)
            && (|| Held(q, b)
                || (Held(q, WRITE) && (b in WRITE_IMPLIES || (Last(q.current).iId == 0 && b in ROOT_ONLY))))
  {
    HeldBeforeExpansion(q, b);
    HeldBeforeExpansion(q, WRITE);
  }

  /** The server-wide permissions are never held on a channel whose id is not 0. */
  lemma ServerWideOnlyInRoot(q: Query, b: Flag)
    requires q.Valid() && q.user.iId != 0 && b in ROOT_ONLY && Last(q.current).iId != 0
    ensures b !in Fresh(q)
  {
    FreshFlag(q, b);
  }
}
