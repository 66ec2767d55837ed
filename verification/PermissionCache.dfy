/** The permission walk of the source with its memo cache (src/ACL.cpp, effectivePermissions and
    hasPermission), proved against the walk on values in `Acl`. */
module PermissionCache {
  import opened Sequences
  import opened ServerTypes
  import opened Channels
  import opened Paths
  import opened Users
  import opened Groups
  import opened Acl
  import opened Decisions

  type Table = map<ServerUser, map<Channel, Permissions>>

  /** The table with one more entry. */
  function Put(t: Table, p: ServerUser, chan: Channel, granted: Permissions): Table {
    var own: map<Channel, Permissions> := if p in t then t[p] else map[];
    t[p := own[chan := granted]]
  }

  /** ACLCache: per user, the permissions already computed per channel. */
  class AclCache {
    var perms: Table

    constructor ()
      ensures perms == map[]
    {
      perms := map[];
    }

    /** The stored flags, or none. */
    function Stored(p: ServerUser, chan: Channel): Permissions
      reads this
    {
      if p in perms && chan in perms[p] then perms[p][chan] else NONE
    }

    method Insert(p: ServerUser, chan: Channel, granted: Permissions)
      modifies this
      ensures perms == Put(old(perms), p, chan, granted)
      ensures p in perms && chan in perms[p] && perms[p][chan] == granted
      ensures forall u, c :: u != p || c != chan ==> (u in perms && c in perms[u] <==> u in old(perms) && c in old(perms)[u])
      ensures forall u, c :: (u != p || c != chan) && u in perms && c in perms[u] ==> perms[u][c] == old(perms)[u][c]
    {
      if p !in perms {
        perms := perms[p := map[]];
      }
      perms := perms[p := perms[p][chan := granted]];
    }
  }

  /** The question whether a user may act in a channel, in the present state. */
  ghost function QueryOf(p: ServerUser, chan: Channel, lib: Library, S: set<Channel>, lvl: map<Channel, nat>): (q: Query)
    requires TreeOk(S, lvl) && chan in S && UserOk(S, p)
    reads S, p
    ensures q.Valid()
  {
    Query(RootPath(S, lvl, chan), ViewOf(p), PathOf(S, lvl, p.cChannel), lib)
  }

  /** What the question is about: the user's fields, and for an entry on the channel's path the user's
      id or the group in the present state. */
  lemma QueryFields(q: Query, p: ServerUser, chan: Channel, lib: Library, S: set<Channel>, lvl: map<Channel, nat>)
    requires TreeOk(S, lvl) && chan in S && UserOk(S, p) && q == QueryOf(p, chan, lib, S, lvl)
    ensures q.user.iId == p.iId && q.current == RootPath(S, lvl, chan)
    ensures forall k: nat, i: nat :: k < q.Length() && i < |q.current[k].qlACL| ==>
              var acl := q.current[k].qlACL[i];
              q.current[k].ref in S
              && (Addressed(q, k, i) <==>
                  || (acl.iUserId == p.iId && acl.iUserId != -1)
                  || UserApplies(chan, q.current[k].ref, acl.qsGroup, p, lib, S, lvl))
  {
    forall k: nat | k < q.Length()
      ensures q.current[k].ref in S && RootPath(S, lvl, q.current[k].ref) == q.current[..k + 1]
    {
      PathPrefix(S, lvl, chan, k);
    }
  }

  ghost function FreshFor(p: ServerUser, chan: Channel, lib: Library, S: set<Channel>, lvl: map<Channel, nat>): Permissions
    requires TreeOk(S, lvl) && chan in S && UserOk(S, p)
    reads S, p
  {
    Fresh(QueryOf(p, chan, lib, S, lvl))
  }

  /** Every entry is what the walk computes now, marked as cached. */
  ghost predicate TableOk(t: Table, lib: Library, S: set<Channel>, lvl: map<Channel, nat>)
    requires TreeOk(S, lvl)
    reads S, t.Keys
  {
    forall p, chan :: p in t && chan in t[p] ==>
      chan in S && UserOk(S, p) && p.iId != 0 && t[p][chan] == FreshFor(p, chan, lib, S, lvl) + {CACHED}
  }

  ghost predicate CacheOk(cache: AclCache, lib: Library, S: set<Channel>, lvl: map<Channel, nat>)
    requires TreeOk(S, lvl)
    reads cache, S, cache.perms.Keys
  {
    TableOk(cache.perms, lib, S, lvl)
  }

  /** One entry is set and the others stay. */
  lemma PutSetsOne(t: Table, p: ServerUser, chan: Channel, granted: Permissions)
    ensures var t' := Put(t, p, chan, granted);
            && p in t' && chan in t'[p] && t'[p][chan] == granted
            && forall u, c :: u != p || c != chan ==>
                 && (u in t' && c in t'[u] <==> u in t && c in t[u])
                 && (u in t && c in t[u] ==> t'[u][c] == t[u][c])
  {
  }

  lemma PutKeepsTable(t: Table, p: ServerUser, chan: Channel, lib: Library, S: set<Channel>, lvl: map<Channel, nat>)
    requires TreeOk(S, lvl) && TableOk(t, lib, S, lvl)
    requires chan in S && UserOk(S, p) && p.iId != 0
    ensures TableOk(Put(t, p, chan, FreshFor(p, chan, lib, S, lvl) + {CACHED}), lib, S, lvl)
  {
    var t' := Put(t, p, chan, FreshFor(p, chan, lib, S, lvl) + {CACHED});
    forall u, c | u in t' && c in t'[u]
      ensures c in S && UserOk(S, u) && u.iId != 0 && t'[u][c] == FreshFor(u, c, lib, S, lvl) + {CACHED}
    {
      if u != p || c != chan {
        assert u in t && c in t[u] && t'[u][c] == t[u][c];
      }
    }
  }

  /** Whether an entry is about the user, by id or by group. */
  method Matches(p: ServerUser, chan: Channel, ch: Channel, acl: ChanACL, lib: Library, ghost k: nat, ghost q: Query,
                 ghost S: set<Channel>, ghost lvl: map<Channel, nat>) returns (r: bool)
    requires TreeOk(S, lvl) && chan in S && UserOk(S, p) && q == QueryOf(p, chan, lib, S, lvl)
    requires k < q.Length() && q.current[k].ref == ch
    ensures r <==> Concerns(q, k, acl)
  {
    PathPrefix(S, lvl, chan, k);
    var matchUser := acl.iUserId != -1 && acl.iUserId == p.iId;
    var matchGroup := AppliesToUser(chan, ch, acl.qsGroup, p, lib, S, lvl);
    r := matchUser || matchGroup;
  }

  method AddRootFlags(g: Permissions, acl: ChanACL) returns (granted: Permissions)
    ensures granted == GrantRoot(g, acl)
  {
    granted := g;
    if KICK in acl.pAllow {
      granted := granted + {KICK};
    }
    if BAN in acl.pAllow {
      granted := granted + {BAN};
    }
    if RESET_USER_CONTENT in acl.pAllow {
      granted := granted + {RESET_USER_CONTENT};
    }
    if REGISTER in acl.pAllow {
      granted := granted + {REGISTER};
    }
    if SELF_REGISTER in acl.pAllow {
      granted := granted + {SELF_REGISTER};
    }
  }

  /** What an entry that concerns the user does to the three flags of the walk. */
  method Decide(w: Walk, acl: ChanACL, isRoot: bool, applyFromSelf: bool, apply: bool, applyTraverse: bool)
    returns (w': Walk)
    ensures w' == Decided(w, acl, isRoot && applyFromSelf, apply, applyTraverse)
  {
    var granted, traverse, write := w.granted, w.traverse, w.write;
    if applyTraverse {
      if TRAVERSE in acl.pAllow {
        traverse := true;
      }
      if TRAVERSE in acl.pDeny {
        traverse := false;
      }
    }
    if apply {
      if WRITE in acl.pAllow {
        write := true;
      }
      if WRITE in acl.pDeny {
        write := false;
      }
    }
    if isRoot && applyFromSelf {
      granted := AddRootFlags(granted, acl);
    }
    if apply {
      granted := granted + (acl.pAllow - {KICK, BAN, RESET_USER_CONTENT, REGISTER, SELF_REGISTER, CACHED});
      granted := granted - acl.pDeny;
    }
    w' := Walk(granted, traverse, write);
  }

  /** One entry of an access control list, as the body of the inner loop handles it. */
  method ApplyEntry(p: ServerUser, chan: Channel, ch: Channel, acl: ChanACL, w: Walk, lib: Library,
                    ghost k: nat, ghost q: Query, ghost S: set<Channel>, ghost lvl: map<Channel, nat>) returns (w': Walk)
    requires TreeOk(S, lvl) && chan in S && UserOk(S, p) && q == QueryOf(p, chan, lib, S, lvl)
    requires k < q.Length() && q.current[k].ref == ch
    ensures w' == StepAcl(q, k, w, acl)
  {
    PathPrefix(S, lvl, chan, k);
    assert (ch == chan <==> IsTarget(q, k)) && ch.iId == q.current[k].iId;
    var concerned := Matches(p, chan, ch, acl, lib, k, q, S, lvl);
    var applyFromSelf := ch == chan && acl.bApplyHere;
    var applyInherited := ch != chan && acl.bApplySubs;
    var apply := applyFromSelf || applyInherited;
    var applyTraverse := applyInherited || acl.bApplyHere;
    w' := w;
    if concerned {
      w' := Decide(w, acl, ch.iId == 0, applyFromSelf, apply, applyTraverse);
    }
  }

  /** The inner loop: the list of one channel on the way. */
  method ApplyList(p: ServerUser, chan: Channel, ch: Channel, w0: Walk, lib: Library,
                   ghost k: nat, ghost q: Query, ghost S: set<Channel>, ghost lvl: map<Channel, nat>) returns (w: Walk)
    requires TreeOk(S, lvl) && chan in S && UserOk(S, p) && q == QueryOf(p, chan, lib, S, lvl)
    requires k < q.Length() && q.current[k].ref == ch
    ensures w == WalkAcls(q, k, w0, ch.qlACL)
  {
    w := w0;
    for i := 0 to |ch.qlACL|
      invariant w == WalkAcls(q, k, w0, ch.qlACL[..i])
    {
      assert Init(ch.qlACL[..i + 1]) == ch.qlACL[..i];
      w := ApplyEntry(p, chan, ch, ch.qlACL[i], w, lib, k, q, S, lvl);
    }
    assert ch.qlACL[..|ch.qlACL|] == ch.qlACL;
  }

  ghost predicate NotCutBefore(q: Query, k: nat)
    requires k <= q.Length()
  {
    forall j :: 0 <= j < k ==> !CutOffAt(q, j)
  }

  lemma NextIsCutOrNot(q: Query, k: nat, w: Walk)
    requires k < q.Length() && w == WalkTo(q, k + 1) && NotCutBefore(q, k)
    ensures !w.traverse && !w.write ==> BeforeExpansion(q) == NONE
    ensures w.traverse || w.write ==> NotCutBefore(q, k + 1)
    ensures (w.traverse || w.write) && k + 1 == q.Length() ==> BeforeExpansion(q) == w.granted
  {
    if !w.traverse && !w.write {
      assert CutOffAt(q, k);
    }
  }

  /** One channel on the way. */
  method VisitChannel(p: ServerUser, chan: Channel, ch: Channel, w0: Walk, lib: Library,
                      ghost k: nat, ghost q: Query, ghost S: set<Channel>, ghost lvl: map<Channel, nat>) returns (w: Walk)
    requires TreeOk(S, lvl) && chan in S && UserOk(S, p) && q == QueryOf(p, chan, lib, S, lvl)
    requires k < q.Length() && q.current[k].ref == ch && w0 == WalkTo(q, k)
    ensures w == WalkTo(q, k + 1)
  {
    PathPrefix(S, lvl, chan, k);
    w := w0;
    if !ch.bInheritACL {
      w := w.(granted := DEFAULTS);
    }
    w := ApplyList(p, chan, ch, w, lib, k, q, S, lvl);
  }

  /** The walk from the root to the channel, up to the expansion of Write. */
  method WalkFromRoot(p: ServerUser, chan: Channel, lib: Library, ghost q: Query, ghost S: set<Channel>,
                      ghost lvl: map<Channel, nat>) returns (granted: Permissions)
    requires TreeOk(S, lvl) && chan in S && UserOk(S, p) && q == QueryOf(p, chan, lib, S, lvl)
    ensures granted == BeforeExpansion(q)
  {
    var chanstack := StackToRoot(chan, S, lvl);
    ghost var k: nat := 0;
    var w := Walk(DEFAULTS, true, false);
    while chanstack != []
      invariant k + |chanstack| == q.Length()
      invariant forall i :: 0 <= i < |chanstack| ==> chanstack[i] == q.current[q.Length() - 1 - i].ref
      invariant w == WalkTo(q, k)
      invariant NotCutBefore(q, k)
      invariant chanstack == [] ==> w.granted == BeforeExpansion(q)
      decreases |chanstack|
    {
      var ch := Last(chanstack);
      chanstack := Init(chanstack);
      w := VisitChannel(p, chan, ch, w, lib, k, q, S, lvl);
      NextIsCutOrNot(q, k, w);
      k := k + 1;
      if !w.traverse && !w.write {
        return NONE;
      }
    }
    granted := w.granted;
  }

  /** The computation for everyone but the superuser, without the cache. */
  method ComputeFresh(p: ServerUser, chan: Channel, lib: Library, ghost q: Query, ghost S: set<Channel>,
                      ghost lvl: map<Channel, nat>) returns (granted: Permissions)
    requires TreeOk(S, lvl) && chan in S && UserOk(S, p) && q == QueryOf(p, chan, lib, S, lvl)
    requires p.iId != 0
    ensures granted == Fresh(q)
  {
    granted := WalkFromRoot(p, chan, lib, q, S, lvl);
    if WRITE in granted {
      granted := granted + {TRAVERSE, ENTER, MUTE_DEAFEN, MOVE, MAKE_CHANNEL, LINK_CHANNEL, TEXT_MESSAGE,
                            MAKE_TEMP_CHANNEL, LISTEN};
      if chan.iId == 0 {
        granted := granted + {KICK, BAN, RESET_USER_CONTENT, REGISTER, SELF_REGISTER};
      }
    }
  }

  lemma StoredAgain(m: Table, p: ServerUser, chan: Channel)
    requires p in m && chan in m[p]
    ensures m == Put(m, p, chan, m[p][chan])
  {
    assert m[p] == m[p][chan := m[p][chan]];
  }

  /** Stores a fresh result with the mark. */
  method Remember(cache: AclCache, p: ServerUser, chan: Channel, granted: Permissions, lib: Library,
                  ghost S: set<Channel>, ghost lvl: map<Channel, nat>)
    requires TreeOk(S, lvl) && chan in S && UserOk(S, p) && p.iId != 0 && granted == FreshFor(p, chan, lib, S, lvl)
    requires CacheOk(cache, lib, S, lvl)
    modifies cache
    ensures CacheOk(cache, lib, S, lvl)
    ensures cache.perms == Put(old(cache.perms), p, chan, granted + {CACHED})
  {
    PutKeepsTable(cache.perms, p, chan, lib, S, lvl);
    cache.Insert(p, chan, granted + {CACHED});
  }

  /** ChanACL::effectivePermissions: what a fresh walk gives now, `walked`, plus the mark if it came from
      the cache; the cache stays right. */
  method EffectivePermissions(p: ServerUser, chan: Channel, cache: AclCache?, lib: Library, ghost walked: Permissions,
                              ghost S: set<Channel>, ghost lvl: map<Channel, nat>) returns (granted: Permissions)
    requires TreeOk(S, lvl) && chan in S && UserOk(S, p) && walked == FreshFor(p, chan, lib, S, lvl)
    requires cache != null ==> CacheOk(cache, lib, S, lvl)
    modifies if cache == null then {} else {cache}
    ensures cache != null ==> CacheOk(cache, lib, S, lvl)
    ensures granted == walked +
                       if cache != null && p in old(cache.perms) && chan in old(cache.perms)[p] then {CACHED} else {}
    ensures cache != null && p.iId != 0 ==>
              cache.perms == Put(old(cache.perms), p, chan, walked + {CACHED})
    ensures cache != null && p.iId != 0 ==>
              p in cache.perms && chan in cache.perms[p] && cache.perms[p][chan] == walked + {CACHED}
    ensures cache != null && p.iId == 0 ==> cache.perms == old(cache.perms)
  {
    ghost var q := QueryOf(p, chan, lib, S, lvl);
    FreshIsNotCached(q);
    if p.iId == 0 {
      return ALL - {SPEAK, WHISPER};
    }
    granted := NONE;
    if cache != null {
      granted := cache.Stored(p, chan);
    }
    if CACHED in granted {
      StoredAgain(cache.perms, p, chan);
      return;
    }
    granted := ComputeFresh(p, chan, lib, q, S, lvl);
    if cache != null {
      Remember(cache, p, chan, granted, lib, S, lvl);
    }
  }

  /** ChanACL::hasPermission: for flags other than the mark, the answer does not depend on the cache. */
  method HasPermission(p: ServerUser, chan: Channel, perm: Permissions, cache: AclCache?, lib: Library, ghost walked: Permissions,
                       ghost S: set<Channel>, ghost lvl: map<Channel, nat>) returns (r: bool)
    requires TreeOk(S, lvl) && chan in S && UserOk(S, p) && walked == FreshFor(p, chan, lib, S, lvl)
    requires cache != null ==> CacheOk(cache, lib, S, lvl)
    modifies if cache == null then {} else {cache}
    ensures cache != null ==> CacheOk(cache, lib, S, lvl)
    ensures CACHED !in perm ==> (r <==> walked * perm != {})
  {
    var granted := EffectivePermissions(p, chan, cache, lib, walked, S, lvl);
    assert CACHED !in perm ==> granted * perm == walked * perm;
    r := granted * perm != {};
  }

  datatype Ask = Ask(p: ServerUser, chan: Channel, perm: Permissions)

  ghost predicate AskOk(a: Ask, S: set<Channel>)
    reads a.p
  {
    a.chan in S && UserOk(S, a.p) && CACHED !in a.perm
  }

  /** The answer a fresh walk gives. */
  ghost predicate FreshAnswer(a: Ask, lib: Library, S: set<Channel>, lvl: map<Channel, nat>)
    requires TreeOk(S, lvl) && AskOk(a, S)
    reads S, a.p
  {
    FreshFor(a.p, a.chan, lib, S, lvl) * a.perm != {}
  }

  /** The answers of fresh walks, now. */
  ghost predicate FreshAnswers(asks: seq<Ask>, answers: seq<bool>, lib: Library, S: set<Channel>, lvl: map<Channel, nat>)
    requires TreeOk(S, lvl)
    reads S, set a | a in asks :: a.p
  {
    && |answers| == |asks|
    && forall i :: 0 <= i < |asks| ==> AskOk(asks[i], S) && answers[i] == FreshAnswer(asks[i], lib, S, lvl)
  }

  method AskOne(a: Ask, cache: AclCache, lib: Library, ghost S: set<Channel>, ghost lvl: map<Channel, nat>)
    returns (answer: bool)
    requires TreeOk(S, lvl) && CacheOk(cache, lib, S, lvl) && AskOk(a, S)
    modifies cache
    ensures CacheOk(cache, lib, S, lvl)
    ensures answer == old(FreshAnswer(a, lib, S, lvl))
  {
    answer := HasPermission(a.p, a.chan, a.perm, cache, lib, FreshFor(a.p, a.chan, lib, S, lvl), S, lvl);
  }

  /** Any run of questions: if `expected` are the answers of fresh walks before the run, they are the
      answers given, and the cache stays right. */
  method AskAll(asks: seq<Ask>, ghost expected: seq<bool>, cache: AclCache, lib: Library,
                ghost S: set<Channel>, ghost lvl: map<Channel, nat>)
    returns (answers: seq<bool>)
    requires TreeOk(S, lvl) && CacheOk(cache, lib, S, lvl) && FreshAnswers(asks, expected, lib, S, lvl)
    modifies cache
    ensures CacheOk(cache, lib, S, lvl)
    ensures answers == expected
  {
    answers := [];
    for k := 0 to |asks|
      invariant CacheOk(cache, lib, S, lvl) && FreshAnswers(asks, expected, lib, S, lvl)
      invariant answers == expected[..k]
    {
      var r := AskOne(asks[k], cache, lib, S, lvl);
      answers := answers + [r];
    }
  }
}
