/** What each group specification means (src/Group.cpp, appliesToUser), for a user in the present state of
    the channel tree. */
module Specifications {
  import opened Bytes
  import opened Sequences
  import opened Wrappers
  import opened ServerTypes
  import opened Channels
  import opened Paths
  import opened Users
  import opened Groups

  // ----- Prefixes

  predicate IsPrefix(c: char) {
    c == '!' || c == '~' || c == '#' || c == '$'
  }

  predicate AllPrefixes(s: string) {
    forall i :: 0 <= i < |s| ==> IsPrefix(s[i])
  }

  /** A name that no prefix is left to take off. */
  predicate IsBare(name: string) {
    name != [] && !IsPrefix(name[0])
  }

  lemma {:induction false} StripAll(s: Spec, prefixes: string, name: string)
    requires s.name == prefixes + name && AllPrefixes(prefixes) && (name == [] || IsBare(name))
    ensures StripPrefixes(s) == Spec(s.invert || '!' in prefixes, s.inAclChannel || '~' in prefixes,
                                     s.isAccessToken || '#' in prefixes, s.isCertHash || '$' in prefixes, name)
    decreases |prefixes|
  {
    if prefixes != [] {
      var c, rest := prefixes[0], prefixes[1..];
      assert s.name[0] == c && s.name[1..] == rest + name && IsPrefix(c);
      assert prefixes == [c] + rest;
      assert AllPrefixes(rest) by {
        assert forall i :: 0 <= i < |rest| ==> rest[i] == prefixes[i + 1];
      }
      var t := if c == '!' then s.(invert := true, name := rest + name)
               else if c == '~' then s.(inAclChannel := true, name := rest + name)
               else if c == '#' then s.(isAccessToken := true, name := rest + name)
               else s.(isCertHash := true, name := rest + name);
      assert StripPrefixes(s) == StripPrefixes(t);
      StripAll(t, rest, name);
    }
  }

  /** The prefixes may come in any order and number; each is noted and what follows them is the name. */
  lemma PrefixesAreNoted(prefixes: string, name: string)
    requires AllPrefixes(prefixes) && (name == [] || IsBare(name))
    ensures ParseSpec(prefixes + name) == Spec('!' in prefixes, '~' in prefixes, '#' in prefixes, '$' in prefixes, name)
  {
    StripAll(Spec(false, false, false, false, prefixes + name), prefixes, name);
  }

  /** Prefixes alone apply to nobody, not even after '!'. */
  lemma PrefixesAlone(prefixes: string, current: Channel, acl: Channel, user: ServerUser, lib: Library,
                      S: set<Channel>, lvl: map<Channel, nat>)
    requires TreeOk(S, lvl) && current in S && acl in S && UserOk(S, user)
    requires AllPrefixes(prefixes)
    ensures !UserApplies(current, acl, prefixes, user, lib, S, lvl)
  {
    PrefixesAreNoted(prefixes, []);
    assert prefixes + [] == prefixes;
  }

  /** After '#' the name is an access token, which the user must have presented; after '$', without '#', it
      is a hash, which the user's certificate must have. */
  lemma TokensAndHashes(prefixes: string, name: string, current: Channel, acl: Channel, user: ServerUser, lib: Library,
                        S: set<Channel>, lvl: map<Channel, nat>)
    requires TreeOk(S, lvl) && current in S && acl in S && UserOk(S, user)
    requires AllPrefixes(prefixes) && IsBare(name)
    ensures '#' in prefixes ==>
              (UserApplies(current, acl, prefixes + name, user, lib, S, lvl) <==>
               ('!' in prefixes) != exists t :: t in user.qslAccessTokens && lib.sameToken(t, name))
    ensures '$' in prefixes && '#' !in prefixes ==>
              (UserApplies(current, acl, prefixes + name, user, lib, S, lvl) <==>
               ('!' in prefixes) != (user.qsHash == name))
  {
    PrefixesAreNoted(prefixes, name);
  }

  /** A specification without token and hash marks, on values. */
  lemma NameDecides(current: Path, acl: Path, prefixes: string, name: string, u: UserView, home: Path, lib: Library)
    requires current != [] && acl != []
    requires AllPrefixes(prefixes) && IsBare(name) && '#' !in prefixes && '$' !in prefixes
    ensures var s := Spec('!' in prefixes, '~' in prefixes, false, false, name);
            AppliesTo(current, acl, prefixes + name, u, home, lib) <==>
            ('!' in prefixes) != SpecMatches(current, acl, s, u, home, lib)
  {
    PrefixesAreNoted(prefixes, name);
  }

  /** "all" is everybody and "none" nobody, "auth" the registered users and "strong" the verified ones. */
  lemma NamesAboutTheUser(prefixes: string, current: Channel, acl: Channel, user: ServerUser, lib: Library,
                          S: set<Channel>, lvl: map<Channel, nat>)
    requires TreeOk(S, lvl) && current in S && acl in S && UserOk(S, user)
    requires AllPrefixes(prefixes) && '#' !in prefixes && '$' !in prefixes
    ensures UserApplies(current, acl, prefixes + "none", user, lib, S, lvl) <==> '!' in prefixes
    ensures UserApplies(current, acl, prefixes + "all", user, lib, S, lvl) <==> '!' !in prefixes
    ensures UserApplies(current, acl, prefixes + "auth", user, lib, S, lvl) <==> ('!' in prefixes) != (user.iId >= 0)
    ensures UserApplies(current, acl, prefixes + "strong", user, lib, S, lvl) <==> ('!' in prefixes) != user.bVerified
  {
    var p, a := RootPath(S, lvl, current), RootPath(S, lvl, acl);
    var u, home := ViewOf(user), PathOf(S, lvl, user.cChannel);
    NameDecides(p, a, prefixes, "none", u, home, lib);
    NameDecides(p, a, prefixes, "all", u, home, lib);
    NameDecides(p, a, prefixes, "auth", u, home, lib);
    NameDecides(p, a, prefixes, "strong", u, home, lib);
  }

  /** "in" is whoever is in the channel, "out" whoever is not: the channel the list is evaluated for, or
      after '~' the channel of the list. */
  lemma NamesAboutTheChannel(prefixes: string, current: Channel, acl: Channel, user: ServerUser, lib: Library,
                             S: set<Channel>, lvl: map<Channel, nat>)
    requires TreeOk(S, lvl) && current in S && acl in S && UserOk(S, user)
    requires AllPrefixes(prefixes) && '#' !in prefixes && '$' !in prefixes
    ensures var channel := if '~' in prefixes then acl else current;
            && (UserApplies(current, acl, prefixes + "in", user, lib, S, lvl) <==>
                ('!' in prefixes) != (user.cChannel == channel))
            && (UserApplies(current, acl, prefixes + "out", user, lib, S, lvl) <==>
                ('!' in prefixes) != (user.cChannel != channel))
  {
    var p, a := RootPath(S, lvl, current), RootPath(S, lvl, acl);
    var u, home := ViewOf(user), PathOf(S, lvl, user.cChannel);
    NameDecides(p, a, prefixes, "in", u, home, lib);
    NameDecides(p, a, prefixes, "out", u, home, lib);
  }

  /** Without prefixes. */
  lemma InAndOut(current: Channel, acl: Channel, user: ServerUser, lib: Library, S: set<Channel>, lvl: map<Channel, nat>)
    requires TreeOk(S, lvl) && current in S && acl in S && UserOk(S, user)
    ensures UserApplies(current, acl, "in", user, lib, S, lvl) <==> user.cChannel == current
    ensures UserApplies(current, acl, "out", user, lib, S, lvl) <==> user.cChannel != current
  {
    NamesAboutTheChannel("", current, acl, user, lib, S, lvl);
    assert "" + "in" == "in" && "" + "out" == "out";
  }

  lemma InAndOutOfAcl(current: Channel, acl: Channel, user: ServerUser, lib: Library, S: set<Channel>, lvl: map<Channel, nat>)
    requires TreeOk(S, lvl) && current in S && acl in S && UserOk(S, user)
    ensures UserApplies(current, acl, "~in", user, lib, S, lvl) <==> user.cChannel == acl
    ensures UserApplies(current, acl, "~out", user, lib, S, lvl) <==> user.cChannel != acl
  {
    NamesAboutTheChannel("~", current, acl, user, lib, S, lvl);
    assert "~" + "in" == "~in" && "~" + "out" == "~out";
  }

  lemma AllAndNone(current: Channel, acl: Channel, user: ServerUser, lib: Library, S: set<Channel>, lvl: map<Channel, nat>)
    requires TreeOk(S, lvl) && current in S && acl in S && UserOk(S, user)
    ensures UserApplies(current, acl, "all", user, lib, S, lvl)
    ensures !UserApplies(current, acl, "none", user, lib, S, lvl)
    ensures !UserApplies(current, acl, "", user, lib, S, lvl)
    ensures UserApplies(current, acl, "auth", user, lib, S, lvl) <==> user.iId >= 0
    ensures UserApplies(current, acl, "strong", user, lib, S, lvl) <==> user.bVerified
  {
    NamesAboutTheUser("", current, acl, user, lib, S, lvl);
    PrefixesAlone("", current, acl, user, lib, S, lvl);
    assert "" + "all" == "all" && "" + "none" == "none" && "" + "auth" == "auth" && "" + "strong" == "strong";
  }

  // ----- "sub,offset,min,max"

  lemma {:induction false} SplitPart(part: string, rest: string)
    requires ',' !in part
    ensures Split(part + "," + rest) == [part] + Split(rest)
  {
    var s := part + "," + rest;
    if part == [] {
      assert s[1..] == rest;
    } else {
      assert s[1..] == part[1..] + "," + rest;
      SplitPart(part[1..], rest);
      assert [part[0]] + part[1..] == part;
    }
  }

  lemma {:induction false} SplitWhole(part: string)
    requires ',' !in part
    ensures Split(part) == [part]
  {
    if part != [] {
      SplitWhole(part[1..]);
      assert [part[0]] + part[1..] == part;
    }
  }

  /** The number an argument stands for; an empty one stands for the default. */
  function Argument(text: string, default: int, lib: Library): int {
    if text == "" then default else lib.toInt(text)
  }

  lemma NoArguments(lib: Library)
    ensures ParseSub("sub", lib) == SubArgs(0, 1, 1000)
  {
    assert "sub"[3..] == "";
  }

  lemma AfterSub(rest: string)
    ensures ("sub," + rest)[4..] == rest
  {
  }

  lemma OneArgument(offset: string, lib: Library)
    requires ',' !in offset
    ensures ParseSub("sub," + offset, lib) == SubArgs(Argument(offset, 0, lib), 1, 1000)
  {
    AfterSub(offset);
    SplitWhole(offset);
  }

  lemma TwoArguments(offset: string, min: string, lib: Library)
    requires ',' !in offset && ',' !in min
    ensures ParseSub("sub," + (offset + "," + min), lib) == SubArgs(Argument(offset, 0, lib), Argument(min, 1, lib), 1000)
  {
    AfterSub(offset + "," + min);
    SplitPart(offset, min);
    SplitWhole(min);
  }

  /** Three arguments; more are ignored. */
  lemma ThreeArguments(offset: string, min: string, max: string, more: string, lib: Library)
    requires ',' !in offset && ',' !in min && ',' !in max
    ensures ParseSub("sub," + (offset + "," + (min + "," + max)), lib) ==
            SubArgs(Argument(offset, 0, lib), Argument(min, 1, lib), Argument(max, 1000, lib))
    ensures ParseSub("sub," + (offset + "," + (min + "," + (max + "," + more))), lib) ==
            SubArgs(Argument(offset, 0, lib), Argument(min, 1, lib), Argument(max, 1000, lib))
  {
    AfterSub(offset + "," + (min + "," + max));
    SplitPart(offset, min + "," + max);
    SplitPart(min, max);
    SplitWhole(max);
    AfterSub(offset + "," + (min + "," + (max + "," + more)));
    SplitPart(offset, min + "," + (max + "," + more));
    SplitPart(min, max + "," + more);
    SplitPart(max, more);
  }

  /** The user's channel is at or below the ancestor of `chan` that is `offset` levels below `context` (the
      root, if that would be above it), at a distance between `min` and `max`. */
  ghost predicate InReach(S: set<Channel>, lvl: map<Channel, nat>, chan: Channel, context: Channel, home: Channel?,
                          offset: int, min: int, max: int)
    requires TreeOk(S, lvl) && chan in S && context in S && (home != null ==> home in S)
    reads S
  {
    && home != null
    && exists required :: required in S && AtOrBelow(S, lvl, required, chan) && AtOrBelow(S, lvl, required, home)
                          && lvl[required] == (if lvl[context] + offset < 0 then 0 else lvl[context] + offset)
                          && min <= lvl[home] - lvl[required] <= max
  }

  lemma ReachIsDistance(S: set<Channel>, lvl: map<Channel, nat>, chan: Channel, context: Channel, home: Channel?, a: SubArgs)
    requires TreeOk(S, lvl) && chan in S && context in S && AtOrBelow(S, lvl, context, chan) && (home != null ==> home in S)
    ensures SubMatches(RootPath(S, lvl, chan), context, PathOf(S, lvl, home), a) <==>
            InReach(S, lvl, chan, context, home, a.offset, a.min, a.max)
  {
    SubIsDistance(S, lvl, chan, context, home, a);
    if home != null {
      forall required | required in S && AtOrBelow(S, lvl, required, chan)
        ensures lvl[required] <= lvl[chan] && RootPath(S, lvl, chan)[lvl[required]].ref == required
      {
        AncestorOnPath(S, lvl, required, chan);
      }
    }
  }

  /** A name that starts with "sub", in a list held by the evaluated channel or one above it. */
  lemma SubMeans(prefixes: string, name: string, a: SubArgs, current: Channel, acl: Channel, user: ServerUser, lib: Library,
                 S: set<Channel>, lvl: map<Channel, nat>)
    requires TreeOk(S, lvl) && current in S && acl in S && UserOk(S, user) && AtOrBelow(S, lvl, acl, current)
    requires AllPrefixes(prefixes) && '#' !in prefixes && '$' !in prefixes
    requires (name == "sub" || "sub," <= name) && ParseSub(name, lib) == a
    ensures UserApplies(current, acl, prefixes + name, user, lib, S, lvl) <==>
            ('!' in prefixes) !=
            InReach(S, lvl, current, if '~' in prefixes then acl else current, user.cChannel, a.offset, a.min, a.max)
  {
    assert name[0] == 's' && name[1] == 'u';
    assert name !in {"none", "all", "auth", "strong", "in", "out"} by {
      assert "none"[0] == 'n' && "all"[0] == 'a' && "auth"[0] == 'a' && "strong"[1] == 't' && "in"[0] == 'i' && "out"[0] == 'o';
    }
    var p, home := RootPath(S, lvl, current), PathOf(S, lvl, user.cChannel);
    NameDecides(p, RootPath(S, lvl, acl), prefixes, name, ViewOf(user), home, lib);
    ReachIsDistance(S, lvl, current, if '~' in prefixes then acl else current, user.cChannel, a);
  }

  /** "sub" alone: the user is in a channel below the evaluated one, by at most 1000 levels. */
  lemma PlainSub(current: Channel, acl: Channel, user: ServerUser, lib: Library, S: set<Channel>, lvl: map<Channel, nat>)
    requires TreeOk(S, lvl) && current in S && acl in S && UserOk(S, user) && AtOrBelow(S, lvl, acl, current)
    ensures UserApplies(current, acl, "sub", user, lib, S, lvl) <==>
            user.cChannel != null && Below(S, lvl, current, user.cChannel) && lvl[user.cChannel] <= lvl[current] + 1000
  {
    NoArguments(lib);
    SubMeans("", "sub", SubArgs(0, 1, 1000), current, acl, user, lib, S, lvl);
    assert "" + "sub" == "sub";
    var home := user.cChannel;
    if home != null {
      forall required | required in S && AtOrBelow(S, lvl, required, current) && lvl[required] == lvl[current]
        ensures required == current
      {
        AncestorOnPath(S, lvl, required, current);
      }
      if Below(S, lvl, current, home) {
        BelowIsDeeper(S, lvl, current, home);
        assert AtOrBelow(S, lvl, current, current);
      }
    }
  }

  // ----- Groups

  /** The channel's definition of the group is seen from the end of the path: it stands there itself, if
      `own`, or it is inheritable. */
  predicate Seen(p: Path, name: string, own: bool, k: nat)
    requires k < |p| && name in p[k].qhGroups
  {
    (own && k == |p| - 1) || p[k].qhGroups[name].bInheritable
  }

  /** The definition at place `k` contributes: it is seen, and every nearer one is seen and inherits. */
  predicate Contributes(p: Path, name: string, own: bool, k: nat) {
    && k < |p| && name in p[k].qhGroups && Seen(p, name, own, k)
    && forall j :: k < j < |p| && name in p[j].qhGroups ==> Seen(p, name, own, j) && p[j].qhGroups[name].bInherit
  }

  /** What one more channel at the end of the path does to the contributing places. */
  lemma ContributesFurther(p: Path, name: string, own: bool, k: nat)
    requires p != [] && k < |p| - 1
    ensures Contributes(p, name, own, k) <==>
            && Contributes(Init(p), name, false, k)
            && (name in Last(p).qhGroups ==> Seen(p, name, own, |p| - 1) && Last(p).qhGroups[name].bInherit)
  {
    var front := Init(p);
    assert forall j :: 0 <= j < |front| ==> front[j] == p[j];
  }

  /** The definition adds the id. */
  function AddsId(id: int): Group -> bool {
    (g: Group) => id in g.qsAdd
  }

  /** The definition knows the user: by id, or temporarily by id or by the negated session. */
  function Knows(id: int, session: u32): Group -> bool {
    (g: Group) => id in g.qsAdd || id in g.qsTemporary || -ToInt32(session) in g.qsTemporary
  }

  /** Place `k` adds the user, in the sense given, and no contributing place from `k` on removes the id. */
  ghost predicate AddedAt(p: Path, name: string, own: bool, id: int, adds: Group -> bool, k: nat) {
    && Contributes(p, name, own, k) && adds(p[k].qhGroups[name])
    && forall j: nat :: k <= j && Contributes(p, name, own, j) ==> id !in p[j].qhGroups[name].qsRemove
  }

  ghost predicate AddedSomewhere(p: Path, name: string, own: bool, id: int, adds: Group -> bool) {
    exists k: nat :: AddedAt(p, name, own, id, adds, k)
  }

  lemma AddedFurther(p: Path, name: string, own: bool, id: int, adds: Group -> bool)
    requires p != []
    ensures AddedSomewhere(p, name, own, id, adds) <==>
            if name !in Last(p).qhGroups then AddedSomewhere(Init(p), name, false, id, adds)
            else
              var g := Last(p).qhGroups[name];
              && Seen(p, name, own, |p| - 1) && id !in g.qsRemove
              && (adds(g) || (g.bInherit && AddedSomewhere(Init(p), name, false, id, adds)))
  {
    var n: nat := |p| - 1;
    assert Contributes(p, name, own, n) <==> name in Last(p).qhGroups && Seen(p, name, own, n);
    forall k: nat | k < n
      ensures AddedAt(p, name, own, id, adds, k) <==>
              && AddedAt(Init(p), name, false, id, adds, k)
              && (name in Last(p).qhGroups ==>
                    Seen(p, name, own, n) && Last(p).qhGroups[name].bInherit && id !in Last(p).qhGroups[name].qsRemove)
    {
      forall j: nat | j < n
        ensures Contributes(p, name, own, j) <==>
                && Contributes(Init(p), name, false, j)
                && (name in Last(p).qhGroups ==> Seen(p, name, own, n) && Last(p).qhGroups[name].bInherit)
      {
        ContributesFurther(p, name, own, j);
      }
    }
    if name in Last(p).qhGroups && Seen(p, name, own, n) && adds(Last(p).qhGroups[name])
       && id !in Last(p).qhGroups[name].qsRemove {
      assert AddedAt(p, name, own, id, adds, n);
    }
  }

  /** Who is a member: whom some contributing definition adds and neither it nor a nearer one removes. */
  lemma {:induction false} MembersExactly(p: Path, name: string, own: bool, id: int)
    ensures id in MembersOf(Definitions(p, name, own)) <==> AddedSomewhere(p, name, own, id, AddsId(id))
  {
    if p != [] {
      MembersExactly(Init(p), name, false, id);
      AddedFurther(p, name, own, id, AddsId(id));
      if name in Last(p).qhGroups && Seen(p, name, own, |p| - 1) {
        var g := Last(p).qhGroups[name];
        assert ([g] + Definitions(Init(p), name, false))[1..] == Definitions(Init(p), name, false);
      }
    }
  }

  /** Who matches: whom some contributing definition knows and neither it nor a nearer one removes. */
  lemma {:induction false} MatchesByPlaces(p: Path, name: string, own: bool, u: UserView)
    ensures MatchesOf(Definitions(p, name, own), u) <==> AddedSomewhere(p, name, own, u.iId, Knows(u.iId, u.uiSession))
  {
    if p != [] {
      MatchesByPlaces(Init(p), name, false, u);
      AddedFurther(p, name, own, u.iId, Knows(u.iId, u.uiSession));
      if name in Last(p).qhGroups && Seen(p, name, own, |p| - 1) {
        var g := Last(p).qhGroups[name];
        assert ([g] + Definitions(Init(p), name, false))[1..] == Definitions(Init(p), name, false);
      }
    }
  }

  /** The definition in force: the nearest one, if it is seen. */
  lemma {:induction false} LookupIsNearest(p: Path, name: string, own: bool, k: nat)
    ensures Lookup(p, name, own) == Some(k) <==>
            && k < |p| && name in p[k].qhGroups && Seen(p, name, own, k)
            && forall j :: k < j < |p| ==> name !in p[j].qhGroups
  {
    if p != [] {
      assert forall j :: 0 <= j < |p| - 1 ==> Init(p)[j] == p[j];
      LookupIsNearest(Init(p), name, false, k);
    }
  }

  // ----- Groups on the tree

  /** The definition that channel `d` holds is seen from `c`. */
  ghost predicate SeenFrom(c: Channel, name: string, d: Channel)
    requires name in d.qhGroups
    reads d
  {
    d == c || d.qhGroups[name].bInheritable
  }

  /** Channel `d`, which is `c` or above it, contributes to the group of that name seen from `c`: its
      definition is seen, and every definition between is seen and inherits. */
  ghost predicate Contributor(S: set<Channel>, lvl: map<Channel, nat>, c: Channel, name: string, d: Channel)
    requires TreeOk(S, lvl) && c in S
    reads S
  {
    && d in S && AtOrBelow(S, lvl, d, c) && name in d.qhGroups && SeenFrom(c, name, d)
    && forall e :: e in S && AtOrBelow(S, lvl, e, c) && name in e.qhGroups && lvl[d] < lvl[e] ==>
         SeenFrom(c, name, e) && e.qhGroups[name].bInherit
  }

  /** A contributor adds the user, in the sense given, and no contributor as near removes the id. */
  ghost predicate AddedFrom(S: set<Channel>, lvl: map<Channel, nat>, c: Channel, name: string, id: int,
                            adds: Group -> bool, d: Channel)
    requires TreeOk(S, lvl) && c in S
    reads S
  {
    && Contributor(S, lvl, c, name, d) && adds(d.qhGroups[name])
    && forall e :: e in S && Contributor(S, lvl, c, name, e) && lvl[d] <= lvl[e] ==> id !in e.qhGroups[name].qsRemove
  }

  /** What stands at a place of a root path. */
  lemma PlaceOnTree(S: set<Channel>, lvl: map<Channel, nat>, c: Channel, k: nat)
    requires TreeOk(S, lvl) && c in S && k < |RootPath(S, lvl, c)|
    ensures var n := RootPath(S, lvl, c)[k];
            && n.ref in S && AtOrBelow(S, lvl, n.ref, c) && lvl[n.ref] == k
            && n.iId == n.ref.iId && n.bInheritACL == n.ref.bInheritACL
            && n.qlACL == n.ref.qlACL && n.qhGroups == n.ref.qhGroups
            && (n.ref == c <==> k == |RootPath(S, lvl, c)| - 1)
  {
    PathPrefix(S, lvl, c, k);
  }

  lemma ContributorIsPlace(S: set<Channel>, lvl: map<Channel, nat>, c: Channel, name: string, d: Channel)
    requires TreeOk(S, lvl) && c in S && d in S && AtOrBelow(S, lvl, d, c)
    ensures Contributor(S, lvl, c, name, d) <==> Contributes(RootPath(S, lvl, c), name, true, lvl[d])
  {
    var p := RootPath(S, lvl, c);
    AncestorOnPath(S, lvl, d, c);
    PlaceOnTree(S, lvl, c, lvl[d]);
    forall e | e in S && AtOrBelow(S, lvl, e, c)
      ensures lvl[e] < |p| && p[lvl[e]].ref == e && p[lvl[e]].qhGroups == e.qhGroups
      ensures e == c <==> lvl[e] == |p| - 1
    {
      AncestorOnPath(S, lvl, e, c);
      PlaceOnTree(S, lvl, c, lvl[e]);
    }
    forall j: nat | j < |p|
      ensures var e := p[j].ref; e in S && AtOrBelow(S, lvl, e, c) && lvl[e] == j && p[j].qhGroups == e.qhGroups
    {
      PlaceOnTree(S, lvl, c, j);
    }
  }

  lemma AddedPlaceOnTree(S: set<Channel>, lvl: map<Channel, nat>, c: Channel, name: string, id: int, adds: Group -> bool,
                         d: Channel)
    requires TreeOk(S, lvl) && c in S && d in S && AtOrBelow(S, lvl, d, c)
    ensures AddedFrom(S, lvl, c, name, id, adds, d) <==> AddedAt(RootPath(S, lvl, c), name, true, id, adds, lvl[d])
  {
    var p := RootPath(S, lvl, c);
    AncestorOnPath(S, lvl, d, c);
    PlaceOnTree(S, lvl, c, lvl[d]);
    ContributorIsPlace(S, lvl, c, name, d);
    forall e | e in S && AtOrBelow(S, lvl, e, c)
      ensures Contributor(S, lvl, c, name, e) <==> Contributes(p, name, true, lvl[e])
      ensures lvl[e] < |p| && p[lvl[e]].qhGroups == e.qhGroups
    {
      AncestorOnPath(S, lvl, e, c);
      PlaceOnTree(S, lvl, c, lvl[e]);
      ContributorIsPlace(S, lvl, c, name, e);
    }
    forall j: nat | j < |p|
      ensures p[j].ref in S && AtOrBelow(S, lvl, p[j].ref, c) && lvl[p[j].ref] == j && p[j].qhGroups == p[j].ref.qhGroups
    {
      PlaceOnTree(S, lvl, c, j);
    }
  }

  lemma AddedOnTree(S: set<Channel>, lvl: map<Channel, nat>, c: Channel, name: string, id: int, adds: Group -> bool)
    requires TreeOk(S, lvl) && c in S
    ensures AddedSomewhere(RootPath(S, lvl, c), name, true, id, adds) <==>
            exists d :: d in S && AddedFrom(S, lvl, c, name, id, adds, d)
  {
    var p := RootPath(S, lvl, c);
    forall d | d in S && AtOrBelow(S, lvl, d, c)
      ensures AddedFrom(S, lvl, c, name, id, adds, d) <==> AddedAt(p, name, true, id, adds, lvl[d])
    {
      AddedPlaceOnTree(S, lvl, c, name, id, adds, d);
    }
    if k: nat :| AddedAt(p, name, true, id, adds, k) {
      PlaceOnTree(S, lvl, c, k);
      assert AddedFrom(S, lvl, c, name, id, adds, p[k].ref);
    }
  }

  /** Who is a member of a group on the tree. */
  lemma MembersOnTree(S: set<Channel>, lvl: map<Channel, nat>, c: Channel, name: string, id: int)
    requires TreeOk(S, lvl) && c in S
    ensures id in MembersOf(Definitions(RootPath(S, lvl, c), name, true)) <==>
            exists d :: d in S && AddedFrom(S, lvl, c, name, id, AddsId(id), d)
  {
    MembersExactly(RootPath(S, lvl, c), name, true, id);
    AddedOnTree(S, lvl, c, name, id, AddsId(id));
  }

  /** Which definition getGroup finds on the tree: the nearest, if it is seen. */
  lemma LookupOnTree(S: set<Channel>, lvl: map<Channel, nat>, c: Channel, name: string, d: Channel)
    requires TreeOk(S, lvl) && c in S && d in S && AtOrBelow(S, lvl, d, c)
    ensures Lookup(RootPath(S, lvl, c), name, true) == Some(lvl[d]) <==>
            && name in d.qhGroups && SeenFrom(c, name, d)
            && forall e :: e in S && AtOrBelow(S, lvl, e, c) && lvl[d] < lvl[e] ==> name !in e.qhGroups
  {
    var p := RootPath(S, lvl, c);
    LookupIsNearest(p, name, true, lvl[d]);
    forall e | e in S && AtOrBelow(S, lvl, e, c)
      ensures lvl[e] < |p| && p[lvl[e]].qhGroups == e.qhGroups && (e == c <==> lvl[e] == |p| - 1)
    {
      AncestorOnPath(S, lvl, e, c);
      PlaceOnTree(S, lvl, c, lvl[e]);
    }
    forall j: nat | j < |p|
      ensures p[j].ref in S && AtOrBelow(S, lvl, p[j].ref, c) && lvl[p[j].ref] == j && p[j].qhGroups == p[j].ref.qhGroups
    {
      PlaceOnTree(S, lvl, c, j);
    }
  }

  /** The name of an actual group: it applies to the users some contributing channel knows and neither it
      nor a nearer one removes. */
  lemma GroupMeans(prefixes: string, name: string, current: Channel, acl: Channel, user: ServerUser, lib: Library,
                   S: set<Channel>, lvl: map<Channel, nat>)
    requires TreeOk(S, lvl) && current in S && acl in S && UserOk(S, user)
    requires AllPrefixes(prefixes) && '#' !in prefixes && '$' !in prefixes && IsBare(name)
    requires name !in {"none", "all", "auth", "strong", "in", "out", "sub"} && !("sub," <= name)
    ensures var c := if '~' in prefixes then acl else current;
            UserApplies(current, acl, prefixes + name, user, lib, S, lvl) <==>
            ('!' in prefixes) !=
            exists d :: d in S && AddedFrom(S, lvl, c, name, user.iId, Knows(user.iId, user.uiSession), d)
  {
    var c := if '~' in prefixes then acl else current;
    NameDecides(RootPath(S, lvl, current), RootPath(S, lvl, acl), prefixes, name, ViewOf(user),
                PathOf(S, lvl, user.cChannel), lib);
    MatchesByPlaces(RootPath(S, lvl, c), name, true, ViewOf(user));
    AddedOnTree(S, lvl, c, name, user.iId, Knows(user.iId, user.uiSession));
  }
}
