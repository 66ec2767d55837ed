/** Group membership (src/Group.cpp).

    The source looks a group up along the parents in three places that are meant to agree: `members`
    collects user ids, `getGroup` finds the definition in force, `appliesToUser` decides for one user.
    The methods at the end are those searches; the functions before them say on root paths what they
    compute, and the lemmas relate the functions. */
module Groups {
  import opened Bytes
  import opened Sequences
  import opened Wrappers
  import opened ServerTypes
  import opened Channels
  import opened Paths
  import opened Users

  /** Library routines the decision depends on: QString::toInt (0 for text that is no number) and
      caseless comparison. */
  datatype Library = Library(toInt: string -> int, sameToken: (string, string) -> bool)

  // ----- Looking a name up along a path

  /** The definitions that contribute to a group, nearest first.  `own` says that the path still ends in
      the channel the search began at, where an uninheritable definition counts. */
  function Definitions(p: Path, name: string, own: bool): seq<Group> {
    if p == [] then []
    else if name !in Last(p).qhGroups then Definitions(Init(p), name, false)
    else
      var g := Last(p).qhGroups[name];
      if !own && !g.bInheritable then []
      else [g] + if g.bInherit then Definitions(Init(p), name, false) else []
  }

  /** The place on the path of the definition in force. */
  function Lookup(p: Path, name: string, own: bool): (k: Option<nat>)
    ensures k.Some? ==> k.value < |p| && name in p[k.value].qhGroups
  {
    if p == [] then None
    else if name !in Last(p).qhGroups then Lookup(Init(p), name, false)
    else if own || Last(p).qhGroups[name].bInheritable then Some(|p| - 1)
    else None
  }

  /** The ids the definitions add up to; the farthest applies first, and removing wins over adding. */
  function MembersOf(defs: seq<Group>): set<int> {
    if defs == [] then {} else MembersOf(defs[1..]) + defs[0].qsAdd - defs[0].qsRemove
  }

  /** Unregistered users are known temporarily by the negated session, which is cast to int first. */
  function SessionId(u: UserView): int {
    -ToInt32(u.uiSession)
  }

  /** A definition adds the user by id, or temporarily by id or session. */
  predicate Adds(g: Group, u: UserView) {
    u.iId in g.qsAdd || u.iId in g.qsTemporary || SessionId(u) in g.qsTemporary
  }

  function MatchesOf(defs: seq<Group>, u: UserView): bool {
    if defs == [] then false
    else u.iId !in defs[0].qsRemove && (MatchesOf(defs[1..], u) || Adds(defs[0], u))
  }

  /** The names inserted and not removed on the way from the root down. */
  function NamesOf(p: Path, own: bool): set<string> {
    if p == [] then {} else
    var here := Last(p).qhGroups;
    NamesOf(Init(p), false)
    + (set n | n in here && (own || here[n].bInheritable))
    - (set n | n in here && !own && !here[n].bInheritable)
  }

  // ----- The three lookups agree

  /** No contributing definition knows the user only temporarily. */
  ghost predicate NoTemporary(defs: seq<Group>, u: UserView) {
    forall g :: g in defs ==> u.iId !in g.qsTemporary && SessionId(u) !in g.qsTemporary
  }

  lemma {:induction false} MatchesIsMembership(defs: seq<Group>, u: UserView)
    requires NoTemporary(defs, u)
    ensures MatchesOf(defs, u) <==> u.iId in MembersOf(defs)
  {
    if defs != [] {
      MatchesIsMembership(defs[1..], u);
    }
  }

  /** Definition `i` knows the user temporarily, and neither it nor a nearer one removes the user. */
  predicate WinsAt(defs: seq<Group>, u: UserView, i: nat)
    requires i < |defs|
  {
    && (u.iId in defs[i].qsTemporary || SessionId(u) in defs[i].qsTemporary)
    && forall j :: 0 <= j <= i ==> u.iId !in defs[j].qsRemove
  }

  predicate TemporaryWins(defs: seq<Group>, u: UserView) {
    exists i :: 0 <= i < |defs| && WinsAt(defs, u, i)
  }

  lemma FirstOrLater(defs: seq<Group>, u: UserView)
    requires defs != []
    ensures TemporaryWins(defs, u) <==>
            && u.iId !in defs[0].qsRemove
            && (|| u.iId in defs[0].qsTemporary || SessionId(u) in defs[0].qsTemporary
                || TemporaryWins(defs[1..], u))
  {
    var rest := defs[1..];
    if i :| 0 <= i < |defs| && WinsAt(defs, u, i) {
      if i > 0 {
        forall j | 0 <= j <= i - 1
          ensures u.iId !in rest[j].qsRemove
        {
          assert u.iId !in defs[j + 1].qsRemove;
        }
        assert WinsAt(rest, u, i - 1);
      }
    }
    if u.iId !in defs[0].qsRemove {
      if u.iId in defs[0].qsTemporary || SessionId(u) in defs[0].qsTemporary {
        assert WinsAt(defs, u, 0);
      }
      if i :| 0 <= i < |rest| && WinsAt(rest, u, i) {
        forall j | 0 <= j <= i + 1
          ensures u.iId !in defs[j].qsRemove
        {
          assert j > 0 ==> u.iId !in rest[j - 1].qsRemove;
        }
        assert WinsAt(defs, u, i + 1);
      }
    }
  }

  /** Who matches: the members, and those known temporarily to a definition that no nearer one, nor that
      one itself, overrides by removing them. */
  lemma {:induction false} MatchesExactly(defs: seq<Group>, u: UserView)
    ensures MatchesOf(defs, u) <==> u.iId in MembersOf(defs) || TemporaryWins(defs, u)
  {
    if defs != [] {
      MatchesExactly(defs[1..], u);
      FirstOrLater(defs, u);
    }
  }

  /** So matching and membership disagree exactly for somebody who is no member and wins temporarily. */
  lemma MembershipMatches(defs: seq<Group>, u: UserView)
    ensures u.iId in MembersOf(defs) ==> MatchesOf(defs, u)
    ensures (MatchesOf(defs, u) <==> u.iId in MembersOf(defs)) <==> (TemporaryWins(defs, u) ==> u.iId in MembersOf(defs))
  {
    MatchesExactly(defs, u);
  }

  /** A user with id 5 who is a temporary member only matches; once the same definition removes the id,
      nothing is left. */
  lemma TemporaryExample(u: UserView)
    requires u.iId == 5
    ensures var g := Group("g", true, true, {}, {}, {5});
            MatchesOf([g], u) && u.iId !in MembersOf([g])
    ensures var g := Group("g", true, true, {}, {5}, {5});
            !MatchesOf([g], u) && u.iId !in MembersOf([g])
  {
    var g := Group("g", true, true, {}, {}, {5});
    assert Adds(g, u);
  }

  /** The definitions found from a channel are those found from the channel that `Lookup` gives. */
  lemma {:induction false} DefinitionsFromLookup(p: Path, name: string, own: bool)
    ensures match Lookup(p, name, own)
            case None => Definitions(p, name, own) == []
            case Some(k) =>
              && Definitions(p, name, own) == Definitions(p[..k + 1], name, true)
              && Definitions(p, name, own) != []
              && Definitions(p, name, own)[0] == p[k].qhGroups[name]
  {
    if p != [] {
      if name !in Last(p).qhGroups {
        DefinitionsFromLookup(Init(p), name, false);
        match Lookup(Init(p), name, false)
        case None =>
        case Some(k) => assert p[..k + 1] == Init(p)[..k + 1];
      } else {
        assert p[..|p|] == p;
      }
    }
  }

  /** A user without temporary membership matches a group name exactly when the lookup finds a group
      and the user's id is among the members computed from there. */
  lemma MatchIsFoundMembership(p: Path, name: string, u: UserView)
    requires NoTemporary(Definitions(p, name, true), u)
    ensures MatchesOf(Definitions(p, name, true), u) <==>
            && Lookup(p, name, true).Some?
            && u.iId in MembersOf(Definitions(p[..Lookup(p, name, true).value + 1], name, true))
  {
    DefinitionsFromLookup(p, name, true);
    MatchesIsMembership(Definitions(p, name, true), u);
  }

  /** The names computed from the root down are those the lookup from below finds. */
  lemma {:induction false} NamesAreFound(p: Path, name: string, own: bool)
    ensures name in NamesOf(p, own) <==> Lookup(p, name, own).Some?
  {
    if p != [] {
      NamesAreFound(Init(p), name, false);
    }
  }

  // ----- Group specifications

  /** A specification after its prefixes: '!' inverts, '~' evaluates in the channel of the ACL, '#' is
      an access token, '$' a certificate hash. */
  datatype Spec = Spec(invert: bool, inAclChannel: bool, isAccessToken: bool, isCertHash: bool, name: string)

  function StripPrefixes(s: Spec): Spec
    decreases |s.name|
  {
    if s.name == [] then s
    else if s.name[0] == '!' then StripPrefixes(s.(invert := true, name := s.name[1..]))
    else if s.name[0] == '~' then StripPrefixes(s.(inAclChannel := true, name := s.name[1..]))
    else if s.name[0] == '#' then StripPrefixes(s.(isAccessToken := true, name := s.name[1..]))
    else if s.name[0] == '$' then StripPrefixes(s.(isCertHash := true, name := s.name[1..]))
    else s
  }

  function ParseSpec(text: string): Spec {
    StripPrefixes(Spec(false, false, false, false, text))
  }

  predicate IsSub(name: string) {
    name == "sub" || "sub," <= name
  }

  /** QString::split at commas, keeping empty parts. */
  function Split(s: string): (parts: seq<string>)
    ensures |parts| >= 1
  {
    if s == [] then [[]]
    else
      var rest := Split(s[1..]);
      if s[0] == ',' then [[]] + rest else [[s[0]] + rest[0]] + rest[1..]
  }

  /** The arguments of "sub,offset,min,max", with their defaults. */
  datatype SubArgs = SubArgs(offset: int, min: int, max: int)

  function ParseSub(name: string, lib: Library): SubArgs {
    var args := Split(name[if |name| < 4 then |name| else 4..]);
    SubArgs(if args[0] != [] then lib.toInt(args[0]) else 0,
            if |args| >= 2 && args[1] != [] then lib.toInt(args[1]) else 1,
            if |args| >= 3 && args[2] != [] then lib.toInt(args[2]) else 1000)
  }

  /** The place on the evaluated channel's path that the user must be below, or none if it would lie
      past the end. */
  function RequiredIndex(current: Path, context: Channel, offset: int): Option<nat>
  {
    var i := IndexOf(current, context) + offset;
    if i >= |current| then None else Some(if i < 0 then 0 else i)
  }

  function SubMatches(current: Path, context: Channel, home: Path, a: SubArgs): bool
    requires current != []
  {
    match RequiredIndex(current, context, a.offset)
    case None => false
    case Some(i) =>
      && IndexOf(home, current[i].ref) != -1
      && i + a.min <= |home| - 1 <= i + a.max
  }

  function SpecMatches(current: Path, acl: Path, s: Spec, u: UserView, home: Path, lib: Library): bool
    requires current != [] && acl != []
  {
    var context := if s.inAclChannel then acl else current;
    if s.isAccessToken then exists t :: t in u.qslAccessTokens && lib.sameToken(t, s.name)
    else if s.isCertHash then u.qsHash == s.name
    else if s.name == "none" then false
    else if s.name == "all" then true
    else if s.name == "auth" then u.iId >= 0
    else if s.name == "strong" then u.bVerified
    else if s.name == "in" then u.cChannel == Last(context).ref
    else if s.name == "out" then u.cChannel != Last(context).ref
    else if IsSub(s.name) then SubMatches(current, Last(context).ref, home, ParseSub(s.name, lib))
    else MatchesOf(Definitions(context, s.name, true), u)
  }

  /** The decision of appliesToUser: `current` is the root path of the evaluated channel, `acl` of the
      channel holding the ACL, `home` of the user's channel. */
  function AppliesTo(current: Path, acl: Path, text: string, u: UserView, home: Path, lib: Library): bool
    requires current != [] && acl != []
  {
    var s := ParseSpec(text);
    if s.name == [] then false else s.invert != SpecMatches(current, acl, s, u, home, lib)
  }

  /** A text that names a group: no prefix and no reserved word. */
  predicate IsPlainName(text: string) {
    && text != [] && text[0] !in {'!', '~', '#', '$'}
    && text !in {"none", "all", "auth", "strong", "in", "out"} && !IsSub(text)
  }

  /** For a plain name the whole decision is membership in the group found from the evaluated channel. */
  lemma PlainNameIsMembership(current: Path, acl: Path, text: string, u: UserView, home: Path, lib: Library)
    requires current != [] && acl != [] && IsPlainName(text)
    requires NoTemporary(Definitions(current, text, true), u)
    ensures AppliesTo(current, acl, text, u, home, lib) <==>
            && Lookup(current, text, true).Some?
            && u.iId in MembersOf(Definitions(current[..Lookup(current, text, true).value + 1], text, true))
  {
    MatchIsFoundMembership(current, text, u);
  }

  /** On the tree: a plain name applies to a user exactly when the lookup from the evaluated channel finds
      a channel with the group, and the user is in that group's own members. */
  lemma TreeNameIsMembership(S: set<Channel>, lvl: map<Channel, nat>, chan: Channel, acl: Channel, text: string,
                             u: UserView, home: Path, lib: Library)
    requires TreeOk(S, lvl) && chan in S && acl in S && IsPlainName(text)
    requires NoTemporary(Definitions(RootPath(S, lvl, chan), text, true), u)
    ensures var path := RootPath(S, lvl, chan);
            AppliesTo(path, RootPath(S, lvl, acl), text, u, home, lib) <==>
            && Lookup(path, text, true).Some?
            && var found := path[Lookup(path, text, true).value].ref;
               && found in S && AtOrBelow(S, lvl, found, chan) && text in found.qhGroups
               && u.iId in MembersOf(Definitions(RootPath(S, lvl, found), text, true))
  {
    var path := RootPath(S, lvl, chan);
    PlainNameIsMembership(path, RootPath(S, lvl, acl), text, u, home, lib);
    match Lookup(path, text, true)
    case None =>
    case Some(k) => PathPrefix(S, lvl, chan, k);
  }

  lemma InvertLeavesMatch(current: Path, acl: Path, s: Spec, u: UserView, home: Path, lib: Library)
    requires current != [] && acl != []
    ensures SpecMatches(current, acl, s.(invert := true), u, home, lib) == SpecMatches(current, acl, s, u, home, lib)
  {
  }

  lemma {:induction false} InvertIsKept(s: Spec)
    ensures StripPrefixes(s.(invert := true)) == StripPrefixes(s).(invert := true)
    decreases |s.name|
  {
    if s.name == [] {
    } else if s.name[0] == '!' {
      InvertIsKept(s.(invert := true, name := s.name[1..]));
    } else if s.name[0] == '~' {
      InvertIsKept(s.(inAclChannel := true, name := s.name[1..]));
    } else if s.name[0] == '#' {
      InvertIsKept(s.(isAccessToken := true, name := s.name[1..]));
    } else if s.name[0] == '$' {
      InvertIsKept(s.(isCertHash := true, name := s.name[1..]));
    }
  }

  /** A leading '!' gives the opposite answer, unless the specification already has one or consists of
      prefixes alone; then it changes nothing. */
  lemma {:induction false} InvertNegates(current: Path, acl: Path, text: string, u: UserView, home: Path, lib: Library)
    requires current != [] && acl != []
    ensures AppliesTo(current, acl, "!" + text, u, home, lib) ==
            if ParseSpec(text).invert || ParseSpec(text).name == [] then AppliesTo(current, acl, text, u, home, lib)
            else !AppliesTo(current, acl, text, u, home, lib)
  {
    var s := Spec(false, false, false, false, text);
    assert ("!" + text)[1..] == text;
    assert ParseSpec("!" + text) == StripPrefixes(s.(invert := true));
    InvertIsKept(s);
    var t := ParseSpec(text);
    if t.name != [] {
      InvertLeavesMatch(current, acl, t, u, home, lib);
    }
  }

  // ----- "sub" in terms of the tree

  /** In a call made while evaluating an ACL the context channel is on the evaluated channel's path, so
      the source's assertion holds.  The group then matches exactly when the required channel exists
      and the user's channel is at or below it, by at least `min` and at most `max` levels. */
  lemma SubIsDistance(S: set<Channel>, lvl: map<Channel, nat>, chan: Channel, context: Channel, home: Channel?, a: SubArgs)
    requires TreeOk(S, lvl) && chan in S && context in S && AtOrBelow(S, lvl, context, chan)
    requires home != null ==> home in S
    ensures IndexOf(RootPath(S, lvl, chan), context) == lvl[context]
    ensures SubMatches(RootPath(S, lvl, chan), context, PathOf(S, lvl, home), a) <==>
            && home != null
            && lvl[context] + a.offset <= lvl[chan]
            && var level: nat := if lvl[context] + a.offset < 0 then 0 else lvl[context] + a.offset;
               var required := RootPath(S, lvl, chan)[level].ref;
               && required in S && lvl[required] == level && AtOrBelow(S, lvl, required, chan)
               && AtOrBelow(S, lvl, required, home)
               && a.min <= lvl[home] - level <= a.max
  {
    IndexIsLevel(S, lvl, context, chan);
    var p := RootPath(S, lvl, chan);
    match RequiredIndex(p, context, a.offset)
    case None =>
    case Some(i) =>
      PathPrefix(S, lvl, chan, i);
      if home != null {
        IndexIsLevel(S, lvl, p[i].ref, home);
      }
  }

  // ----- The searches of the source

  /** One step of the lookup for definitions. */
  lemma DefinitionsAt(path: Path, m: nat, name: string, own: bool)
    requires 0 < m <= |path|
    ensures var up := Definitions(path[..m - 1], name, false);
            Definitions(path[..m], name, own) ==
            if name !in path[m - 1].qhGroups then up
            else if !own && !path[m - 1].qhGroups[name].bInheritable then []
            else [path[m - 1].qhGroups[name]] + if path[m - 1].qhGroups[name].bInherit then up else []
  {
    assert Init(path[..m]) == path[..m - 1];
  }

  /** What is left of the definitions `all` after the definition of one channel is pushed on `s`. */
  lemma StackStep(path: Path, m: nat, name: string, own: bool, s: seq<Group>, all: seq<Group>)
    requires 0 < m <= |path| && all == s + Definitions(path[..m], name, own)
    ensures var up := Definitions(path[..m - 1], name, false);
            if name !in path[m - 1].qhGroups then all == s + up
            else
              var g := path[m - 1].qhGroups[name];
              if !own && !g.bInheritable then all == s
              else if g.bInherit then all == s + [g] + up
              else all == s + [g]
  {
    DefinitionsAt(path, m, name, own);
    if name in path[m - 1].qhGroups {
      var g, up := path[m - 1].qhGroups[name], Definitions(path[..m - 1], name, false);
      assert s + ([g] + up) == s + [g] + up && s + [] == s && [g] + [] == [g];
    }
  }

  /** The walk up that `members` and `appliesToUser` share: the definitions in the order pushed. */
  method StackDefinitions(c: Channel, name: string, ghost S: set<Channel>, ghost lvl: map<Channel, nat>)
    returns (s: seq<Group>)
    requires TreeOk(S, lvl) && c in S
    ensures s == Definitions(RootPath(S, lvl, c), name, true)
  {
    s := [];
    var p: Channel? := c;
    ghost var path := RootPath(S, lvl, c);
    ghost var m: nat := |path|;
    ghost var all := Definitions(path, name, true);
    assert path[..m] == path;
    while p != null
      invariant p != null ==> p in S
      invariant m <= |path| && PathOf(S, lvl, p) == path[..m]
      invariant p == c <==> m == |path|
      invariant all == s + Definitions(path[..m], name, m == |path|)
      decreases m
    {
      StepUp(S, lvl, p, path, m);
      StackStep(path, m, name, m == |path|, s, all);
      if name in p.qhGroups {
        var g := p.qhGroups[name];
        if p != c && !g.bInheritable {
          break;
        }
        s := s + [g];
        if !g.bInherit {
          break;
        }
      }
      p := p.cParent;
      m := m - 1;
    }
    assert s + [] == s;
  }

  /** `s` is what is left to pop of the definitions, and `m` the result of those popped. */
  ghost predicate Folded(s: seq<Group>, defs: seq<Group>, m: set<int>) {
    s <= defs && m == MembersOf(defs[|s|..])
  }

  lemma FoldOne(s: seq<Group>, defs: seq<Group>, m: set<int>)
    requires s != [] && Folded(s, defs, m)
    ensures Folded(Init(s), defs, m + Last(s).qsAdd - Last(s).qsRemove)
  {
    assert defs[|s| - 1..][1..] == defs[|s|..];
  }

  /** Group::members of the group `name` defined in channel `c`. */
  method Members(c: Channel, name: string, ghost S: set<Channel>, ghost lvl: map<Channel, nat>) returns (m: set<int>)
    requires TreeOk(S, lvl) && c in S
    ensures m == MembersOf(Definitions(RootPath(S, lvl, c), name, true))
  {
    var s := StackDefinitions(c, name, S, lvl);
    m := {};
    assert s[..|s|] == s;
    while s != []
      invariant Folded(s, Definitions(RootPath(S, lvl, c), name, true), m)
      decreases |s|
    {
      var g := Last(s);
      FoldOne(s, Definitions(RootPath(S, lvl, c), name, true), m);
      s := Init(s);
      m := m + g.qsAdd;
      m := m - g.qsRemove;
    }
  }

  /** Group::getGroup: the channel that holds the group, if one is found. */
  method GetGroup(chan: Channel, name: string, ghost S: set<Channel>, ghost lvl: map<Channel, nat>)
    returns (found: Option<Channel>)
    requires TreeOk(S, lvl) && chan in S
    ensures found.None? <==> Lookup(RootPath(S, lvl, chan), name, true).None?
    ensures found.Some? ==>
              && name in found.value.qhGroups
              && found.value == RootPath(S, lvl, chan)[Lookup(RootPath(S, lvl, chan), name, true).value].ref
  {
    var p: Channel? := chan;
    while p != null
      invariant p != null ==> p in S
      invariant Lookup(RootPath(S, lvl, chan), name, true) == Lookup(PathOf(S, lvl, p), name, p == chan)
      invariant PathOf(S, lvl, p) <= RootPath(S, lvl, chan)
      decreases |PathOf(S, lvl, p)|
    {
      ParentPath(S, lvl, p);
      if name in p.qhGroups {
        if chan == p {
          return Some(p);
        } else if p.qhGroups[name].bInheritable {
          return Some(p);
        } else {
          return None;
        }
      }
      p := p.cParent;
    }
    found := None;
  }

  /** Every group is filed under its own name, as the Group constructor files it. */
  ghost predicate GroupsNamed(S: set<Channel>)
    reads S
  {
    forall c, n :: c in S && n in c.qhGroups ==> c.qhGroups[n].qsName == n
  }

  lemma NamesAt(path: Path, i: nat, own: bool)
    requires i < |path|
    ensures var here := path[i].qhGroups;
            NamesOf(path[..i + 1], own) == NamesOf(path[..i], false)
                                           + (set n | n in here && (own || here[n].bInheritable))
                                           - (set n | n in here && !own && !here[n].bInheritable)
  {
    assert Init(path[..i + 1]) == path[..i];
  }

  method AddNames(c: Channel, own: bool, m0: set<string>) returns (m: set<string>)
    requires forall n :: n in c.qhGroups ==> c.qhGroups[n].qsName == n
    ensures m == m0
              + (set n | n in c.qhGroups && (own || c.qhGroups[n].bInheritable))
              - (set n | n in c.qhGroups && !own && !c.qhGroups[n].bInheritable)
  {
    m := m0;
    var todo := c.qhGroups.Keys;
    while todo != {}
      invariant todo <= c.qhGroups.Keys
      invariant forall n :: n in m <==>
                  if n in c.qhGroups.Keys - todo then own || c.qhGroups[n].bInheritable else n in m0
      decreases |todo|
    {
      var n :| n in todo;
      todo := todo - {n};
      var g := c.qhGroups[n];
      if !own && !g.bInheritable {
        m := m - {g.qsName};
      } else {
        m := m + {g.qsName};
      }
    }
  }

  /** Group::groupNames: from the root down, each channel's groups in any order. */
  method GroupNames(chan: Channel, ghost S: set<Channel>, ghost lvl: map<Channel, nat>) returns (m: set<string>)
    requires TreeOk(S, lvl) && chan in S && GroupsNamed(S)
    ensures m == NamesOf(RootPath(S, lvl, chan), true)
  {
    var s := Hierarchy(chan, S, lvl);
    ghost var path := RootPath(S, lvl, chan);
    m := {};
    for i := 0 to |s|
      invariant m == NamesOf(path[..i], i == |s|)
    {
      PathPrefix(S, lvl, chan, i);
      assert i < |s| - 1 ==> s[i] != chan;
      NamesAt(path, i, i + 1 == |s|);
      m := AddNames(s[i], chan == s[i], m);
    }
    assert path[..|s|] == path;
  }

  ghost predicate UserOk(S: set<Channel>, user: ServerUser)
    reads user
  {
    user.cChannel != null ==> user.cChannel in S
  }

  /** The decision for a user in the present state of the channels. */
  ghost function UserApplies(current: Channel, acl: Channel, text: string, user: ServerUser, lib: Library,
                             S: set<Channel>, lvl: map<Channel, nat>): bool
    requires TreeOk(S, lvl) && current in S && acl in S && UserOk(S, user)
    reads S, user
  {
    AppliesTo(RootPath(S, lvl, current), RootPath(S, lvl, acl), text, ViewOf(user),
              PathOf(S, lvl, user.cChannel), lib)
  }

  /** The loop at the start of appliesToUser, which takes the prefixes off. */
  method StripSpecification(specification: string) returns (s: Spec)
    ensures s == ParseSpec(specification)
  {
    s := Spec(false, false, false, false, specification);
    while s.name != []
      invariant StripPrefixes(s) == ParseSpec(specification)
      decreases |s.name|
    {
      if s.name[0] == '!' {
        s := s.(invert := true, name := s.name[1..]);
        continue;
      }
      if s.name[0] == '~' {
        s := s.(inAclChannel := true, name := s.name[1..]);
        continue;
      }
      if s.name[0] == '#' {
        s := s.(isAccessToken := true, name := s.name[1..]);
        continue;
      }
      if s.name[0] == '$' {
        s := s.(isCertHash := true, name := s.name[1..]);
        continue;
      }
      break;
    }
  }

  /** The comparison of the two hierarchies. */
  method DepthInRange(currentChannelHierarchy: seq<Channel>, contextChannel: Channel, homeChannelHierarchy: seq<Channel>,
                      args: SubArgs, ghost current: Path, ghost home: Path) returns (matches: bool)
    requires ListsPath(currentChannelHierarchy, current) && ListsPath(homeChannelHierarchy, home)
    requires current != []
    ensures matches == SubMatches(current, contextChannel, home, args)
  {
    var requiredChannelIndex := FindChannel(currentChannelHierarchy, contextChannel, current);
    requiredChannelIndex := requiredChannelIndex + args.offset;
    if requiredChannelIndex >= |currentChannelHierarchy| {
      return false;
    } else if requiredChannelIndex < 0 {
      requiredChannelIndex := 0;
    }
    var requiredChannel := currentChannelHierarchy[requiredChannelIndex];
    var at := FindChannel(homeChannelHierarchy, requiredChannel, home);
    if at == -1 {
      return false;
    }
    var minDepth := requiredChannelIndex + args.min;
    var maxDepth := requiredChannelIndex + args.max;
    var totalDepth := |homeChannelHierarchy| - 1;
    matches := totalDepth >= minDepth && totalDepth <= maxDepth;
  }

  /** The "sub" branch of appliesToUser. */
  method IsBelowRequired(currentChannel: Channel, contextChannel: Channel, user: ServerUser, args: SubArgs,
                         ghost S: set<Channel>, ghost lvl: map<Channel, nat>) returns (matches: bool)
    requires TreeOk(S, lvl) && currentChannel in S && contextChannel in S && UserOk(S, user)
    ensures matches == SubMatches(RootPath(S, lvl, currentChannel), contextChannel,
                                  PathOf(S, lvl, user.cChannel), args)
  {
    ghost var home := PathOf(S, lvl, user.cChannel);
    ghost var current := RootPath(S, lvl, currentChannel);
    var homeChannelHierarchy := Hierarchy(user.cChannel, S, lvl);
    var currentChannelHierarchy := Hierarchy(currentChannel, S, lvl);
    matches := DepthInRange(currentChannelHierarchy, contextChannel, homeChannelHierarchy, args, current, home);
  }

  /** The last branch of appliesToUser: an actual group name. */
  method IsGroupMember(contextChannel: Channel, name: string, user: ServerUser,
                       ghost S: set<Channel>, ghost lvl: map<Channel, nat>) returns (matches: bool)
    requires TreeOk(S, lvl) && contextChannel in S
    ensures matches == MatchesOf(Definitions(RootPath(S, lvl, contextChannel), name, true), ViewOf(user))
  {
    var groupStack := StackDefinitions(contextChannel, name, S, lvl);
    ghost var defs := groupStack;
    var id, session := user.iId, -ToInt32(user.uiSession);
    matches := false;
    while groupStack != []
      invariant groupStack <= defs
      invariant matches == MatchesOf(defs[|groupStack|..], ViewOf(user))
      decreases |groupStack|
    {
      var group := Last(groupStack);
      assert defs[|groupStack| - 1..][1..] == defs[|groupStack|..];
      groupStack := Init(groupStack);
      if id in group.qsAdd || id in group.qsTemporary || session in group.qsTemporary {
        matches := true;
      }
      if id in group.qsRemove {
        matches := false;
      }
    }
  }

  /** The decision for a specification without its prefixes. */
  method MatchSpec(currentChannel: Channel, contextChannel: Channel, s: Spec, user: ServerUser, lib: Library,
                   ghost current: Path, ghost acl: Path, ghost home: Path,
                   ghost S: set<Channel>, ghost lvl: map<Channel, nat>) returns (matches: bool)
    requires TreeOk(S, lvl) && currentChannel in S && contextChannel in S && UserOk(S, user)
    requires current == RootPath(S, lvl, currentChannel) && home == PathOf(S, lvl, user.cChannel)
    requires acl != [] && (if s.inAclChannel then acl else current) == RootPath(S, lvl, contextChannel)
    ensures matches == SpecMatches(current, acl, s, ViewOf(user), home, lib)
  {
    if s.isAccessToken {
      matches := exists t :: t in user.qslAccessTokens && lib.sameToken(t, s.name);
    } else if s.isCertHash {
      matches := user.qsHash == s.name;
    } else if s.name == "none" {
      matches := false;
    } else if s.name == "all" {
      matches := true;
    } else if s.name == "auth" {
      matches := user.iId >= 0;
    } else if s.name == "strong" {
      matches := user.bVerified;
    } else if s.name == "in" {
      matches := user.cChannel == contextChannel;
    } else if s.name == "out" {
      matches := !(user.cChannel == contextChannel);
    } else if IsSub(s.name) {
      matches := IsBelowRequired(currentChannel, contextChannel, user, ParseSub(s.name, lib), S, lvl);
    } else {
      matches := IsGroupMember(contextChannel, s.name, user, S, lvl);
    }
  }

  /** Group::appliesToUser. */
  method AppliesToUser(currentChannel: Channel, aclChannel: Channel, specification: string, user: ServerUser,
                       lib: Library, ghost S: set<Channel>, ghost lvl: map<Channel, nat>) returns (r: bool)
    requires TreeOk(S, lvl) && currentChannel in S && aclChannel in S && UserOk(S, user)
    ensures r == UserApplies(currentChannel, aclChannel, specification, user, lib, S, lvl)
  {
    var s := StripSpecification(specification);
    if s.name == [] {
      return false;
    }
    var contextChannel := if s.inAclChannel then aclChannel else currentChannel;
    ghost var current, acl := RootPath(S, lvl, currentChannel), RootPath(S, lvl, aclChannel);
    var matches := MatchSpec(currentChannel, contextChannel, s, user, lib, current, acl,
                             PathOf(S, lvl, user.cChannel), S, lvl);
    r := if s.invert then !matches else matches;
  }
}
