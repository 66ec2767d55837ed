/** Channels (src/Channel.cpp): the tree, the symmetric link graph and the searches over both.

    A set S stands for the channels of a server.  The ghost map `lvl` witnesses that following
    parents ends; it gives each channel its distance from the root. */
module Channels {
  import opened ServerTypes

  function Count(m: map<Channel, int>, c: Channel): int {
    if c in m then m[c] else 0
  }

  // ----- The link graph

  ghost predicate ChannelLinksOk(S: set<Channel>, c: Channel)
    requires c in S
    reads S
  {
    && c.qsPermLinks == c.qhLinks.Keys
    && c.qhLinks.Keys <= S
    && forall d :: d in c.qhLinks.Keys ==> c in d.qhLinks.Keys && c.qhLinks[d] == if c == d then 2 else 1
  }

  /** The link graph is symmetric, the permanent links are the keys of the link counts, and a link
      counts once, except that a channel linked to itself counts twice. */
  ghost predicate LinksOk(S: set<Channel>)
    reads S
  {
    forall c {:trigger ChannelLinksOk(S, c)} :: c in S ==> ChannelLinksOk(S, c)
  }

  /** The link graph as a value: the channels each channel is linked with. */
  type Graph = map<Channel, set<Channel>>

  ghost function LinkGraph(S: set<Channel>): Graph
    reads S
  {
    map c | c in S :: c.qhLinks.Keys
  }

  ghost function WithLink(g: Graph, a: Channel, b: Channel): Graph {
    map c | c in g :: g[c] + (if c == a then {b} else {}) + (if c == b then {a} else {})
  }

  ghost function WithoutLink(g: Graph, a: Channel, b: Channel): Graph {
    map c | c in g :: g[c] - (if c == a then {b} else {}) - (if c == b then {a} else {})
  }

  ghost function Isolated(g: Graph, a: Channel): Graph {
    map c | c in g :: if c == a then {} else g[c] - {a}
  }

  lemma AlreadyLinked(S: set<Channel>, a: Channel, b: Channel)
    requires LinksOk(S) && a in S && b in S && b in a.qhLinks.Keys
    ensures LinkGraph(S) == WithLink(LinkGraph(S), a, b)
  {
    assert ChannelLinksOk(S, a);
    forall c | c in S
      ensures WithLink(LinkGraph(S), a, b)[c] == LinkGraph(S)[c]
    {
      assert c == a ==> c.qhLinks.Keys + {b} == c.qhLinks.Keys;
      assert c == b ==> c.qhLinks.Keys + {a} == c.qhLinks.Keys;
    }
  }

  lemma IsolatedAfterUnlink(g: Graph, a: Channel, b: Channel)
    ensures Isolated(WithoutLink(g, a, b), a) == Isolated(g, a)
  {
    forall c | c in g
      ensures Isolated(WithoutLink(g, a, b), a)[c] == Isolated(g, a)[c]
    {
    }
  }

  lemma NoLinksMeansIsolated(S: set<Channel>, a: Channel)
    requires LinksOk(S) && a in S && a.qhLinks.Keys == {}
    ensures LinkGraph(S) == Isolated(LinkGraph(S), a)
    ensures a.qhLinks == map[]
  {
    forall c | c in S
      ensures LinkGraph(S)[c] == Isolated(LinkGraph(S), a)[c]
    {
      assert ChannelLinksOk(S, c);
    }
  }

  datatype LinkOp = LinkThem(a: Channel, b: Channel) | UnlinkThem(a: Channel, b: Channel) | UnlinkAll(a: Channel)

  ghost predicate OpIn(op: LinkOp, S: set<Channel>) {
    op.a in S && (!op.UnlinkAll? ==> op.b in S)
  }

  ghost function ApplyOp(g: Graph, op: LinkOp): Graph {
    match op
    case LinkThem(a, b) => WithLink(g, a, b)
    case UnlinkThem(a, b) => WithoutLink(g, a, b)
    case UnlinkAll(a) => Isolated(g, a)
  }

  ghost function ApplyOps(g: Graph, ops: seq<LinkOp>): Graph {
    if ops == [] then g else ApplyOp(ApplyOps(g, ops[..|ops| - 1]), ops[|ops| - 1])
  }

  /** The operation is about the link between `c` and `d`. */
  ghost predicate About(op: LinkOp, c: Channel, d: Channel) {
    match op
    case UnlinkAll(a) => a == c || a == d
    case _ => (op.a == c && op.b == d) || (op.a == d && op.b == c)
  }

  /** Operation `i` is the last one about the two channels. */
  ghost predicate LastAbout(ops: seq<LinkOp>, c: Channel, d: Channel, i: nat) {
    i < |ops| && About(ops[i], c, d) && forall j :: i < j < |ops| ==> !About(ops[j], c, d)
  }

  /** After a run two channels are linked exactly when the last operation about them links them, or none
      is about them and they were linked before. */
  ghost predicate LinkedAfter(ops: seq<LinkOp>, c: Channel, d: Channel, before: bool) {
    || (exists i :: 0 <= i < |ops| && LastAbout(ops, c, d, i) && ops[i].LinkThem?)
    || (before && forall j :: 0 <= j < |ops| ==> !About(ops[j], c, d))
  }

  lemma {:induction false} LastOperationDecides(g: Graph, ops: seq<LinkOp>, c: Channel, d: Channel)
    requires c in g
    ensures ApplyOps(g, ops).Keys == g.Keys
    ensures d in ApplyOps(g, ops)[c] <==> LinkedAfter(ops, c, d, d in g[c])
  {
    if ops != [] {
      var front, last := ops[..|ops| - 1], ops[|ops| - 1];
      LastOperationDecides(g, front, c, d);
      if About(last, c, d) {
        assert LastAbout(ops, c, d, |ops| - 1);
      } else {
        EarlierDecides(ops, c, d, d in g[c]);
      }
    }
  }

  lemma EarlierDecides(ops: seq<LinkOp>, c: Channel, d: Channel, before: bool)
    requires ops != [] && !About(ops[|ops| - 1], c, d)
    ensures LinkedAfter(ops, c, d, before) <==> LinkedAfter(ops[..|ops| - 1], c, d, before)
  {
    var front := ops[..|ops| - 1];
    forall i: nat
      ensures LastAbout(ops, c, d, i) <==> LastAbout(front, c, d, i)
    {
      assert i < |front| ==> ops[i] == front[i];
      if LastAbout(ops, c, d, i) {
        assert i != |front|;
        assert forall j :: i < j < |front| ==> front[j] == ops[j];
      }
      if LastAbout(front, c, d, i) {
        assert forall j :: i < j < |ops| ==> j == |front| || ops[j] == front[j];
      }
    }
    assert forall j :: 0 <= j < |front| ==> front[j] == ops[j];
    assert forall i: nat :: LastAbout(front, c, d, i) ==> ops[i] == front[i];
  }

  // ----- Reachability by links

  ghost predicate LinkPath(S: set<Channel>, older p: seq<Channel>)
    reads S
  {
    && p != []
    && (forall i :: 0 <= i < |p| ==> p[i] in S)
    && forall i :: 0 <= i < |p| - 1 ==> p[i + 1] in p[i].qhLinks
  }

  ghost predicate PathBetween(S: set<Channel>, older p: seq<Channel>, a: Channel, b: Channel)
    reads S
  {
    LinkPath(S, p) && p[0] == a && p[|p| - 1] == b
  }

  ghost predicate Reachable(S: set<Channel>, a: Channel, b: Channel)
    reads S
  {
    exists p :: PathBetween(S, p, a, b)
  }

  lemma ReachesSelf(S: set<Channel>, a: Channel)
    requires a in S
    ensures Reachable(S, a, a)
  {
    assert PathBetween(S, [a], a, a);
  }

  lemma ReachesNeighbour(S: set<Channel>, a: Channel, b: Channel, c: Channel)
    requires Reachable(S, a, b) && c in S && c in b.qhLinks
    ensures Reachable(S, a, c)
  {
    var p :| PathBetween(S, p, a, b);
    assert PathBetween(S, p + [c], a, c);
  }

  lemma LinkedReach(S: set<Channel>, a: Channel, b: Channel)
    requires a in S && b in S && b in a.qhLinks && a in b.qhLinks
    ensures Reachable(S, a, b) && Reachable(S, b, a)
  {
    assert PathBetween(S, [a, b], a, b) && PathBetween(S, [b, a], b, a);
  }

  /** A set closed under links that holds `a` holds everything reachable from `a`. */
  lemma ClosedSetHoldsReachable(S: set<Channel>, a: Channel, closed: set<Channel>)
    requires a in closed && closed <= S
    requires forall c, d :: c in closed && d in c.qhLinks ==> d in closed
    ensures forall b :: Reachable(S, a, b) ==> b in closed
  {
    forall b | Reachable(S, a, b)
      ensures b in closed
    {
      var p :| PathBetween(S, p, a, b);
      for i := 0 to |p| - 1
        invariant p[i] in closed
      {
      }
    }
  }

  lemma ReachableTransitive(S: set<Channel>, a: Channel, b: Channel, c: Channel)
    requires Reachable(S, a, b) && Reachable(S, b, c)
    ensures Reachable(S, a, c)
  {
    var p :| PathBetween(S, p, a, b);
    var q :| PathBetween(S, q, b, c);
    assert PathBetween(S, p + q[1..], a, c);
  }

  lemma ReachableSymmetric(S: set<Channel>, a: Channel, b: Channel)
    requires LinksOk(S) && Reachable(S, a, b)
    ensures Reachable(S, b, a)
  {
    var p: seq<Channel> :| PathBetween(S, p, a, b);
    var q: seq<Channel> := seq(|p|, i requires 0 <= i < |p| => p[|p| - 1 - i]);
    forall i | 0 <= i < |q| - 1
      ensures q[i + 1] in q[i].qhLinks
    {
      var j := |p| - 2 - i;
      assert p[j + 1] in p[j].qhLinks && ChannelLinksOk(S, p[j]);
    }
    assert PathBetween(S, q, b, a);
  }

  /** Link components: two channels reach each other together, and then they reach the same channels. */
  lemma LinkComponents(S: set<Channel>, a: Channel, b: Channel)
    requires LinksOk(S)
    ensures Reachable(S, a, b) <==> Reachable(S, b, a)
    ensures Reachable(S, a, b) ==> forall c :: Reachable(S, a, c) <==> Reachable(S, b, c)
  {
    if Reachable(S, a, b) {
      ReachableSymmetric(S, a, b);
      forall c
        ensures Reachable(S, a, c) <==> Reachable(S, b, c)
      {
        if Reachable(S, a, c) { ReachableTransitive(S, b, a, c); }
        if Reachable(S, b, c) { ReachableTransitive(S, a, b, c); }
      }
    }
    if Reachable(S, b, a) {
      ReachableSymmetric(S, b, a);
    }
  }

  /** A channel without links is linked with itself alone. */
  lemma AloneWithoutLinks(S: set<Channel>, a: Channel)
    requires a in S && a.qhLinks == map[]
    ensures forall d :: Reachable(S, a, d) <==> d == a
  {
    ReachesSelf(S, a);
    ClosedSetHoldsReachable(S, a, {a});
  }

  // ----- The tree

  ghost predicate ParentOk(S: set<Channel>, lvl: map<Channel, nat>, c: Channel)
    requires c in S && S <= lvl.Keys
    reads S
  {
    if c.cParent == null then lvl[c] == 0
    else c.cParent in S && lvl[c] == lvl[c.cParent] + 1 && c in c.cParent.qlChannels
  }

  ghost predicate ChildrenOk(S: set<Channel>, c: Channel)
    requires c in S
    reads S
  {
    && (forall d :: d in c.qlChannels ==> d in S && d.cParent == c)
    && forall i, j :: 0 <= i < j < |c.qlChannels| ==> c.qlChannels[i] != c.qlChannels[j]
  }

  /** Parents are in S and one level up; children are listed once, with this channel as parent. */
  ghost predicate TreeOk(S: set<Channel>, lvl: map<Channel, nat>)
    reads S
  {
    && S <= lvl.Keys
    && (forall c {:trigger ParentOk(S, lvl, c)} :: c in S ==> ParentOk(S, lvl, c))
    && (forall c {:trigger ChildrenOk(S, c)} :: c in S ==> ChildrenOk(S, c))
  }

  ghost predicate NoDeeper(S: set<Channel>, lvl: map<Channel, nat>, deepest: nat) {
    forall c :: c in S && c in lvl ==> lvl[c] <= deepest
  }

  /** `d` is a proper descendant of `a`. */
  ghost predicate Below(S: set<Channel>, lvl: map<Channel, nat>, a: Channel, d: Channel)
    requires TreeOk(S, lvl) && d in S
    reads S
    decreases lvl[d]
  {
    assert ParentOk(S, lvl, d);
    d.cParent != null && (d.cParent == a || Below(S, lvl, a, d.cParent))
  }

  ghost predicate AtOrBelow(S: set<Channel>, lvl: map<Channel, nat>, a: Channel, d: Channel)
    requires TreeOk(S, lvl) && d in S
    reads S
  {
    a == d || Below(S, lvl, a, d)
  }

  /** Whatever is below a channel is at or below one of its children. */
  lemma {:induction false} BelowThroughChild(S: set<Channel>, lvl: map<Channel, nat>, a: Channel, d: Channel)
    returns (j: nat)
    requires TreeOk(S, lvl) && a in S && d in S
    ensures Below(S, lvl, a, d) ==> j < |a.qlChannels| && AtOrBelow(S, lvl, a.qlChannels[j], d)
    decreases lvl[d]
  {
    j := 0;
    assert ParentOk(S, lvl, d);
    if Below(S, lvl, a, d) {
      if d.cParent == a {
        j :| 0 <= j < |a.qlChannels| && a.qlChannels[j] == d;
      } else {
        j := BelowThroughChild(S, lvl, a, d.cParent);
      }
    }
  }

  lemma {:induction false} BelowChildIsBelow(S: set<Channel>, lvl: map<Channel, nat>, a: Channel, child: Channel, d: Channel)
    requires TreeOk(S, lvl) && a in S && child in a.qlChannels && d in S && child in S
    requires AtOrBelow(S, lvl, child, d)
    ensures Below(S, lvl, a, d)
    decreases lvl[d]
  {
    assert ChildrenOk(S, a) && ParentOk(S, lvl, d);
    if child != d && d.cParent != child {
      BelowChildIsBelow(S, lvl, a, child, d.cParent);
    }
  }

  lemma {:induction false} BelowIsDeeper(S: set<Channel>, lvl: map<Channel, nat>, a: Channel, d: Channel)
    requires TreeOk(S, lvl) && a in S && d in S && Below(S, lvl, a, d)
    ensures lvl[a] < lvl[d]
    decreases lvl[d]
  {
    assert ParentOk(S, lvl, d);
    if d.cParent != a {
      BelowIsDeeper(S, lvl, a, d.cParent);
    }
  }

  /** No channel of the subtree is deeper than the bound. */
  ghost predicate SubtreeWithin(S: set<Channel>, lvl: map<Channel, nat>, a: Channel, bound: nat)
    requires TreeOk(S, lvl)
    reads S
  {
    forall d :: d in S && AtOrBelow(S, lvl, a, d) ==> lvl[d] <= bound
  }

  lemma ChildlessHasNoneBelow(S: set<Channel>, lvl: map<Channel, nat>, a: Channel)
    requires TreeOk(S, lvl) && a in S && a.qlChannels == []
    ensures forall d :: d in S ==> !Below(S, lvl, a, d)
  {
    forall d | d in S
      ensures !Below(S, lvl, a, d)
    {
      var j := BelowThroughChild(S, lvl, a, d);
    }
  }

  lemma DeepestThroughChild(S: set<Channel>, lvl: map<Channel, nat>, a: Channel, child: Channel, depth: nat)
    returns (at: Channel)
    requires TreeOk(S, lvl) && a in S && child in a.qlChannels && child in S
    requires depth > 0 ==> exists d :: d in S && Below(S, lvl, child, d) && lvl[d] == lvl[child] + depth
    ensures at in S && Below(S, lvl, a, at) && lvl[at] == lvl[a] + depth + 1
  {
    assert ChildrenOk(S, a) && ParentOk(S, lvl, child);
    at := child;
    if depth > 0 {
      at :| at in S && Below(S, lvl, child, at) && lvl[at] == lvl[child] + depth;
    }
    BelowChildIsBelow(S, lvl, a, child, at);
  }

  ghost function ChildrenOf(S: set<Channel>, parents: set<Channel>): set<Channel>
    reads S
  {
    set d | d in S && d.cParent != null && d.cParent in parents
  }

  lemma {:induction false} BelowTransitive(S: set<Channel>, lvl: map<Channel, nat>, a: Channel, b: Channel, d: Channel)
    requires TreeOk(S, lvl) && a in S && b in S && d in S
    requires AtOrBelow(S, lvl, a, b) && Below(S, lvl, b, d)
    ensures Below(S, lvl, a, d)
    decreases lvl[d]
  {
    assert ParentOk(S, lvl, d);
    if d.cParent != b {
      BelowTransitive(S, lvl, a, b, d.cParent);
    }
  }

  ghost function Elements(cs: seq<Channel>): set<Channel> {
    set c | c in cs
  }

  lemma SplitLast(cs: seq<Channel>, k: nat)
    requires k < |cs|
    ensures cs[..k + 1] == cs[..k] + [cs[k]]
    ensures cs[..k + 1][..k] == cs[..k]
    ensures Elements(cs[..k + 1]) == Elements(cs[..k]) + {cs[k]}
  {
    assert cs[..k + 1] == cs[..k] + [cs[k]];
  }

  /** The channels of a list that have children. */
  ghost function NonLeaves(S: set<Channel>, cs: seq<Channel>): (r: seq<Channel>)
    requires forall c :: c in cs ==> c in S
    reads S
    ensures forall c :: c in r ==> c in cs && c.qlChannels != []
    ensures forall c :: c in cs && c.qlChannels != [] ==> c in r
  {
    if cs == [] then [] else
    var last := cs[|cs| - 1];
    NonLeaves(S, cs[..|cs| - 1]) + if last.qlChannels == [] then [] else [last]
  }

  ghost predicate NoDuplicates(cs: seq<Channel>) {
    forall i, j :: 0 <= i < j < |cs| ==> cs[i] != cs[j]
  }

  lemma {:induction false} NonLeavesDistinct(S: set<Channel>, cs: seq<Channel>)
    requires forall c :: c in cs ==> c in S
    requires NoDuplicates(cs)
    ensures NoDuplicates(NonLeaves(S, cs))
  {
    if cs != [] {
      NonLeavesDistinct(S, cs[..|cs| - 1]);
    }
  }

  ghost predicate Visited(S: set<Channel>, lvl: map<Channel, nat>, root: Channel, visited: set<Channel>, c: Channel)
    requires TreeOk(S, lvl) && root in S
    reads S
  {
    c in S && (c == root || (Below(S, lvl, root, c) && c.cParent in visited))
  }

  /** The state of the search below `root`: channels still to visit, each once, with its parent already
      visited; every channel found that has children is visited or still to visit. */
  ghost predicate SearchOk(S: set<Channel>, lvl: map<Channel, nat>, root: Channel, visited: set<Channel>, stack: seq<Channel>)
    requires TreeOk(S, lvl) && root in S
    reads S
  {
    && visited <= S
    && (forall c :: c in stack ==> c in S && c !in visited)
    && NoDuplicates(stack)
    && (root in visited || stack == [root])
    && (forall c {:trigger Visited(S, lvl, root, visited, c)} :: c in visited ==> Visited(S, lvl, root, visited, c))
    && (forall c {:trigger Visited(S, lvl, root, visited, c)} :: c in stack ==> Visited(S, lvl, root, visited, c))
    && (forall d :: d in ChildrenOf(S, visited) && d.qlChannels != [] ==> d in visited || d in stack)
  }

  /** The children of a channel taken from the work list have not been seen by the search. */
  lemma ChildrenAreNew(S: set<Channel>, lvl: map<Channel, nat>, root: Channel, visited: set<Channel>,
                       stack: seq<Channel>, c: Channel)
    requires TreeOk(S, lvl) && root in S
    requires SearchOk(S, lvl, root, visited, stack + [c])
    ensures forall d :: d in c.qlChannels ==> d !in visited && d != c && d !in stack
  {
    assert (stack + [c])[|stack|] == c;
    assert Visited(S, lvl, root, visited, c);
    if c != root {
      BelowIsDeeper(S, lvl, root, c);
    }
    forall d | d in c.qlChannels
      ensures d !in visited && d != c && d !in stack
    {
      assert ChildrenOk(S, c) && ParentOk(S, lvl, d);
      assert d in visited ==> Visited(S, lvl, root, visited, d);
      assert d in stack ==> d in stack + [c] && Visited(S, lvl, root, visited, d);
    }
  }

  lemma DistinctConcat(a: seq<Channel>, b: seq<Channel>)
    requires NoDuplicates(a) && NoDuplicates(b)
    requires forall c :: c in a ==> c !in b
    ensures NoDuplicates(a + b)
  {
    forall i, j | 0 <= i < j < |a + b|
      ensures (a + b)[i] != (a + b)[j]
    {
      if i < |a| <= j {
        assert a[i] in a && b[j - |a|] in b;
      }
    }
  }

  lemma StepVisits(S: set<Channel>, lvl: map<Channel, nat>, root: Channel, visited: set<Channel>,
                   stack: seq<Channel>, c: Channel)
    requires TreeOk(S, lvl) && root in S && c in S
    requires SearchOk(S, lvl, root, visited, stack + [c])
    ensures forall d :: d in visited || d == c || d in stack || d in c.qlChannels ==>
              Visited(S, lvl, root, visited + {c}, d)
  {
    var work := stack + [c];
    assert work[|stack|] == c;
    assert Visited(S, lvl, root, visited, c);
    assert ChildrenOk(S, c);
    forall d | d in visited || d == c || d in stack || d in c.qlChannels
      ensures Visited(S, lvl, root, visited + {c}, d)
    {
      if d in c.qlChannels {
        BelowChildIsBelow(S, lvl, c, d, d);
        BelowTransitive(S, lvl, root, c, d);
      } else {
        assert d in stack ==> d in work;
        assert Visited(S, lvl, root, visited, d);
      }
    }
  }

  /** Visiting the channel on top of the work list keeps the search in order. */
  lemma SearchStep(S: set<Channel>, lvl: map<Channel, nat>, root: Channel, visited: set<Channel>,
                   stack: seq<Channel>, c: Channel)
    requires TreeOk(S, lvl) && root in S
    requires SearchOk(S, lvl, root, visited, stack + [c])
    ensures c in S && c !in visited && forall d :: d in c.qlChannels ==> d in S
    ensures SearchOk(S, lvl, root, visited + {c}, stack + NonLeaves(S, c.qlChannels))
    ensures ChildrenOf(S, visited + {c}) == ChildrenOf(S, visited) + Elements(c.qlChannels)
  {
    var work := stack + [c];
    assert work[|stack|] == c;
    assert ChildrenOk(S, c);
    ChildrenAreNew(S, lvl, root, visited, stack, c);
    NonLeavesDistinct(S, c.qlChannels);
    assert forall i :: 0 <= i < |stack| ==> work[i] == stack[i];
    assert root !in visited ==> work == [root] && stack == [];
    forall d | d in S
      ensures d in ChildrenOf(S, visited + {c}) <==> d in ChildrenOf(S, visited) || d in c.qlChannels
    {
      assert ParentOk(S, lvl, d);
    }
    StepVisits(S, lvl, root, visited, stack, c);
    DistinctConcat(stack, NonLeaves(S, c.qlChannels));
  }

  lemma {:induction false} VisitedAllBelow(S: set<Channel>, lvl: map<Channel, nat>, root: Channel, visited: set<Channel>,
                                            d: Channel)
    requires TreeOk(S, lvl) && root in S && d in S
    requires SearchOk(S, lvl, root, visited, [])
    ensures d in ChildrenOf(S, visited) <==> Below(S, lvl, root, d)
    decreases lvl[d]
  {
    assert ParentOk(S, lvl, d);
    if d in ChildrenOf(S, visited) {
      assert Visited(S, lvl, root, visited, d.cParent);
    }
    if Below(S, lvl, root, d) && d.cParent != root {
      VisitedAllBelow(S, lvl, root, visited, d.cParent);
      assert ChildrenOk(S, d.cParent);
    }
  }

  class Channel {
    const iId: nat
    var cParent: Channel?
    var qlChannels: seq<Channel>
    var bInheritACL: bool
    var qlACL: seq<ChanACL>
    var qhGroups: map<string, Group>
    var qsPermLinks: set<Channel>
    var qhLinks: map<Channel, int>

    /** A new channel below `p`, or a new root; it becomes the last child of its parent. */
    constructor (id: nat, p: Channel?, ghost S: set<Channel>, ghost lvl: map<Channel, nat>)
      requires TreeOk(S, lvl) && LinksOk(S)
      requires p != null ==> p in S
      modifies if p == null then {} else {p}`qlChannels
      ensures iId == id && cParent == p && qlChannels == [] && bInheritACL
      ensures qlACL == [] && qhGroups == map[] && qhLinks == map[]
      ensures p != null ==> p.qlChannels == old(p.qlChannels) + [this]
      ensures TreeOk(S + {this}, lvl[this := if p == null then 0 else lvl[p] + 1])
      ensures LinksOk(S + {this})
    {
      iId := id;
      cParent := p;
      qlChannels, bInheritACL, qlACL, qhGroups := [], true, [], map[];
      qsPermLinks, qhLinks := {}, map[];
      new;
      if p != null {
        p.qlChannels := p.qlChannels + [this];
      }
      ghost var S' := S + {this};
      ghost var lvl' := lvl[this := if p == null then 0 else lvl[p] + 1];
      forall c | c in S'
        ensures ChannelLinksOk(S', c)
      {
        assert c != this ==> old(ChannelLinksOk(S, c));
      }
      forall c | c in S'
        ensures ParentOk(S', lvl', c)
      {
        assert c != this ==> old(ParentOk(S, lvl, c));
      }
      forall c | c in S'
        ensures ChildrenOk(S', c)
      {
        assert c != this ==> old(ChildrenOk(S, c));
      }
    }

    // ----- Links

    /** The four updates of a new link. */
    method AddLink(l: Channel)
      requires l !in qhLinks && this !in l.qhLinks
      modifies this`qsPermLinks, this`qhLinks, l`qsPermLinks, l`qhLinks
      ensures qsPermLinks == old(qsPermLinks) + {l} && l.qsPermLinks == old(l.qsPermLinks) + {this}
      ensures qhLinks == old(qhLinks)[l := if l == this then 2 else 1]
      ensures l.qhLinks == old(l.qhLinks)[this := if l == this then 2 else 1]
    {
      qsPermLinks := qsPermLinks + {l};
      qhLinks := qhLinks[l := Count(qhLinks, l) + 1];
      l.qsPermLinks := l.qsPermLinks + {this};
      l.qhLinks := l.qhLinks[this := Count(l.qhLinks, this) + 1];
    }

    /** Links two channels that are not linked. */
    method LinkNew(l: Channel, ghost S: set<Channel>)
      requires this in S && l in S && LinksOk(S) && l !in qsPermLinks
      modifies this`qsPermLinks, this`qhLinks, l`qsPermLinks, l`qhLinks
      ensures LinksOk(S)
      ensures LinkGraph(S) == WithLink(old(LinkGraph(S)), this, l)
    {
      assert ChannelLinksOk(S, this) && ChannelLinksOk(S, l);
      AddLink(l);
      forall c | c in S
        ensures ChannelLinksOk(S, c)
        ensures c.qhLinks.Keys == WithLink(old(LinkGraph(S)), this, l)[c]
      {
        assert old(ChannelLinksOk(S, c));
      }
    }

    method Link(l: Channel, ghost S: set<Channel>)
      requires this in S && l in S && LinksOk(S)
      modifies this`qsPermLinks, this`qhLinks, l`qsPermLinks, l`qhLinks
      ensures LinksOk(S)
      ensures LinkGraph(S) == WithLink(old(LinkGraph(S)), this, l)
      ensures forall c, d :: c in S && d in S ==>
                (d in c.qhLinks <==> old(d in c.qhLinks) || (c == this && d == l) || (c == l && d == this))
      ensures Reachable(S, this, l) && Reachable(S, l, this)
    {
      assert ChannelLinksOk(S, this);
      if l in qsPermLinks {
        AlreadyLinked(S, this, l);
      } else {
        LinkNew(l, S);
      }
      assert forall c :: c in S ==> c.qhLinks.Keys == LinkGraph(S)[c];
      LinkedReach(S, this, l);
    }

    method UnlinkOne(l: Channel, ghost S: set<Channel>)
      requires this in S && l in S && LinksOk(S)
      modifies this`qsPermLinks, this`qhLinks, l`qsPermLinks, l`qhLinks
      ensures LinksOk(S)
      ensures LinkGraph(S) == WithoutLink(old(LinkGraph(S)), this, l)
      ensures qhLinks.Keys == old(qhLinks.Keys) - {l}
    {
      assert ChannelLinksOk(S, this) && ChannelLinksOk(S, l);
      qsPermLinks := qsPermLinks - {l};
      qhLinks := qhLinks - {l};
      l.qsPermLinks := l.qsPermLinks - {this};
      l.qhLinks := l.qhLinks - {this};
      forall c | c in S
        ensures ChannelLinksOk(S, c)
        ensures c.qhLinks.Keys == WithoutLink(old(LinkGraph(S)), this, l)[c]
      {
        assert old(ChannelLinksOk(S, c));
        assert c != this && c != l ==> unchanged(c);
      }
    }

    /** Removes every link of this channel. */
    method UnlinkEach(ghost S: set<Channel>)
      requires this in S && LinksOk(S)
      modifies S`qsPermLinks, S`qhLinks
      ensures LinksOk(S)
      ensures LinkGraph(S) == Isolated(old(LinkGraph(S)), this)
      ensures qhLinks == map[]
    {
      var keys := qhLinks.Keys;
      while keys != {}
        invariant keys == qhLinks.Keys && LinksOk(S)
        invariant Isolated(LinkGraph(S), this) == Isolated(old(LinkGraph(S)), this)
        decreases |keys|
      {
        assert ChannelLinksOk(S, this);
        var c :| c in keys;
        ghost var before := LinkGraph(S);
        UnlinkOne(c, S);
        IsolatedAfterUnlink(before, this, c);
        keys := keys - {c};
      }
      NoLinksMeansIsolated(S, this);
    }

    /** Removes one link, or with null every link of this channel. */
    method Unlink(l: Channel?, ghost S: set<Channel>)
      requires this in S && LinksOk(S) && (l != null ==> l in S)
      modifies S`qsPermLinks, S`qhLinks
      ensures LinksOk(S)
      ensures LinkGraph(S) == if l != null then WithoutLink(old(LinkGraph(S)), this, l)
                              else Isolated(old(LinkGraph(S)), this)
      ensures l == null ==> qhLinks == map[]
      ensures forall c, d :: c in S && d in S ==>
                (d in c.qhLinks <==>
                 && old(d in c.qhLinks)
                 && !(if l == null then c == this || d == this else (c == this && d == l) || (c == l && d == this)))
    {
      if l != null {
        UnlinkOne(l, S);
      } else {
        UnlinkEach(S);
      }
      assert forall c :: c in S ==> c.qhLinks.Keys == LinkGraph(S)[c];
    }

    /** Every channel that can be reached by links, this one included. */
    method AllLinks(ghost S: set<Channel>) returns (seen: set<Channel>)
      requires this in S && LinksOk(S)
      ensures forall d :: d in seen <==> Reachable(S, this, d)
    {
      seen := {this};
      ReachesSelf(S, this);
      if qhLinks == map[] {
        ClosedSetHoldsReachable(S, this, seen);
        return;
      }
      var stack := [this];
      while stack != []
        invariant this in seen && seen <= S
        invariant forall c :: c in seen ==> Reachable(S, this, c)
        invariant forall c :: c in stack ==> c in seen
        invariant forall c :: c in seen && c !in stack ==> c.qhLinks.Keys <= seen
        decreases S - seen, |stack|
      {
        var lnk := stack[|stack| - 1];
        assert stack == stack[..|stack| - 1] + [lnk];
        assert ChannelLinksOk(S, lnk);
        forall l | l in lnk.qhLinks.Keys
          ensures Reachable(S, this, l)
        {
          ReachesNeighbour(S, this, lnk, l);
        }
        seen, stack := PushUnseen(lnk.qhLinks.Keys, seen, stack[..|stack| - 1]);
      }
      ClosedSetHoldsReachable(S, this, seen);
    }

    /** The inner loop of AllLinks: notes and stacks the channels not seen before. */
    static method PushUnseen(keys: set<Channel>, seen0: set<Channel>, stack0: seq<Channel>)
      returns (seen: set<Channel>, stack: seq<Channel>)
      ensures seen == seen0 + keys
      ensures forall c :: c in stack <==> c in stack0 || c in keys - seen0
      ensures seen == seen0 ==> stack == stack0
    {
      seen, stack := seen0, stack0;
      var todo := keys;
      while todo != {}
        invariant todo <= keys
        invariant seen == seen0 + (keys - todo)
        invariant forall c :: c in stack <==> c in stack0 || (c in keys - todo && c !in seen0)
        invariant seen == seen0 ==> stack == stack0
        decreases |todo|
      {
        var l :| l in todo;
        todo := todo - {l};
        if l !in seen {
          seen := seen + {l};
          stack := stack + [l];
        }
      }
    }

    // ----- The tree

    /** The distance from the root. */
    method GetLevel(ghost S: set<Channel>, ghost lvl: map<Channel, nat>) returns (i: nat)
      requires this in S && TreeOk(S, lvl)
      ensures i == lvl[this]
    {
      i := 0;
      var c := this;
      while c.cParent != null
        invariant c in S && i + lvl[c] == lvl[this]
        decreases lvl[c]
      {
        assert ParentOk(S, lvl, c);
        c := c.cParent;
        i := i + 1;
      }
      assert ParentOk(S, lvl, c);
    }

    /** The height of the subtree: the largest level difference to a channel below this one. */
    method GetDepth(ghost S: set<Channel>, ghost lvl: map<Channel, nat>, ghost deepest: nat) returns (result: nat)
      requires this in S && TreeOk(S, lvl) && NoDeeper(S, lvl, deepest)
      ensures forall d :: d in S && Below(S, lvl, this, d) ==> lvl[d] <= lvl[this] + result
      ensures result > 0 ==> exists d :: d in S && Below(S, lvl, this, d) && lvl[d] == lvl[this] + result
      decreases deepest - lvl[this]
    {
      result := 0;
      if qlChannels == [] {
        ChildlessHasNoneBelow(S, lvl, this);
        return;
      }
      ghost var at := this;
      for k := 0 to |qlChannels|
        invariant forall j :: 0 <= j < k ==> SubtreeWithin(S, lvl, qlChannels[j], lvl[this] + result)
        invariant result > 0 ==> at in S && Below(S, lvl, this, at) && lvl[at] == lvl[this] + result
      {
        var child := qlChannels[k];
        assert lvl[child] == lvl[this] + 1 <= deepest by {
          assert ChildrenOk(S, this) && child in qlChannels && ParentOk(S, lvl, child);
        }
        var depth := child.GetDepth(S, lvl, deepest);
        if result < depth + 1 {
          at := DeepestThroughChild(S, lvl, this, child, depth);
          result := depth + 1;
        }
        forall d | d in S && AtOrBelow(S, lvl, child, d)
          ensures lvl[d] <= lvl[this] + result
        {
        }
      }
      forall d | d in S && Below(S, lvl, this, d)
        ensures lvl[d] <= lvl[this] + result
      {
        var j := BelowThroughChild(S, lvl, this, d);
        assert SubtreeWithin(S, lvl, qlChannels[j], lvl[this] + result);
      }
    }

    /** The inner loop of AllChildren: notes the children and stacks those that have children. */
    method ListChildren(seen0: set<Channel>, stack0: seq<Channel>, ghost S: set<Channel>)
      returns (seen: set<Channel>, stack: seq<Channel>)
      requires forall c :: c in qlChannels ==> c in S
      ensures seen == seen0 + Elements(qlChannels)
      ensures stack == stack0 + NonLeaves(S, qlChannels)
    {
      seen, stack := seen0, stack0;
      for k := 0 to |qlChannels|
        invariant seen == seen0 + Elements(qlChannels[..k])
        invariant stack == stack0 + NonLeaves(S, qlChannels[..k])
      {
        var chld := qlChannels[k];
        SplitLast(qlChannels, k);
        seen := seen + {chld};
        if chld.qlChannels != [] {
          stack := stack + [chld];
        }
      }
      assert qlChannels[..|qlChannels|] == qlChannels;
    }

    /** Exactly the channels below this one. */
    method AllChildren(ghost S: set<Channel>, ghost lvl: map<Channel, nat>) returns (seen: set<Channel>)
      requires this in S && TreeOk(S, lvl)
      ensures forall d :: d in seen <==> d in S && Below(S, lvl, this, d)
    {
      seen := {};
      if qlChannels == [] {
        ChildlessHasNoneBelow(S, lvl, this);
      } else {
        var stack := [this];
        ghost var visited: set<Channel> := {};
        while stack != []
          invariant SearchOk(S, lvl, this, visited, stack)
          invariant seen == ChildrenOf(S, visited)
          decreases S - visited
        {
          var c := stack[|stack| - 1];
          ghost var rest := stack[..|stack| - 1];
          assert stack == rest + [c];
          SearchStep(S, lvl, this, visited, rest, c);
          stack := stack[..|stack| - 1];
          seen, stack := c.ListChildren(seen, stack, S);
          visited := visited + {c};
        }
        forall d | d in S
          ensures d in seen <==> Below(S, lvl, this, d)
        {
          VisitedAllBelow(S, lvl, this, visited, d);
        }
      }
    }
  }

  /** Every run of link operations keeps the graph consistent and gives the expected one. */
  method RunLinkOps(ops: seq<LinkOp>, ghost S: set<Channel>)
    requires LinksOk(S)
    requires forall op :: op in ops ==> OpIn(op, S)
    modifies S`qsPermLinks, S`qhLinks
    ensures LinksOk(S)
    ensures LinkGraph(S) == ApplyOps(old(LinkGraph(S)), ops)
    ensures forall c, d :: c in S && d in S ==> (d in c.qhLinks <==> LinkedAfter(ops, c, d, old(d in c.qhLinks)))
  {
    for k := 0 to |ops|
      invariant LinksOk(S)
      invariant LinkGraph(S) == ApplyOps(old(LinkGraph(S)), ops[..k])
    {
      assert ops[..k + 1][..k] == ops[..k];
      assert OpIn(ops[k], S);
      match ops[k] {
        case LinkThem(a, b) => a.Link(b, S);
        case UnlinkThem(a, b) => a.Unlink(b, S);
        case UnlinkAll(a) => a.Unlink(null, S);
      }
    }
    assert ops[..|ops|] == ops;
    forall c, d | c in S && d in S
      ensures d in c.qhLinks <==> LinkedAfter(ops, c, d, old(d in c.qhLinks))
    {
      LastOperationDecides(old(LinkGraph(S)), ops, c, d);
      assert c.qhLinks.Keys == LinkGraph(S)[c];
    }
  }
}
