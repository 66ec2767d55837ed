/** Root paths: what the permission code sees of the channel tree when it follows parents from a
    channel.  A path is a sequence of values, root first, so that everything said about it is said
    without the heap. */
module Paths {
  import opened ServerTypes
  import opened Channels

  /** A channel as it was when the path was taken. */
  datatype Node = Node(
    ref: Channel,
    iId: nat,
    bInheritACL: bool,
    qlACL: seq<ChanACL>,
    qhGroups: map<string, Group>)

  type Path = seq<Node>

  ghost function NodeOf(c: Channel): Node
    reads c
  {
    Node(c, c.iId, c.bInheritACL, c.qlACL, c.qhGroups)
  }

  ghost function RootPath(S: set<Channel>, lvl: map<Channel, nat>, c: Channel): (p: Path)
    requires TreeOk(S, lvl) && c in S
    reads S
    ensures |p| == lvl[c] + 1
    ensures p[|p| - 1] == NodeOf(c)
    decreases lvl[c]
  {
    assert ParentOk(S, lvl, c);
    if c.cParent == null then [NodeOf(c)] else RootPath(S, lvl, c.cParent) + [NodeOf(c)]
  }

  /** The path of a channel that may be missing. */
  ghost function PathOf(S: set<Channel>, lvl: map<Channel, nat>, c: Channel?): Path
    requires TreeOk(S, lvl) && (c != null ==> c in S)
    reads S
  {
    if c == null then [] else RootPath(S, lvl, c)
  }

  lemma ParentPath(S: set<Channel>, lvl: map<Channel, nat>, c: Channel)
    requires TreeOk(S, lvl) && c in S
    ensures c.cParent != null ==> c.cParent in S && lvl[c.cParent] < lvl[c]
    ensures RootPath(S, lvl, c) == PathOf(S, lvl, c.cParent) + [NodeOf(c)]
  {
    assert ParentOk(S, lvl, c);
  }

  /** Every node of a root path stands at its own level, at or above the end of the path, and the path
      up to it is its own root path. */
  lemma {:induction false} PathPrefix(S: set<Channel>, lvl: map<Channel, nat>, c: Channel, k: nat)
    requires TreeOk(S, lvl) && c in S && k <= lvl[c]
    ensures var p := RootPath(S, lvl, c);
            && p[k].ref in S && lvl[p[k].ref] == k
            && p[k] == NodeOf(p[k].ref)
            && AtOrBelow(S, lvl, p[k].ref, c)
            && RootPath(S, lvl, p[k].ref) == p[..k + 1]
    decreases lvl[c]
  {
    ParentPath(S, lvl, c);
    var p := RootPath(S, lvl, c);
    if k == lvl[c] {
      assert p[..k + 1] == p;
    } else {
      assert ParentOk(S, lvl, c);
      PathPrefix(S, lvl, c.cParent, k);
      assert p[..k + 1] == RootPath(S, lvl, c.cParent)[..k + 1];
    }
  }

  /** A channel at or above `c` is on its root path, at the place of its level. */
  lemma {:induction false} AncestorOnPath(S: set<Channel>, lvl: map<Channel, nat>, a: Channel, c: Channel)
    requires TreeOk(S, lvl) && a in S && c in S && AtOrBelow(S, lvl, a, c)
    ensures lvl[a] <= lvl[c] && RootPath(S, lvl, c)[lvl[a]].ref == a
    decreases lvl[c]
  {
    if a != c {
      ParentPath(S, lvl, c);
      assert ParentOk(S, lvl, c);
      AncestorOnPath(S, lvl, a, c.cParent);
    }
  }

  // ----- Positions of channels on a path

  /** QList::indexOf: the first position, or -1. */
  function IndexOf(p: Path, c: Channel?): (i: int)
    ensures -1 <= i < |p|
    ensures i >= 0 ==> p[i].ref == c && forall j :: 0 <= j < i ==> p[j].ref != c
    ensures i == -1 ==> forall j :: 0 <= j < |p| ==> p[j].ref != c
  {
    if p == [] then -1
    else if p[0].ref == c then 0
    else
      var i := IndexOf(p[1..], c);
      assert i == -1 ==> forall j :: 1 <= j < |p| ==> p[j].ref == p[1..][j - 1].ref;
      if i == -1 then -1 else i + 1
  }

  lemma IndexIsLevel(S: set<Channel>, lvl: map<Channel, nat>, a: Channel, c: Channel)
    requires TreeOk(S, lvl) && a in S && c in S
    ensures IndexOf(RootPath(S, lvl, c), a) == if AtOrBelow(S, lvl, a, c) then lvl[a] else -1
  {
    var p := RootPath(S, lvl, c);
    var i := IndexOf(p, a);
    if i >= 0 {
      PathPrefix(S, lvl, c, i);
    }
    if AtOrBelow(S, lvl, a, c) {
      AncestorOnPath(S, lvl, a, c);
    }
  }

  /** A list of channels as the source assembles it by prepending parents. */
  ghost predicate ListsPath(cs: seq<Channel>, p: Path) {
    |cs| == |p| && forall i :: 0 <= i < |p| ==> cs[i] == p[i].ref
  }

  /** Stepping from a channel to its parent takes the last node off the path. */
  lemma StepUp(S: set<Channel>, lvl: map<Channel, nat>, c: Channel, path: Path, m: nat)
    requires TreeOk(S, lvl) && c in S && m <= |path| && RootPath(S, lvl, c) == path[..m]
    ensures m > 0 && path[m - 1] == NodeOf(c)
    ensures c.cParent != null ==> c.cParent in S
    ensures PathOf(S, lvl, c.cParent) == path[..m - 1]
  {
    ParentPath(S, lvl, c);
    assert path[m - 1] == path[..m][m - 1];
    assert path[..m - 1] == path[..m][..m - 1];
  }

  /** The hierarchy of a channel, root first; empty for a user without a channel. */
  method Hierarchy(start: Channel?, ghost S: set<Channel>, ghost lvl: map<Channel, nat>) returns (cs: seq<Channel>)
    requires TreeOk(S, lvl) && (start != null ==> start in S)
    ensures ListsPath(cs, PathOf(S, lvl, start))
  {
    cs := [];
    var channel := start;
    ghost var path := PathOf(S, lvl, start);
    ghost var m: nat := |path|;
    while channel != null
      invariant channel != null ==> channel in S
      invariant m + |cs| == |path| && PathOf(S, lvl, channel) == path[..m]
      invariant forall i :: 0 <= i < |cs| ==> cs[i] == path[m + i].ref
      decreases m
    {
      StepUp(S, lvl, channel, path, m);
      cs := [channel] + cs;
      channel := channel.cParent;
      m := m - 1;
    }
  }

  /** A channel and its parents pushed on a stack, so that the root comes off first. */
  method StackToRoot(chan: Channel, ghost S: set<Channel>, ghost lvl: map<Channel, nat>) returns (stack: seq<Channel>)
    requires TreeOk(S, lvl) && chan in S
    ensures |stack| == lvl[chan] + 1
    ensures forall i :: 0 <= i < |stack| ==> stack[i] == RootPath(S, lvl, chan)[lvl[chan] - i].ref
  {
    stack := [];
    var ch: Channel? := chan;
    ghost var path := RootPath(S, lvl, chan);
    ghost var m: nat := |path|;
    assert path[..m] == path;
    while ch != null
      invariant ch != null ==> ch in S
      invariant m + |stack| == |path| && PathOf(S, lvl, ch) == path[..m]
      invariant forall i :: 0 <= i < |stack| ==> stack[i] == path[lvl[chan] - i].ref
      decreases m
    {
      StepUp(S, lvl, ch, path, m);
      stack := stack + [ch];
      ch := ch.cParent;
      m := m - 1;
    }
  }

  /** QList::indexOf on the assembled list. */
  method FindChannel(cs: seq<Channel>, c: Channel?, ghost p: Path) returns (i: int)
    requires ListsPath(cs, p)
    ensures i == IndexOf(p, c)
  {
    i := 0;
    while i < |cs|
      invariant 0 <= i <= |cs|
      invariant forall j :: 0 <= j < i ==> cs[j] != c
    {
      if cs[i] == c {
        return;
      }
      i := i + 1;
    }
    i := -1;
  }
}
