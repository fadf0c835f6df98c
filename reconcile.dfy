/** Reconciliation of a container's children with its host node's child
    nodes after out-of-band edits: which mutation batches trigger it, the
    cursor merge it performs, and what that merge yields. */
module Reconcile {
  import opened Blots
  import opened Registry

  datatype MutationType = ChildList | Attributes | CharacterData

  /** A mutation record: the host node it targets and what changed there. */
  datatype Mutation = Mutation(target: NodeId, kind: MutationType)

  /** `mutations.some(m => m.target === domNode && m.type === 'childList')`. */
  function Triggered(ms: seq<Mutation>, dom: NodeId): (r: bool)
    ensures r <==> exists i :: 0 <= i < |ms| && ms[i].target == dom && ms[i].kind == ChildList
  {
    if ms == [] then false
    else (ms[0].target == dom && ms[0].kind == ChildList) || Triggered(ms[1..], dom)
  }

  /** Prefix a successful result; a failure stays a failure. */
  function Then(out: seq<Blot>, r: Option<seq<Blot>>): Option<seq<Blot>>
  {
    match r
    case None => None
    case Some(s) => Some(out + s)
  }

  /** The trailing loop: a blot for every host node left after the cursor,
      appended in host order; it fails at the first node that cannot be created. */
  function Trailing(hs: seq<NodeId>, reg: Oracle): Option<seq<Blot>>
  {
    if hs == [] then Some([])
    else match Resolve(reg, hs[0])
      case None => None
      case Some(b) => Then([b], Trailing(hs[1..], reg))
  }

  /** The children after the cursor walk, given the children `cs` not yet
      visited, the host nodes `hs` from the cursor on, and all host child
      nodes `all` (a child whose host node is in `all` is still attached).
      A child that matches the cursor is kept and both advance. A child that
      is still attached but not at the cursor means the cursor's node comes
      first: a blot is resolved for it and inserted before the child, and a
      later child that owns that node leaves its old place. With the cursor
      at the end there is no node to resolve and the merge fails. A detached
      child is removed without moving the cursor. */
  function Merge(cs: seq<Blot>, hs: seq<NodeId>, all: seq<NodeId>, reg: Oracle): Option<seq<Blot>>
    decreases |cs| + |hs|
  {
    if cs == [] then Trailing(hs, reg)
    else if hs != [] && hs[0] == cs[0].dom then Then([cs[0]], Merge(cs[1..], hs[1..], all, reg))
    else if cs[0].dom in all then
      if hs == [] then None
      else match Resolve(reg, hs[0])
        case None => None
        case Some(b) => Then([b], Merge(Without(cs, hs[0]), hs[1..], all, reg))
    else Merge(cs[1..], hs, all, reg)
  }

  /** The children without the ones that own host node `n`: the blot
      re-adopted for `n` is taken out of its old place among the children
      (`blot.parent.children.remove(blot)`). */
  function Without(cs: seq<Blot>, n: NodeId): (r: seq<Blot>)
    ensures |r| <= |cs|
  {
    if cs == [] then []
    else (if cs[0].dom == n then [] else [cs[0]]) + Without(cs[1..], n)
  }

  /** `Without` keeps exactly the children that do not own `n`. */
  lemma {:induction false} WithoutMembers(cs: seq<Blot>, n: NodeId)
    ensures forall b :: b in Without(cs, n) <==> b in cs && b.dom != n
  {
    if cs != [] {
      WithoutMembers(cs[1..], n);
      assert cs == [cs[0]] + cs[1..];
    }
  }

  /** Whatever the merge produces owns the host nodes from the cursor on, in
      host order. */
  lemma {:induction false} MergeFollowsHost(cs: seq<Blot>, hs: seq<NodeId>, all: seq<NodeId>, reg: Oracle)
    requires Faithful(reg)
    ensures Merge(cs, hs, all, reg).Some? ==> Doms(Merge(cs, hs, all, reg).value) == hs
    decreases |cs| + |hs|
  {
    if cs == [] {
      TrailingFollowsHost(hs, reg);
    } else if hs != [] && hs[0] == cs[0].dom {
      MergeFollowsHost(cs[1..], hs[1..], all, reg);
      if Merge(cs[1..], hs[1..], all, reg).Some? {
        DomsAppend([cs[0]], Merge(cs[1..], hs[1..], all, reg).value);
      }
    } else if cs[0].dom in all {
      if hs != [] && Resolve(reg, hs[0]).Some? {
        var rest := Without(cs, hs[0]);
        MergeFollowsHost(rest, hs[1..], all, reg);
        if Merge(rest, hs[1..], all, reg).Some? {
          DomsAppend([Resolve(reg, hs[0]).value], Merge(rest, hs[1..], all, reg).value);
        }
      }
    } else {
      MergeFollowsHost(cs[1..], hs, all, reg);
    }
  }

  lemma {:induction false} TrailingFollowsHost(hs: seq<NodeId>, reg: Oracle)
    requires Faithful(reg)
    ensures Trailing(hs, reg).Some? ==> Doms(Trailing(hs, reg).value) == hs
  {
    if hs != [] && Resolve(reg, hs[0]).Some? {
      TrailingFollowsHost(hs[1..], reg);
      if Trailing(hs[1..], reg).Some? {
        DomsAppend([Resolve(reg, hs[0]).value], Trailing(hs[1..], reg).value);
      }
    }
  }

  /** Children that already mirror the host nodes survive the merge unchanged. */
  lemma {:induction false} MergeIdempotent(cs: seq<Blot>, all: seq<NodeId>, reg: Oracle)
    ensures Merge(cs, Doms(cs), all, reg) == Some(cs)
    decreases |cs|
  {
    if cs != [] {
      assert Doms(cs)[0] == cs[0].dom;
      assert Doms(cs)[1..] == Doms(cs[1..]);
      MergeIdempotent(cs[1..], all, reg);
      assert [cs[0]] + cs[1..] == cs;
    }
  }

  /** A second reconciliation against the same host nodes changes nothing. */
  lemma MergeTwice(cs: seq<Blot>, host: seq<NodeId>, reg: Oracle)
    requires Faithful(reg)
    ensures Merge(cs, host, host, reg).Some? ==>
      var r := Merge(cs, host, host, reg).value;
      Merge(r, host, host, reg) == Some(r)
  {
    if Merge(cs, host, host, reg).Some? {
      var r := Merge(cs, host, host, reg).value;
      MergeFollowsHost(cs, host, host, reg);
      MergeIdempotent(r, host, reg);
    }
  }

  ghost predicate Distinct(xs: seq<NodeId>)
  {
    forall i, j :: 0 <= i < j < |xs| ==> xs[i] != xs[j]
  }

  /** With distinct host nodes, no later child owns the first child's node. */
  lemma HeadUnique(cs: seq<Blot>)
    requires cs != [] && Distinct(Doms(cs))
    ensures Distinct(Doms(cs[1..]))
    ensures forall b :: b in cs[1..] ==> b.dom != cs[0].dom
  {
    var d := Doms(cs);
    assert Doms(cs[1..]) == d[1..];
    forall b | b in cs[1..]
      ensures b.dom != cs[0].dom
    {
      var j :| 1 <= j < |cs| && cs[j] == b;
      assert d[j] == b.dom && d[0] == cs[0].dom;
    }
  }

  /** Taking out the owners of one host node keeps the host nodes distinct. */
  lemma {:induction false} WithoutDistinct(cs: seq<Blot>, n: NodeId)
    requires Distinct(Doms(cs))
    ensures Distinct(Doms(Without(cs, n)))
  {
    if cs != [] {
      HeadUnique(cs);
      WithoutDistinct(cs[1..], n);
      WithoutMembers(cs[1..], n);
      var w := Without(cs[1..], n);
      if cs[0].dom != n {
        assert Without(cs, n) == [cs[0]] + w;
        ConsDistinct(cs[0], w);
      } else {
        assert Without(cs, n) == [] + w;
      }
    }
  }

  /** A blot whose node no blot of `w` owns can go in front of `w`. */
  lemma ConsDistinct(x: Blot, w: seq<Blot>)
    requires Distinct(Doms(w)) && forall b :: b in w ==> b.dom != x.dom
    ensures Distinct(Doms([x] + w))
  {
    var d := Doms([x] + w);
    assert d == [x.dom] + Doms(w);
    forall i, j | 0 <= i < j < |d|
      ensures d[i] != d[j]
    {
      assert w[j - 1] in w;
    }
  }

  /** The first child that owns host node `n`. */
  function ChildFor(cs: seq<Blot>, n: NodeId): (b: Blot)
    requires n in Doms(cs)
    ensures b in cs && b.dom == n
  {
    if cs[0].dom == n then cs[0]
    else
      assert Doms(cs) == [cs[0].dom] + Doms(cs[1..]);
      ChildFor(cs[1..], n)
  }

  /** Taking out the owners of `n` keeps the owner of any other host node `m`. */
  lemma WithoutKeepsOwner(cs: seq<Blot>, n: NodeId, m: NodeId)
    requires m != n && m in Doms(cs)
    ensures m in Doms(Without(cs, n))
  {
    var w := Without(cs, n);
    WithoutMembers(cs, n);
    var x := ChildFor(cs, m);
    assert x in w;
    var k :| 0 <= k < |w| && w[k] == x;
    assert Doms(w)[k] == m;
  }

  /** Among children with distinct host nodes, a host node has one owner. */
  lemma SameOwner(cs: seq<Blot>, x: Blot, y: Blot)
    requires Distinct(Doms(cs)) && x in cs && y in cs && x.dom == y.dom
    ensures x == y
  {
    var i :| 0 <= i < |cs| && cs[i] == x;
    var j :| 0 <= j < |cs| && cs[j] == y;
    assert Doms(cs)[i] == Doms(cs)[j];
  }

  /** Taking out the owners of `n` gives no new host node an owner. */
  lemma WithoutNoNewOwner(cs: seq<Blot>, n: NodeId, m: NodeId)
    requires m in Doms(Without(cs, n))
    ensures m in Doms(cs)
  {
    var w := Without(cs, n);
    WithoutMembers(cs, n);
    var k :| 0 <= k < |w| && Doms(w)[k] == m;
    assert w[k] in w;
    var j :| 0 <= j < |cs| && cs[j] == w[k];
    assert Doms(cs)[j] == m;
  }

  /** Reference result of reconciliation: one blot per host node in host
      order, the existing child for a node that already has one and a blot
      from the registry for a new node; failure if a new node cannot be
      created. */
  function Rebuilt(cs: seq<Blot>, hs: seq<NodeId>, reg: Oracle): Option<seq<Blot>>
  {
    if hs == [] then Some([])
    else
      var b := if hs[0] in Doms(cs) then Some(ChildFor(cs, hs[0])) else Resolve(reg, hs[0]);
      match b
      case None => None
      case Some(x) => Then([x], Rebuilt(cs, hs[1..], reg))
  }

  lemma {:induction false} RebuiltNoChildren(hs: seq<NodeId>, reg: Oracle)
    ensures Rebuilt([], hs, reg) == Trailing(hs, reg)
  {
    if hs != [] {
      RebuiltNoChildren(hs[1..], reg);
    }
  }

  /** Dropping the first child does not matter when its host node is not among `hs`. */
  lemma {:induction false} RebuiltDrop(cs: seq<Blot>, hs: seq<NodeId>, reg: Oracle)
    requires cs != [] && cs[0].dom !in hs
    ensures Rebuilt(cs, hs, reg) == Rebuilt(cs[1..], hs, reg)
  {
    assert Doms(cs) == [cs[0].dom] + Doms(cs[1..]);
    if hs != [] {
      RebuiltDrop(cs, hs[1..], reg);
    }
  }

  /** Taking out the owners of a host node not among `hs` does not matter either. */
  lemma {:induction false} RebuiltWithout(cs: seq<Blot>, hs: seq<NodeId>, n: NodeId, reg: Oracle)
    requires n !in hs && Distinct(Doms(cs))
    ensures Rebuilt(cs, hs, reg) == Rebuilt(Without(cs, n), hs, reg)
  {
    if hs != [] {
      if hs[0] in Doms(cs) {
        var w := Without(cs, n);
        WithoutKeepsOwner(cs, n, hs[0]);
        WithoutMembers(cs, n);
        SameOwner(cs, ChildFor(w, hs[0]), ChildFor(cs, hs[0]));
      }
      if hs[0] in Doms(Without(cs, n)) {
        WithoutNoNewOwner(cs, n, hs[0]);
      }
      RebuiltWithout(cs, hs[1..], n, reg);
    }
  }

  /** The registry answers each child for its own host node, as
      `Registry.find` does for a blot attached to its node. */
  ghost predicate Finds(reg: Oracle, cs: seq<Blot>)
  {
    forall b :: b in cs ==> Resolve(reg, b.dom) == Some(b)
  }

  /** What holds of the children `cs` not yet visited and the host nodes
      `hs` from the cursor on, throughout an update: the host nodes are
      distinct, and so are the children's; every host node is attached;
      every attached child's node is still ahead of the cursor; and the
      registry finds every child. */
  ghost predicate Orderly(cs: seq<Blot>, hs: seq<NodeId>, all: seq<NodeId>, reg: Oracle)
  {
    Distinct(hs) && Distinct(Doms(cs)) && (forall n :: n in hs ==> n in all) &&
    (forall b :: b in cs && b.dom in all ==> b.dom in hs) && Finds(reg, cs)
  }

  /** After a match, the rest of the children and host nodes are still orderly. */
  lemma OrderlyMatch(cs: seq<Blot>, hs: seq<NodeId>, all: seq<NodeId>, reg: Oracle)
    requires Orderly(cs, hs, all, reg) && cs != [] && hs != [] && hs[0] == cs[0].dom
    ensures cs[0].dom !in hs[1..] && Orderly(cs[1..], hs[1..], all, reg)
  {
    HeadUnique(cs);
    assert hs == [hs[0]] + hs[1..];
    forall b | b in cs[1..] && b.dom in all
      ensures b.dom in hs[1..]
    {
      assert b in cs;
    }
  }

  /** An attached child not at the cursor: its node is still ahead, so
      there is a host node at the cursor, and it comes up only once. */
  lemma AttachedAhead(cs: seq<Blot>, hs: seq<NodeId>, all: seq<NodeId>, reg: Oracle)
    requires Orderly(cs, hs, all, reg) && cs != [] && cs[0].dom in all
    requires hs != [] ==> hs[0] != cs[0].dom
    ensures hs != [] && hs[0] !in hs[1..]
  {
    assert cs[0] in cs;
    assert hs == [hs[0]] + hs[1..];
  }

  /** A registry that finds every child resolves a child's node to that child. */
  lemma FindsChild(cs: seq<Blot>, n: NodeId, reg: Oracle)
    requires Finds(reg, cs) && n in Doms(cs)
    ensures Resolve(reg, n) == Some(ChildFor(cs, n))
  {
  }

  /** Once the owner of the cursor's node is taken out, the remaining
      children are orderly against the host nodes after the cursor. */
  lemma OrderlyInsert(cs: seq<Blot>, hs: seq<NodeId>, all: seq<NodeId>, reg: Oracle)
    requires Orderly(cs, hs, all, reg) && cs != [] && cs[0].dom in all
    requires hs != [] && hs[0] != cs[0].dom
    ensures Orderly(Without(cs, hs[0]), hs[1..], all, reg)
  {
    var n := hs[0];
    var tail := hs[1..];
    var w := Without(cs, n);
    WithoutDistinct(cs, n);
    WithoutMembers(cs, n);
    assert Distinct(tail);
    assert forall m :: m in tail ==> m in hs;
    forall b | b in w && b.dom in all
      ensures b.dom in tail
    {
      assert b in cs && b.dom != n && b.dom in hs;
      var k :| 0 <= k < |hs| && hs[k] == b.dom;
      assert tail[k - 1] == b.dom;
    }
    assert Finds(reg, w);
  }

  /** A detached child: its node is not among the host nodes, and the rest of
      the children stay orderly. */
  lemma OrderlyDrop(cs: seq<Blot>, hs: seq<NodeId>, all: seq<NodeId>, reg: Oracle)
    requires Orderly(cs, hs, all, reg) && cs != [] && cs[0].dom !in all
    ensures cs[0].dom !in hs && Orderly(cs[1..], hs, all, reg)
  {
    HeadUnique(cs);
  }

  /** From any point of the walk where the children and host nodes are
      orderly, the cursor merge yields exactly the reference result. */
  lemma {:induction false} MergeIsRebuilt(cs: seq<Blot>, hs: seq<NodeId>, all: seq<NodeId>, reg: Oracle)
    requires Orderly(cs, hs, all, reg)
    ensures Merge(cs, hs, all, reg) == Rebuilt(cs, hs, reg)
    decreases |cs| + |hs|
  {
    if cs == [] {
      RebuiltNoChildren(hs, reg);
    } else if hs != [] && hs[0] == cs[0].dom {
      OrderlyMatch(cs, hs, all, reg);
      MergeIsRebuilt(cs[1..], hs[1..], all, reg);
      RebuiltDrop(cs, hs[1..], reg);
    } else if cs[0].dom in all {
      AttachedAhead(cs, hs, all, reg);
      if hs[0] in Doms(cs) {
        FindsChild(cs, hs[0], reg);
      }
      OrderlyInsert(cs, hs, all, reg);
      MergeIsRebuilt(Without(cs, hs[0]), hs[1..], all, reg);
      RebuiltWithout(cs, hs[1..], hs[0], reg);
    } else {
      OrderlyDrop(cs, hs, all, reg);
      MergeIsRebuilt(cs[1..], hs, all, reg);
      RebuiltDrop(cs, hs, reg);
    }
  }

  /** `update` against distinct host child nodes, with children that own
      distinct nodes the registry finds them by, yields exactly the reference
      result, whether the host edit inserted, removed or reordered nodes:
      one blot per host node in host order, the existing child for a node
      that has one and a new blot for a new node. */
  lemma UpdateIsRebuilt(cs: seq<Blot>, host: seq<NodeId>, reg: Oracle)
    requires Distinct(host) && Distinct(Doms(cs)) && Finds(reg, cs)
    ensures Merge(cs, host, host, reg) == Rebuilt(cs, host, reg)
  {
    MergeIsRebuilt(cs, host, host, reg);
  }

  /** The merge step where the first child is at the cursor. */
  lemma CursorMatch(rs: seq<Blot>, host: seq<NodeId>, c: nat, reg: Oracle)
    requires rs != [] && c < |host| && host[c] == rs[0].dom
    ensures Merge(rs, host[c..], host, reg) == Then([rs[0]], Merge(rs[1..], host[c + 1..], host, reg))
  {
    assert host[c..][1..] == host[c + 1..];
  }

  /** The merge step where an attached first child waits behind the cursor's
      node: that node's owner is taken out, and the first child stays first. */
  lemma CursorInsert(rs: seq<Blot>, host: seq<NodeId>, c: nat, reg: Oracle)
    requires rs != [] && c < |host| && host[c] != rs[0].dom && rs[0].dom in host
    ensures Merge(rs, host[c..], host, reg) ==
      match Resolve(reg, host[c])
      case None => None
      case Some(b) => Then([b], Merge(Without(rs, host[c]), host[c + 1..], host, reg))
    ensures var w := Without(rs, host[c]); w != [] && w[0] == rs[0] && |w| <= |rs|
  {
    assert host[c..][1..] == host[c + 1..];
  }

  /** The merge step where an attached child is met with the cursor past the end. */
  lemma CursorStuck(rs: seq<Blot>, host: seq<NodeId>, reg: Oracle)
    requires rs != [] && rs[0].dom in host
    ensures Merge(rs, host[|host|..], host, reg) == None
  {
    assert host[|host|..] == [];
  }

  /** The merge step where the first child's host node is gone. */
  lemma CursorDrop(rs: seq<Blot>, host: seq<NodeId>, c: nat, reg: Oracle)
    requires rs != [] && c <= |host| && rs[0].dom !in host
    ensures Merge(rs, host[c..], host, reg) == Merge(rs[1..], host[c..], host, reg)
  {
    assert c < |host| ==> host[c..][0] == host[c];
  }

  /** The trailing loop's step at cursor `c`. */
  lemma TrailStep(host: seq<NodeId>, c: nat, reg: Oracle)
    requires c < |host|
    ensures Trailing(host[c..], reg) ==
      match Resolve(reg, host[c])
      case None => None
      case Some(b) => Then([b], Trailing(host[c + 1..], reg))
  {
    assert host[c..][1..] == host[c + 1..];
  }

  /** Prepending to a failed walk leaves it failed. */
  lemma ThenNone(out: seq<Blot>)
    ensures Then(out, None) == None
  {
  }

  /** Prepending nothing changes nothing. */
  lemma ThenEmpty(r: Option<seq<Blot>>)
    ensures Then([], r) == r
  {
    if r.Some? {
      assert [] + r.value == r.value;
    }
  }

  /** Two prepends are one prepend of both runs. */
  lemma ThenThen(out: seq<Blot>, more: seq<Blot>, r: Option<seq<Blot>>)
    ensures Then(out, Then(more, r)) == Then(out + more, r)
  {
    if r.Some? {
      assert out + (more + r.value) == out + more + r.value;
    }
  }
}
