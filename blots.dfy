/** The blot tree as values: leaves with an intrinsic length and nested
    containers with an ordered list of children, and the linear length of
    a container, which is the sum of its children's lengths. */
module Blots {

  datatype Option<T> = None | Some(value: T)

  /** A node of the host tree (the rendered document the blots mirror). */
  type NodeId = nat

  /** The static declarations of a container type: its blot name and, when it
      declares one, the registry arguments that create its default child. */
  datatype Kind = Kind(name: string, defaultChild: Option<seq<string>>)

  /** A blot owns exactly one host node. A leaf reports an intrinsic length
      (text length, or 1 for an embed); a nested container is measured by
      its children. */
  datatype Blot =
    | Leaf(dom: NodeId, size: nat)
    | Nested(dom: NodeId, kind: Kind, children: seq<Blot>)

  /** Linear length of a blot. */
  function Length(b: Blot): nat
    decreases b
  {
    match b
    case Leaf(_, n) => n
    case Nested(_, _, cs) => Sum(cs)
  }

  /** The fold `reduce((memo, child) => memo + child.length(), 0)`, taken
      left to right: no child is longer than the sum, and no children sum
      to 0. */
  function Sum(cs: seq<Blot>): (r: nat)
    ensures cs == [] ==> r == 0
    ensures forall k :: 0 <= k < |cs| ==> Length(cs[k]) <= r
    decreases cs
  {
    if cs == [] then 0 else Sum(cs[..|cs| - 1]) + Length(cs[|cs| - 1])
  }

  /** Linear index at which child `k` starts: the lengths of the children before it. */
  function Offset(cs: seq<Blot>, k: nat): nat
    requires k <= |cs|
  {
    Sum(cs[..k])
  }

  /** The host nodes of a list of blots, in order. */
  function Doms(cs: seq<Blot>): (r: seq<NodeId>)
    ensures |r| == |cs|
    ensures forall k :: 0 <= k < |cs| ==> r[k] == cs[k].dom
  {
    if cs == [] then [] else Doms(cs[..|cs| - 1]) + [cs[|cs| - 1].dom]
  }

  /** Lengths add up over concatenation. */
  lemma {:induction false} SumAppend(a: seq<Blot>, b: seq<Blot>)
    ensures Sum(a + b) == Sum(a) + Sum(b)
    decreases |b|
  {
    if b == [] {
      assert a + b == a;
    } else {
      var n := |b| - 1;
      assert (a + b)[..|a + b| - 1] == a + b[..n];
      assert (a + b)[|a + b| - 1] == b[n];
      SumAppend(a, b[..n]);
    }
  }

  lemma SumCons(x: Blot, cs: seq<Blot>)
    ensures Sum([x] + cs) == Length(x) + Sum(cs)
  {
    SumAppend([x], cs);
    assert [x][..0] == [];
  }

  /** Each child starts where the previous one ends. */
  lemma OffsetStep(cs: seq<Blot>, k: nat)
    requires k < |cs|
    ensures Offset(cs, k + 1) == Offset(cs, k) + Length(cs[k])
  {
    assert cs[..k + 1][..k] == cs[..k];
  }

  /** Offsets never decrease along the list, and a child ends within the total. */
  lemma OffsetMonotone(cs: seq<Blot>, j: nat, k: nat)
    requires j <= k <= |cs|
    ensures Offset(cs, j) <= Offset(cs, k) <= Sum(cs)
  {
    assert cs[..k] == cs[..j] + cs[j..k];
    SumAppend(cs[..j], cs[j..k]);
    assert cs == cs[..k] + cs[k..];
    SumAppend(cs[..k], cs[k..]);
  }

  /** The length of a suffix is what is left after its offset. */
  lemma SuffixSum(cs: seq<Blot>, k: nat)
    requires k <= |cs|
    ensures Sum(cs[k..]) == Sum(cs) - Offset(cs, k)
  {
    assert cs == cs[..k] + cs[k..];
    SumAppend(cs[..k], cs[k..]);
  }

  lemma DomsAppend(a: seq<Blot>, b: seq<Blot>)
    ensures Doms(a + b) == Doms(a) + Doms(b)
  {
  }
}
