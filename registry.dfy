/** The node registry as a container consumes it: look up the blot that owns
    a host node, or create one; creation fails for host nodes it cannot
    classify. Also the adoption of a host node's children when a container
    is built. */
module Registry {
  import opened Blots

  /** Each member answers `None` where the registry finds nothing (`find`)
      or where creation throws (`create`, `make`). */
  datatype Oracle = Oracle(
    find: NodeId -> Option<Blot>,       // Registry.find(node)
    create: NodeId -> Option<Blot>,     // Registry.create(node): a blot for an existing host node
    make: seq<string> -> Option<Blot>)  // Registry.create(name, value?): a blot with a new host node

  /** `Registry.find(node) || Registry.create(node)`. */
  function Resolve(reg: Oracle, node: NodeId): Option<Blot>
  {
    if reg.find(node).Some? then reg.find(node) else reg.create(node)
  }

  /** The registry answers for a host node with a blot that owns that node. */
  ghost predicate Faithful(reg: Oracle)
  {
    forall n :: Resolve(reg, n).Some? ==> Resolve(reg, n).value.dom == n
  }

  /** The children `build` ends up with for the given host child nodes: a blot
      for each node in host order, skipping the nodes whose creation fails. */
  function Adopt(nodes: seq<NodeId>, reg: Oracle): seq<Blot>
  {
    if nodes == [] then []
    else
      (match Resolve(reg, nodes[0]) case None => [] case Some(b) => [b])
      + Adopt(nodes[1..], reg)
  }

  /** The host nodes the registry can resolve, in host order. */
  function Adoptable(nodes: seq<NodeId>, reg: Oracle): (r: seq<NodeId>)
    ensures |r| <= |nodes|
    ensures forall n :: n in r ==> n in nodes && Resolve(reg, n).Some?
  {
    if nodes == [] then []
    else (if Resolve(reg, nodes[0]).Some? then [nodes[0]] else []) + Adoptable(nodes[1..], reg)
  }

  /** The adopted children own exactly the resolvable host nodes, in host
      order: failed nodes are skipped and all others are kept. */
  lemma {:induction false} AdoptFollowsHost(nodes: seq<NodeId>, reg: Oracle)
    requires Faithful(reg)
    ensures Doms(Adopt(nodes, reg)) == Adoptable(nodes, reg)
  {
    if nodes != [] {
      AdoptFollowsHost(nodes[1..], reg);
      var head := match Resolve(reg, nodes[0]) case None => [] case Some(b) => [b];
      DomsAppend(head, Adopt(nodes[1..], reg));
    }
  }

  /** When every host child resolves, the children mirror the host children exactly. */
  lemma {:induction false} AdoptableAll(nodes: seq<NodeId>, reg: Oracle)
    requires forall k :: 0 <= k < |nodes| ==> Resolve(reg, nodes[k]).Some?
    ensures Adoptable(nodes, reg) == nodes
  {
    if nodes != [] {
      assert Resolve(reg, nodes[0]).Some?;
      AdoptableAll(nodes[1..], reg);
    }
  }
}
