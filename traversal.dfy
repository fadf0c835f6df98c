/** Queries that descend from a container through the blot tree: the path
    of blots a linear index runs through, the host node and offset it lands
    on, and the linear offset of a child's host node. */
module Traversal {
  import opened Blots
  import opened ChildList
  import opened Registry

  /** One entry of a path: a blot and a number, which for a container is
      where the next entry's blot starts inside it and for the last entry is
      the offset left over. */
  datatype Step = Step(blot: Blot, offset: nat)

  /** `path(index, inclusive)` of container `b`: `[[b, index]]` when no child
      holds `index`; otherwise `b` with the start of the child that holds it,
      followed by the child's own path when the child is a container, or by
      the child and its local offset when it is a leaf. */
  function Path(b: Blot, index: nat, inclusive: bool): (r: seq<Step>)
    requires b.Nested?
    ensures r != [] && r[0].blot == b
    decreases b
  {
    match Find(b.children, index, inclusive)
    case None => [Step(b, index)]
    case Some(p) =>
      FindSpec(b.children, index, inclusive);
      var c := b.children[p.child];
      [Step(b, index - p.offset)] + (if c.Nested? then Path(c, p.offset, inclusive) else [Step(c, p.offset)])
  }

  /** The numbers along a path, added up. */
  function Total(r: seq<Step>): nat
  {
    if r == [] then 0 else r[0].offset + Total(r[1..])
  }

  /** Each entry but the last is a container, the next entry's blot is the
      child `find` answers for the index left at that entry (what the path
      from there adds up to), and the entry's number is where that child
      starts. */
  ghost predicate Follows(r: seq<Step>, inclusive: bool)
  {
    |r| <= 1 || (
      r[0].blot.Nested? &&
      var cs := r[0].blot.children;
      var f := Find(cs, Total(r), inclusive);
      f.Some? && f.value.child < |cs| &&
      r[1].blot == cs[f.value.child] && r[0].offset == Offset(cs, f.value.child) &&
      Follows(r[1..], inclusive))
  }

  /** A path ends at a leaf with its offset inside the leaf (or at its end,
      when inclusive), or at a container none of whose children holds the
      offset. */
  ghost predicate Ends(r: seq<Step>, inclusive: bool)
    requires r != []
  {
    var last := r[|r| - 1];
    match last.blot
    case Leaf(_, size) => last.offset < size || (inclusive && last.offset == size)
    case Nested(_, _, cs) => Find(cs, last.offset, inclusive).None?
  }

  /** The numbers along the path add up to the index it was asked for. */
  lemma {:induction false} PathTotal(b: Blot, index: nat, inclusive: bool)
    requires b.Nested?
    ensures Total(Path(b, index, inclusive)) == index
    decreases b
  {
    var r := Path(b, index, inclusive);
    match Find(b.children, index, inclusive)
    case None =>
    case Some(p) =>
      FindSpec(b.children, index, inclusive);
      var c := b.children[p.child];
      assert r[1..] == (if c.Nested? then Path(c, p.offset, inclusive) else [Step(c, p.offset)]);
      assert Total(r) == (index - p.offset) + Total(r[1..]);
      if c.Nested? {
        PathTotal(c, p.offset, inclusive);
      } else {
        assert [Step(c, p.offset)][1..] == [];
      }
  }

  /** Each entry of a path leads to the child `find` answers at that entry. */
  lemma {:induction false} PathFollows(b: Blot, index: nat, inclusive: bool)
    requires b.Nested?
    ensures Follows(Path(b, index, inclusive), inclusive)
    decreases b
  {
    match Find(b.children, index, inclusive)
    case None =>
    case Some(p) =>
      FindSpec(b.children, index, inclusive);
      var c := b.children[p.child];
      var rest := if c.Nested? then Path(c, p.offset, inclusive) else [Step(c, p.offset)];
      if c.Nested? {
        PathFollows(c, p.offset, inclusive);
        PathTotal(c, p.offset, inclusive);
      } else {
        assert [Step(c, p.offset)][1..] == [];
      }
      var r := Path(b, index, inclusive);
      assert r == [Step(b, index - p.offset)] + rest && r[1..] == rest;
      assert Total(rest) == p.offset;
      assert Total(r) == index;
  }

  /** The path is the single entry `[b, index]` exactly when no child of `b`
      holds `index`; otherwise each entry leads to the child `find` answers
      at that entry, starting where that child starts, down to where `Ends`
      says. */
  lemma {:induction false} PathShape(b: Blot, index: nat, inclusive: bool)
    requires b.Nested?
    ensures var r := Path(b, index, inclusive);
      (r == [Step(b, index)] <==> Find(b.children, index, inclusive).None?) &&
      Follows(r, inclusive) && Ends(r, inclusive)
    decreases b
  {
    PathFollows(b, index, inclusive);
    var r := Path(b, index, inclusive);
    match Find(b.children, index, inclusive)
    case None =>
    case Some(p) =>
      FindSpec(b.children, index, inclusive);
      var c := b.children[p.child];
      var rest := if c.Nested? then Path(c, p.offset, inclusive) else [Step(c, p.offset)];
      assert r == [Step(b, index - p.offset)] + rest;
      assert r[|r| - 1] == rest[|rest| - 1];
      if c.Nested? {
        PathShape(c, p.offset, inclusive);
      }
  }

  /** `Follows`, `Ends` and the total pin the path down: a sequence of
      entries that starts at `b`, adds up to `index`, leads from each entry
      to the child `find` answers and ends where `Ends` says is the path. */
  lemma {:induction false} PathUnique(b: Blot, index: nat, inclusive: bool, r: seq<Step>)
    requires b.Nested? && r != [] && r[0].blot == b && Total(r) == index
    requires Follows(r, inclusive) && Ends(r, inclusive)
    ensures r == Path(b, index, inclusive)
    decreases b
  {
    if |r| == 1 {
      assert r[1..] == [];
      assert r == [Step(b, index)];
    } else {
      FollowsHead(b, index, inclusive, r);
      var p := Find(b.children, index, inclusive).value;
      var c := b.children[p.child];
      var rest := r[1..];
      assert r[|r| - 1] == rest[|rest| - 1];
      if c.Nested? {
        PathUnique(c, p.offset, inclusive, rest);
      } else {
        assert |rest| == 1 && rest[1..] == [];
        assert rest == [Step(c, p.offset)];
      }
      assert r == [r[0]] + rest;
    }
  }

  /** The first entry of a longer path that follows `find`. */
  lemma FollowsHead(b: Blot, index: nat, inclusive: bool, r: seq<Step>)
    requires b.Nested? && |r| >= 2 && r[0].blot == b && Total(r) == index && Follows(r, inclusive)
    ensures Find(b.children, index, inclusive).Some?
    ensures var p := Find(b.children, index, inclusive).value;
      p.child < |b.children| && p.offset <= index && r[0] == Step(b, index - p.offset) &&
      r[1].blot == b.children[p.child] && Total(r[1..]) == p.offset && Follows(r[1..], inclusive)
  {
    FindSpec(b.children, index, inclusive);
  }

  /** `findNode(index, inclusive)`: descend to the leaf that holds `index` and
      take its host node with the leaf-local offset. `None` where the source
      fails because `find` yields no child. */
  function FindNode(b: Blot, index: nat, inclusive: bool): Option<(NodeId, nat)>
    requires b.Nested?
    decreases b
  {
    match Find(b.children, index, inclusive)
    case None => None
    case Some(p) =>
      FindSpec(b.children, index, inclusive);
      var c := b.children[p.child];
      if c.Nested? then FindNode(c, p.offset, inclusive) else Some((c.dom, p.offset))
  }

  /** `findNode` lands where `path` ends: it succeeds exactly when the path
      ends at a leaf, and then answers that leaf's host node and offset. */
  lemma {:induction false} FindNodeEndsPath(b: Blot, index: nat, inclusive: bool)
    requires b.Nested?
    ensures var r := Path(b, index, inclusive);
      var last := r[|r| - 1];
      FindNode(b, index, inclusive) ==
        if last.blot.Leaf? then Some((last.blot.dom, last.offset)) else None
    decreases b
  {
    var r := Path(b, index, inclusive);
    match Find(b.children, index, inclusive)
    case None =>
    case Some(p) =>
      FindSpec(b.children, index, inclusive);
      var c := b.children[p.child];
      var rest := if c.Nested? then Path(c, p.offset, inclusive) else [Step(c, p.offset)];
      assert r == [Step(b, index - p.offset)] + rest;
      assert r[|r| - 1] == rest[|rest| - 1];
      if c.Nested? {
        FindNodeEndsPath(c, p.offset, inclusive);
      }
  }

  /** `findOffset(node)` on container `b`: 0 for `b`'s own host node; -1 when
      the registry has no blot for `node` or that blot is not a child of
      `b`; otherwise the linear index at which that child (its first
      occurrence) starts. */
  function FindOffset(b: Blot, node: NodeId, reg: Oracle): (r: int)
    requires b.Nested?
    ensures node == b.dom ==> r == 0
    ensures node != b.dom ==>
      (r == -1 <==> reg.find(node).None? || reg.find(node).value !in b.children)
    ensures node != b.dom && r != -1 ==>
      exists k :: 0 <= k < |b.children| && b.children[k] == reg.find(node).value &&
        (forall j :: 0 <= j < k ==> b.children[j] != reg.find(node).value) &&
        r == Offset(b.children, k)
    ensures 0 <= r <= Length(b) || r == -1
  {
    if node == b.dom then 0
    else match reg.find(node)
      case None => -1
      case Some(x) =>
        match IndexOf(b.children, x)
        case None => -1
        case Some(k) =>
          OffsetMonotone(b.children, k, |b.children|);
          Offset(b.children, k)
  }

  /** A child's offset leads back to that child: looking the offset up with
      `find` yields the child (its first occurrence) at local offset 0, when
      the child is not empty. */
  lemma FindOffsetRoundTrip(b: Blot, node: NodeId, reg: Oracle)
    requires b.Nested? && node != b.dom && FindOffset(b, node, reg) >= 0
    requires Length(reg.find(node).value) > 0
    ensures Find(b.children, FindOffset(b, node, reg), false).Some?
    ensures var p := Find(b.children, FindOffset(b, node, reg), false).value;
      p.child < |b.children| && b.children[p.child] == reg.find(node).value && p.offset == 0
  {
    var cs := b.children;
    var x := reg.find(node).value;
    var k := IndexOf(cs, x).value;
    var o := Offset(cs, k);
    assert Holds(cs, k, o, false);
    FindNone(cs, o, false);
    OffsetMonotone(cs, k, |cs|);
    assert cs[k] == x;
    FindSpec(cs, o, false);
    var p := Find(cs, o, false).value;
    if p.child < k {
      OffsetStep(cs, p.child);
      OffsetMonotone(cs, p.child + 1, k);
      assert false;
    }
    assert p.child == k;
  }
}
