/** The container blot: a blot that owns an ordered list of child blots,
    maps linear indices onto them, edits that list in place, and keeps it in
    step with its host node's child nodes. */
module Container {
  import opened Blots
  import opened ChildList
  import opened Registry
  import opened Reconcile
  import opened Splitting
  import opened ParentList

  /** What `insertAt` did: handed the insertion to the child holding the
      index, with its local offset; appended a new blot; or failed because
      the registry could not create that blot. */
  datatype Insertion = Delegated(child: nat, offset: nat) | Appended(blot: Blot) | Refused

  /** What `split` returned: the container itself, its next sibling (none
      when it is the last child), or the clone holding what moved. */
  datatype SplitResult = Itself | Sibling(next: Option<Blot>) | Cloned(clone: Blot)

  /** What `optimize` did to a container: nothing, because it has children;
      appended its default child; removed it from its parent; or failed
      because the registry could not create the default child. */
  datatype Optimized = Kept | Filled(child: Blot) | RemovedSelf | Unfilled

  class ContainerBlot {
    /** The host node this container owns. */
    const dom: NodeId
    /** Its type's static declarations (blot name, default child). */
    const kind: Kind
    var children: seq<Blot>

    /** This container as a value of the blot tree. */
    function Value(): (b: Blot)
      reads this
      ensures b.Nested? && b.dom == dom && b.children == children
    {
      Nested(dom, kind, children)
    }

    /** `parent` holds this container, identified by its host node, at
      position `at` of its children. */
    predicate Attached(parent: ContainerBlot, at: nat)
      reads this, parent
    {
      parent != this && at < |parent.children| && parent.children[at].dom == dom
    }

    /** `build()`: walk the host node's child nodes from last to first and
        insert a blot for each before the current head, skipping the nodes
        whose creation fails. */
    constructor (dom: NodeId, kind: Kind, host: seq<NodeId>, reg: Oracle)
      ensures this.dom == dom && this.kind == kind
      ensures children == Adopt(host, reg)
    {
      this.dom := dom;
      this.kind := kind;
      children := [];
      new;
      var i := |host|;
      while i > 0
        invariant 0 <= i <= |host|
        invariant children == Adopt(host[i..], reg)
      {
        i := i - 1;
        assert host[i..][1..] == host[i + 1..];
        match Resolve(reg, host[i])
        case None =>
        case Some(b) =>
          children := [b] + children;
      }
    }

    /** `length()`: the children's lengths added up. */
    function Length(): (r: nat)
      reads this
      ensures children == [] ==> r == 0
      ensures forall k :: 0 <= k < |children| ==> Offset(children, k) + Blots.Length(children[k]) <= r
    {
      forall k | 0 <= k < |children|
        ensures Offset(children, k) + Blots.Length(children[k]) <= Sum(children)
      {
        OffsetStep(children, k);
        OffsetMonotone(children, k + 1, |children|);
      }
      Sum(children)
    }

    /** `insertAt(index, value, def)`: when a child holds `index`, the
        insertion goes to that child at its local offset and this list is
        unchanged; otherwise a new blot (text holding `value` without `def`,
        or the blot named `value` with `def`) is appended. */
    method InsertAt(index: nat, value: string, def: Option<string>, reg: Oracle) returns (r: Insertion)
      modifies this
      ensures r.Delegated? <==> index < old(Sum(children))
      ensures r.Delegated? ==> (Find(children, index, false) == Some(Position(r.child, r.offset)) &&
        r.child < |children| && Offset(children, r.child) + r.offset == index &&
        r.offset < Blots.Length(children[r.child]))
      ensures r.Delegated? || r.Refused? ==> children == old(children)
      ensures r.Appended? ==> children == old(children) + [r.blot]
      ensures !r.Delegated? ==>
        (r.Refused? <==> (if def.None? then reg.make(["text", value]) else reg.make([value, def.value])).None?)
      ensures r.Appended? ==>
        Some(r.blot) == (if def.None? then reg.make(["text", value]) else reg.make([value, def.value]))
    {
      FindNone(children, index, false);
      FindSpec(children, index, false);
      match Find(children, index, false)
      case Some(p) =>
        r := Delegated(p.child, p.offset);
      case None =>
        var made := if def.None? then reg.make(["text", value]) else reg.make([value, def.value]);
        match made
        case None =>
          r := Refused;
        case Some(b) =>
          children := children + [b];
          r := Appended(b);
    }

    /** `deleteAt(index, length)`: deleting the whole container removes it
        from its parent; any other range is handed to the children it meets,
        each with its own part of the range. */
    method DeleteAt(index: nat, length: nat, parent: ContainerBlot?, at: nat) returns (calls: seq<Slice>)
      requires parent != null ==> Attached(parent, at)
      modifies parent
      ensures index == 0 && length == Sum(children) ==>
        calls == [] && (parent != null ==> parent.children == Removed(old(parent.children), at))
      ensures !(index == 0 && length == Sum(children)) ==>
        (parent != null ==> parent.children == old(parent.children)) &&
        calls == (if length == 0 then [] else Intersecting(children, 0, index, length))
    {
      if index == 0 && length == Length() {
        if parent != null {
          parent.children := Removed(parent.children, at);
        }
        calls := [];
      } else {
        calls := ForEachAt(children, index, length);
        if length > 0 {
          ForEachAtIsIntersecting(children, index, length);
        }
      }
    }

    /** `formatAt(index, length, name, value)`: the children the range meets,
        each with its own part of the range; each receives the same name and
        value. */
    function FormatAt(index: nat, length: nat): (calls: seq<Slice>)
      reads this
      ensures length > 0 ==> calls == Intersecting(children, 0, index, length)
      ensures length == 0 ==> calls == []
    {
      if length == 0 then ForEachAt(children, index, length)
      else
        ForEachAtIsIntersecting(children, index, length);
        ForEachAt(children, index, length)
    }

    /** `split(index, force)`. Without force, index 0 answers the container
        itself and its full length answers its next sibling; both leave
        everything as it was. Otherwise a clone with host node `cloneDom`
        goes right after this container in its parent, and every child from
        `index` to the end is split at its local offset by `cut` (the
        children's own split) with what it returns appended to the clone. */
    method Split(index: nat, force: bool, cut: Cutter, cloneDom: NodeId, parent: ContainerBlot, at: nat)
      returns (r: SplitResult)
      requires Attached(parent, at)
      modifies this, parent
      ensures !force && index == 0 ==>
        r == Itself && children == old(children) && parent.children == old(parent.children)
      ensures !force && index != 0 && index == old(Sum(children)) ==>
        r == Sibling(Next(old(parent.children), at)) &&
        children == old(children) && parent.children == old(parent.children)
      ensures force || (index != 0 && index != old(Sum(children))) ==>
        var s := SplitOff(old(children), index, force, cut);
        r == Cloned(Nested(cloneDom, kind, s.1)) && children == s.0 &&
        parent.children == InsertedAfter(old(parent.children), at, r.clone)
    {
      if !force {
        if index == 0 {
          return Itself;
        }
        if index == Sum(children) {
          return Sibling(Next(parent.children, at));
        }
      }
      var ps := parent.children;
      ghost var cs := children;
      var sl := ForEachAt(children, index, Sum(children));
      ForEachAtConsecutive(children, index, Sum(children));
      var moved: seq<Blot> := [];
      if sl != [] {
        moved := SplitRun(sl, force, cut);
      }
      assert (children, moved) == SplitOff(cs, index, force, cut);
      var clone := Nested(cloneDom, kind, moved);
      parent.children := InsertedAfter(ps, at, clone);
      r := Cloned(clone);
    }

    /** The loop of the general path of `split`: each child a slice of `sl`
        names, in order, is cut at the slice's offset; what the cut returns
        leaves this list for the clone, and what stays of the child keeps its
        place. */
    method SplitRun(sl: seq<Slice>, force: bool, cut: Cutter) returns (moved: seq<Blot>)
      requires sl != [] && sl[0].child + |sl| <= |children|
      requires forall t :: 0 <= t < |sl| ==> sl[t].child == sl[0].child + t
      modifies this
      ensures var f := sl[0].child;
        var p := Pieces(old(children), sl, force, cut);
        children == old(children)[..f] + p.0 + old(children)[f + |sl|..] && moved == p.1
    {
      var cs := children;
      var f := sl[0].child;
      var i := 0;
      var pos := f;
      moved := [];
      ghost var stay: seq<Blot> := [];
      assert sl[..0] == [];
      assert cs == cs[..f] + stay + cs[f..];
      while i < |sl|
        invariant 0 <= i <= |sl|
        invariant Pieces(cs, sl[..i], force, cut) == (stay, moved)
        invariant pos == f + |stay|
        invariant children == cs[..f] + stay + cs[f + i..]
      {
        var x := cs[f + i];
        var piece := cut(x, sl[i].offset, force);
        var mid := Stays(piece);
        RunStep(cs, sl, f, i, stay, moved, force, cut);
        children := children[..pos] + mid + children[pos + 1..];
        moved := moved + [Moves(piece, x)];
        stay := stay + mid;
        pos := pos + |mid|;
        i := i + 1;
      }
      assert sl[..|sl|] == sl;
    }

    /** `moveChildren(target, ref)`: every child, in order, is inserted into
        `target` before position `before`; this container keeps none. */
    method MoveChildren(target: ContainerBlot, before: nat)
      requires target != this && before <= |target.children|
      modifies this, target
      ensures children == []
      ensures target.children ==
        old(target.children)[..before] + old(children) + old(target.children)[before..]
    {
      ghost var moving := children;
      ghost var host := target.children;
      var pos := before;
      while children != []
        invariant before <= pos <= before + |moving|
        invariant moving == moving[..pos - before] + children
        invariant target.children == host[..before] + moving[..pos - before] + host[before..]
        decreases |children|
      {
        var c := children[0];
        assert moving[..pos - before + 1] == moving[..pos - before] + [c];
        children := children[1..];
        target.children := target.children[..pos] + [c] + target.children[pos..];
        pos := pos + 1;
      }
    }

    /** `unwrap()`: the children move into the parent right after this
        container, which then leaves the parent; the children take its
        place, in order. */
    method Unwrap(parent: ContainerBlot, at: nat)
      requires Attached(parent, at)
      modifies this, parent
      ensures children == []
      ensures parent.children == Promoted(old(parent.children), at, old(children))
    {
      MoveChildren(parent, at + 1);
      parent.children := parent.children[..at] + parent.children[at + 1..];
    }

    /** `replace(target)`: the target's children are appended to this
        container, which then takes the target's place in the target's
        parent; a target without a parent only gives up its children. */
    method Replace(target: ContainerBlot, parent: ContainerBlot?, at: nat)
      requires target != this && parent != this
      requires parent != null ==> target.Attached(parent, at)
      modifies this, target, parent
      ensures target.children == []
      ensures children == old(children) + old(target.children)
      ensures parent != null ==> parent.children == old(parent.children)[at := Value()]
    {
      target.MoveChildren(this, |children|);
      if parent != null {
        parent.children := parent.children[at := Value()];
      }
    }

    /** `optimize()`: an empty container gets its declared default child
        appended, or is removed from its parent when it declares none; a
        container with children is left as it is. */
    method Optimize(reg: Oracle, parent: ContainerBlot?, at: nat) returns (r: Optimized)
      requires parent != null ==> Attached(parent, at)
      modifies this, parent
      ensures old(children) != [] ==> r == Kept && children == old(children)
      ensures old(children) == [] && kind.defaultChild.Some? ==>
        match reg.make(kind.defaultChild.value)
        case None => r == Unfilled && children == []
        case Some(b) => r == Filled(b) && children == [b]
      ensures old(children) == [] && kind.defaultChild.None? ==> r == RemovedSelf && children == []
      ensures parent != null ==>
        parent.children == if r == RemovedSelf then Removed(old(parent.children), at) else old(parent.children)
    {
      if children != [] {
        return Kept;
      }
      match kind.defaultChild
      case Some(args) =>
        match reg.make(args) {
          case None =>
            r := Unfilled;
          case Some(b) =>
            children := children + [b];
            r := Filled(b);
        }
      case None =>
        if parent != null {
          parent.children := Removed(parent.children, at);
        }
        r := RemovedSelf;
    }

    /** `update(mutations)` against the host node's current child nodes
        `host`: nothing happens unless a child-list mutation targets this
        container's host node; then the children are merged with `host` by a
        cursor. `ok` is false where the source throws: a node the registry
        cannot create, or a child whose host node is still attached met with
        the cursor past the last host node. */
    method Update(mutations: seq<Mutation>, host: seq<NodeId>, reg: Oracle) returns (ok: bool)
      modifies this
      ensures !Triggered(mutations, dom) ==> ok && children == old(children)
      ensures Triggered(mutations, dom) ==> (ok <==> Merge(old(children), host, host, reg).Some?)
      ensures Triggered(mutations, dom) && ok ==> children == Merge(old(children), host, host, reg).value
    {
      if !Triggered(mutations, dom) {
        return true;
      }
      ghost var goal := Merge(children, host, host, reg);
      var out: seq<Blot> := [];
      var rest := children;
      var c := 0;
      assert host[c..] == host;
      ThenEmpty(goal);
      while rest != []
        invariant 0 <= c <= |host|
        invariant children == out + rest
        invariant goal == Then(out, Merge(rest, host[c..], host, reg))
        decreases |rest|
      {
        var settled;
        out, rest, c, settled := Settle(host, reg, out, rest, c);
        if !settled {
          return false;
        }
      }
      while c < |host|
        invariant 0 <= c <= |host|
        invariant children == out
        invariant goal == Then(out, Trailing(host[c..], reg))
      {
        TrailStep(host, c, reg);
        match Resolve(reg, host[c])
        case None =>
          ThenNone(out);
          return false;
        case Some(b) =>
          ThenThen(out, [b], Trailing(host[c + 1..], reg));
          out := out + [b];
          children := out;
          c := c + 1;
      }
      assert host[c..] == [];
      assert out + [] == out;
      ok := true;
    }

    /** One turn of the walk over the children in `update`, for the first
        child not yet visited, `rest[0]`, with the cursor at `host[c]`. While
        the cursor is not at the child's host node: a still-attached child
        means the cursor's node comes first, so a blot is resolved for it and
        inserted before the child, and a later child that owns that node
        leaves its old place; a detached child is removed. A child the cursor
        reaches is kept and the cursor moves past it. `settled` is false
        where the source throws. */
    method Settle(host: seq<NodeId>, reg: Oracle, out: seq<Blot>, rest: seq<Blot>, c: nat)
      returns (out': seq<Blot>, rest': seq<Blot>, c': nat, settled: bool)
      requires rest != [] && c <= |host| && children == out + rest
      modifies this
      ensures settled ==> (c' <= |host| && |rest'| < |rest| && children == out' + rest' &&
        Then(out, Merge(rest, host[c..], host, reg)) == Then(out', Merge(rest', host[c'..], host, reg)))
      ensures !settled ==> Then(out, Merge(rest, host[c..], host, reg)) == None
    {
      ghost var goal := Then(out, Merge(rest, host[c..], host, reg));
      var child := rest[0];
      var dropped := false;
      out', rest', c' := out, rest, c;
      while !dropped && (c' == |host| || host[c'] != child.dom)
        invariant 0 <= c' <= |host|
        invariant children == out' + rest'
        invariant dropped ==> |rest'| < |rest|
        invariant !dropped ==> rest' != [] && rest'[0] == child && |rest'| <= |rest|
        invariant goal == Then(out', Merge(rest', host[c'..], host, reg))
        decreases |host| - c', if dropped then 0 else 1
      {
        if child.dom in host {
          // the cursor's node comes before this child's node
          if c' == |host| {
            CursorStuck(rest', host, reg);
            ThenNone(out');
            return out', rest', c', false;
          }
          CursorInsert(rest', host, c', reg);
          match Resolve(reg, host[c'])
          case None =>
            ThenNone(out');
            return out', rest', c', false;
          case Some(b) =>
            ThenThen(out', [b], Merge(Without(rest', host[c']), host[c' + 1..], host, reg));
            out' := out' + [b];
            rest' := Without(rest', host[c']);
            children := out' + rest';
            c' := c' + 1;
        } else {
          // this child's host node was removed
          CursorDrop(rest', host, c', reg);
          rest' := rest'[1..];
          children := out' + rest';
          dropped := true;
        }
      }
      if !dropped {
        CursorMatch(rest', host, c', reg);
        ThenThen(out', [child], Merge(rest'[1..], host[c' + 1..], host, reg));
        out' := out' + [child];
        rest' := rest'[1..];
        c' := c' + 1;
      }
      settled := true;
    }
  }

  /** A split strictly inside the container at `at` of its parent, without
      force, leaves the parent exactly as long as before: the container now
      holds the first `index` units and the clone after it the rest. */
  lemma SplitKeepsLength(ps: seq<Blot>, at: nat, index: nat, cut: Cutter, cloneDom: NodeId)
    requires at < |ps| && ps[at].Nested? && Honest(cut) && 0 < index < Length(ps[at])
    ensures var b := ps[at];
      var s := SplitOff(b.children, index, false, cut);
      Length(Nested(b.dom, b.kind, s.0)) == index &&
      Sum(InsertedAfter(ps[at := Nested(b.dom, b.kind, s.0)], at, Nested(cloneDom, b.kind, s.1))) == Sum(ps)
  {
    var b := ps[at];
    var s := SplitOff(b.children, index, false, cut);
    SplitPartition(b.children, index, cut);
    SplitLength(ps, at, Nested(b.dom, b.kind, s.0), Nested(cloneDom, b.kind, s.1));
  }
}
