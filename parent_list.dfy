/** What a container's structural edits do to its parent's child list: the
    container is removed from it, a clone is placed right after it, or its
    children take its place. The parent's child list is a sequence of
    blots, and the container sits at position `at` in it. */
module ParentList {
  import opened Blots

  /** `remove()`: the container leaves its parent's list. */
  function Removed(ps: seq<Blot>, at: nat): (r: seq<Blot>)
    requires at < |ps|
    ensures |r| == |ps| - 1
    ensures forall j :: 0 <= j < at ==> r[j] == ps[j]
    ensures forall j :: at <= j < |r| ==> r[j] == ps[j + 1]
  {
    ps[..at] + ps[at + 1..]
  }

  /** `parent.insertBefore(b, this.next)`: `b` lands right after the container. */
  function InsertedAfter(ps: seq<Blot>, at: nat, b: Blot): (r: seq<Blot>)
    requires at < |ps|
    ensures |r| == |ps| + 1 && r[at + 1] == b
    ensures forall j :: 0 <= j <= at ==> r[j] == ps[j]
    ensures forall j :: at + 1 < j < |r| ==> r[j] == ps[j - 1]
  {
    ps[..at + 1] + [b] + ps[at + 1..]
  }

  /** `this.next`: the sibling after the container, if there is one. */
  function Next(ps: seq<Blot>, at: nat): (r: Option<Blot>)
    requires at < |ps|
    ensures r.None? <==> at == |ps| - 1
    ensures r.Some? ==> r.value == ps[at + 1]
  {
    if at + 1 < |ps| then Some(ps[at + 1]) else None
  }

  /** `moveChildren(parent, this.next)` then `remove()`: the container's
      children take its place, in their order. */
  function Promoted(ps: seq<Blot>, at: nat, kids: seq<Blot>): (r: seq<Blot>)
    requires at < |ps|
    ensures |r| == |ps| - 1 + |kids|
    ensures forall j :: 0 <= j < at ==> r[j] == ps[j]
    ensures forall j :: 0 <= j < |kids| ==> r[at + j] == kids[j]
    ensures forall j :: at < j < |ps| ==> r[j - 1 + |kids|] == ps[j]
  {
    ps[..at] + kids + ps[at + 1..]
  }

  /** The parent's length without the container at `at`. */
  lemma {:induction false} RemovedLength(ps: seq<Blot>, at: nat)
    requires at < |ps|
    ensures Sum(Removed(ps, at)) == Sum(ps) - Length(ps[at])
  {
    assert ps == ps[..at] + [ps[at]] + ps[at + 1..];
    SumAppend(ps[..at] + [ps[at]], ps[at + 1..]);
    SumAppend(ps[..at], [ps[at]]);
    SumAppend(ps[..at], ps[at + 1..]);
    assert [ps[at]][..0] == [];
  }

  /** Replacing the entry at `at` by a run of blots of the same total length
      keeps the parent's length. */
  lemma SpliceLength(ps: seq<Blot>, at: nat, run: seq<Blot>)
    requires at < |ps| && Sum(run) == Length(ps[at])
    ensures Sum(ps[..at] + run + ps[at + 1..]) == Sum(ps)
  {
    RemovedLength(ps, at);
    SumAppend(ps[..at], run);
    SumAppend(ps[..at] + run, ps[at + 1..]);
    SumAppend(ps[..at], ps[at + 1..]);
  }

  /** Unwrapping a container keeps the parent's length: its children are
      exactly as long as it was. */
  lemma PromotedLength(ps: seq<Blot>, at: nat)
    requires at < |ps| && ps[at].Nested?
    ensures Sum(Promoted(ps, at, ps[at].children)) == Sum(ps)
  {
    SpliceLength(ps, at, ps[at].children);
  }

  /** A split that leaves the container with `stay` and places a clone
      holding `moved` right after it keeps the parent's length, provided the
      two halves add up to the container. */
  lemma SplitLength(ps: seq<Blot>, at: nat, stay: Blot, clone: Blot)
    requires at < |ps| && Length(stay) + Length(clone) == Length(ps[at])
    ensures Sum(InsertedAfter(ps[at := stay], at, clone)) == Sum(ps)
  {
    var qs := ps[at := stay];
    var run := [stay, clone];
    assert qs[..at + 1] == ps[..at] + [stay];
    assert qs[at + 1..] == ps[at + 1..];
    calc {
      InsertedAfter(qs, at, clone);
      qs[..at + 1] + [clone] + qs[at + 1..];
      ps[..at] + [stay] + [clone] + ps[at + 1..];
      { assert [stay] + [clone] == run; }
      ps[..at] + run + ps[at + 1..];
    }
    SumCons(stay, [clone]);
    assert [clone][..0] == [];
    SpliceLength(ps, at, run);
  }
}
