/** What splitting a container at a linear index does to its children: the
    children the range `[index, length)` touches are each split at their
    local offset, the parts before the index stay, and the parts after it
    move to a clone of the container, in their original order. */
module Splitting {
  import opened Blots
  import opened ChildList

  /** The effect of `child.split(offset, force)` on one child: `Whole` when
      the call returns the child itself, which then moves as it is;
      `Parts(before, after)` when the child keeps the part before the offset
      and the call returns a new blot holding the rest. */
  datatype Fragment = Whole | Parts(before: Blot, after: Blot)

  /** A child's own split, whatever kind of blot the child is. */
  type Cutter = (Blot, nat, bool) -> Fragment

  /** The split of a child behaves as blots split: at offset 0 without force
      the child itself is returned; strictly inside the child it splits into
      a part as long as the offset and a part holding the rest. */
  ghost predicate Honest(cut: Cutter)
  {
    (forall c :: cut(c, 0, false) == Whole) &&
    (forall c, off: nat :: 0 < off < Length(c) ==>
      cut(c, off, false).Parts? &&
      Length(cut(c, off, false).before) == off &&
      Length(cut(c, off, false).after) == Length(c) - off)
  }

  /** The parts that stay and the parts that move, for the children named by
      the slices `sl`, taken in order. */
  function Pieces(cs: seq<Blot>, sl: seq<Slice>, force: bool, cut: Cutter): (seq<Blot>, seq<Blot>)
    requires forall t :: 0 <= t < |sl| ==> sl[t].child < |cs|
    decreases |sl|
  {
    if sl == [] then ([], [])
    else
      var p := Pieces(cs, sl[..|sl| - 1], force, cut);
      var s := sl[|sl| - 1];
      match cut(cs[s.child], s.offset, force)
      case Whole => (p.0, p.1 + [cs[s.child]])
      case Parts(b, a) => (p.0 + [b], p.1 + [a])
  }

  /** The children of this container and of its clone after the general path
      of `split(index, force)`: the run of children from `index` to the end
      is replaced by what stays of it, and what moves becomes the clone's
      children. */
  function SplitOff(cs: seq<Blot>, index: nat, force: bool, cut: Cutter): (seq<Blot>, seq<Blot>)
  {
    var sl := ForEachAt(cs, index, Sum(cs));
    ForEachAtConsecutive(cs, index, Sum(cs));
    if sl == [] then (cs, [])
    else
      var f := sl[0].child;
      var p := Pieces(cs, sl, force, cut);
      (cs[..f] + p.0 + cs[f + |sl|..], p.1)
  }

  /** A run of children visited from their start all move whole. */
  lemma {:induction false} PiecesTail(cs: seq<Blot>, sl: seq<Slice>, cut: Cutter, f: nat, n: nat)
    requires Honest(cut)
    requires 1 <= n <= |sl| && f + |sl| <= |cs|
    requires forall t :: 0 <= t < |sl| ==> sl[t].child == f + t
    requires forall t :: 1 <= t < |sl| ==> sl[t].offset == 0
    ensures Pieces(cs, sl[..n], false, cut) ==
      (Pieces(cs, sl[..1], false, cut).0, Pieces(cs, sl[..1], false, cut).1 + cs[f + 1..f + n])
  {
    if n > 1 {
      PiecesTail(cs, sl, cut, f, n - 1);
      var head := Pieces(cs, sl[..1], false, cut);
      var prev := Pieces(cs, sl[..n - 1], false, cut);
      assert sl[..n][..n - 1] == sl[..n - 1];
      var last := sl[..n][n - 1];
      assert last.child == f + n - 1 && last.offset == 0;
      assert cut(cs[f + n - 1], 0, false) == Whole;
      assert Pieces(cs, sl[..n], false, cut) == (prev.0, prev.1 + [cs[f + n - 1]]);
      assert cs[f + 1..f + n] == cs[f + 1..f + n - 1] + [cs[f + n - 1]];
      assert prev.1 + [cs[f + n - 1]] == head.1 + cs[f + 1..f + n];
    } else {
      var head := Pieces(cs, sl[..1], false, cut);
      assert cs[f + 1..f + n] == [];
      assert head.1 + cs[f + 1..f + n] == head.1;
    }
  }

  /** Without force, strictly inside the container, the range from `index`
      to the end visits the child holding `index` at its local offset and
      every later child from its start. */
  lemma SplitSlices(cs: seq<Blot>, index: nat)
    requires 0 < index < Sum(cs)
    ensures Find(cs, index, false).Some?
    ensures var p := Find(cs, index, false).value;
      var sl := ForEachAt(cs, index, Sum(cs));
      p.child < |cs| && |sl| == |cs| - p.child && sl[0].offset == p.offset &&
      (forall t :: 0 <= t < |sl| ==> sl[t].child == p.child + t) &&
      (forall t :: 1 <= t < |sl| ==> sl[t].offset == 0)
  {
    var L := Sum(cs);
    FindNone(cs, index, false);
    FindSpec(cs, index, false);
    var p := Find(cs, index, false).value;
    var sl := ForEachAt(cs, index, L);
    assert sl == Visit(cs, p.child, Offset(cs, p.child), index, L);
    VisitFirst(cs, p.child, index, L);
    VisitTail(cs, p.child + 1, index, L);
    forall t | 1 <= t < |sl|
      ensures sl[t].child == p.child + t && sl[t].offset == 0
    {
      assert sl[t] == sl[1..][t - 1];
    }
  }

  /** A single slice contributes the two parts of its child, or the child whole. */
  lemma PiecesOne(cs: seq<Blot>, sl: seq<Slice>, force: bool, cut: Cutter)
    requires sl != [] && forall t :: 0 <= t < |sl| ==> sl[t].child < |cs|
    ensures var piece := cut(cs[sl[0].child], sl[0].offset, force);
      piece.Parts? ==> Pieces(cs, sl[..1], force, cut) == ([piece.before], [piece.after])
    ensures var piece := cut(cs[sl[0].child], sl[0].offset, force);
      piece.Whole? ==> Pieces(cs, sl[..1], force, cut) == ([], [cs[sl[0].child]])
  {
    var one := sl[..1];
    assert one[..0] == [] && one[0] == sl[0];
    assert Pieces(cs, one[..0], force, cut) == ([], []);
    var x := cs[sl[0].child];
    var piece := cut(x, sl[0].offset, force);
    if piece.Parts? {
      assert [] + [piece.before] == [piece.before] && [] + [piece.after] == [piece.after];
    } else {
      assert [] + [x] == [x];
    }
  }

  /** A run of slices covering the children from `f` to the end, all but the
      first from their start, keeps what stays of child `f` and moves the rest. */
  lemma PiecesRun(cs: seq<Blot>, sl: seq<Slice>, cut: Cutter, f: nat)
    requires Honest(cut)
    requires f < |cs| && |sl| == |cs| - f
    requires forall t :: 0 <= t < |sl| ==> sl[t].child == f + t
    requires forall t :: 1 <= t < |sl| ==> sl[t].offset == 0
    ensures var piece := cut(cs[f], sl[0].offset, false);
      var pc := Pieces(cs, sl, false, cut);
      var r := (cs[..f] + pc.0 + cs[f + |sl|..], pc.1);
      (piece == Whole ==> r.0 == cs[..f] && r.1 == [cs[f]] + cs[f + 1..]) &&
      (piece.Parts? ==> r.0 == cs[..f] + [piece.before] && r.1 == [piece.after] + cs[f + 1..])
  {
    PiecesTail(cs, sl, cut, f, |sl|);
    PiecesOne(cs, sl, false, cut);
    assert sl[..|sl|] == sl;
    assert cs[f + |sl|..] == [];
  }

  /** The pieces of such a range: what stays of the child holding `index`
      and what moves of it, followed by the later children. */
  lemma SplitPieces(cs: seq<Blot>, index: nat, cut: Cutter)
    requires Honest(cut) && 0 < index < Sum(cs)
    ensures Find(cs, index, false).Some?
    ensures var p := Find(cs, index, false).value;
      var r := SplitOff(cs, index, false, cut);
      p.child < |cs| &&
      var piece := cut(cs[p.child], p.offset, false);
      (piece == Whole ==> r.0 == cs[..p.child] && r.1 == [cs[p.child]] + cs[p.child + 1..]) &&
      (piece.Parts? ==>
        r.0 == cs[..p.child] + [piece.before] && r.1 == [piece.after] + cs[p.child + 1..])
  {
    SplitSlices(cs, index);
    var p := Find(cs, index, false).value;
    var sl := ForEachAt(cs, index, Sum(cs));
    PiecesRun(cs, sl, cut, p.child);
  }

  /** Cutting child `f` in two parts as long as it divides the total at the cut. */
  lemma CutSums(cs: seq<Blot>, f: nat, b: Blot, a: Blot)
    requires f < |cs| && Length(b) + Length(a) == Length(cs[f])
    ensures Sum(cs[..f] + [b]) == Offset(cs, f) + Length(b)
    ensures Sum([a] + cs[f + 1..]) == Sum(cs) - Offset(cs, f) - Length(b)
  {
    SumAppend(cs[..f], [b]);
    assert [b][..0] == [];
    SumCons(a, cs[f + 1..]);
    SuffixSum(cs, f + 1);
    OffsetStep(cs, f);
  }

  /** Cutting before child `f` divides the total at its offset. */
  lemma WholeSums(cs: seq<Blot>, f: nat)
    requires f < |cs|
    ensures [cs[f]] + cs[f + 1..] == cs[f..]
    ensures Sum(cs[f..]) == Sum(cs) - Offset(cs, f)
  {
    SuffixSum(cs, f);
  }

  /** `split(index)` strictly inside a container, without force, partitions
      it at the child holding `index`: the children before that child stay,
      the children after it move to the clone in order, and the child itself
      moves whole when `index` is its start and is cut in two at its local
      offset otherwise. The two halves are exactly `index` and
      `length - index` long. */
  lemma SplitPartition(cs: seq<Blot>, index: nat, cut: Cutter)
    requires Honest(cut) && 0 < index < Sum(cs)
    ensures Find(cs, index, false).Some?
    ensures var p := Find(cs, index, false).value;
      var r := SplitOff(cs, index, false, cut);
      p.child < |cs| &&
      (p.offset == 0 ==> r.0 == cs[..p.child] && r.1 == cs[p.child..]) &&
      (p.offset > 0 ==> (cut(cs[p.child], p.offset, false).Parts? &&
        r.0 == cs[..p.child] + [cut(cs[p.child], p.offset, false).before] &&
        r.1 == [cut(cs[p.child], p.offset, false).after] + cs[p.child + 1..])) &&
      Sum(r.0) == index && Sum(r.1) == Sum(cs) - index
  {
    SplitPieces(cs, index, cut);
    FindSpec(cs, index, false);
    var p := Find(cs, index, false).value;
    var f := p.child;
    if p.offset == 0 {
      WholeSums(cs, f);
    } else {
      var piece := cut(cs[f], p.offset, false);
      CutSums(cs, f, piece.before, piece.after);
    }
  }

  /** What stays of a child after its cut: nothing when it moves whole. */
  function Stays(piece: Fragment): (r: seq<Blot>)
    ensures |r| <= 1
  {
    if piece.Parts? then [piece.before] else []
  }

  /** What moves to the clone after the cut of child `x`. */
  function Moves(piece: Fragment, x: Blot): Blot
  {
    if piece.Parts? then piece.after else x
  }

  /** One more slice extends the pieces by what the cut of its child gives:
      the part that stays (none when the child moves whole) and the part
      that moves. */
  lemma PiecesStep(cs: seq<Blot>, sl: seq<Slice>, i: nat, force: bool, cut: Cutter)
    requires i < |sl| && forall t :: 0 <= t < |sl| ==> sl[t].child < |cs|
    ensures var p := Pieces(cs, sl[..i], force, cut);
      var x := cs[sl[i].child];
      var piece := cut(x, sl[i].offset, force);
      Pieces(cs, sl[..i + 1], force, cut) == (p.0 + Stays(piece), p.1 + [Moves(piece, x)])
  {
    assert sl[..i + 1][..i] == sl[..i];
    assert sl[..i + 1][i] == sl[i];
    var p := Pieces(cs, sl[..i], force, cut);
    assert p.0 + [] == p.0;
  }

  /** One turn of the split loop: the child at `f + i` is replaced in place
      by what stays of it, and what moves is added to the clone's list. */
  lemma RunStep(cs: seq<Blot>, sl: seq<Slice>, f: nat, i: nat, stay: seq<Blot>, moved: seq<Blot>,
                force: bool, cut: Cutter)
    requires i < |sl| && f + |sl| <= |cs|
    requires forall t :: 0 <= t < |sl| ==> sl[t].child == f + t
    requires Pieces(cs, sl[..i], force, cut) == (stay, moved)
    ensures var x := cs[f + i];
      var piece := cut(x, sl[i].offset, force);
      var w := cs[..f] + stay + cs[f + i..];
      Pieces(cs, sl[..i + 1], force, cut) == (stay + Stays(piece), moved + [Moves(piece, x)]) &&
      w[..f + |stay|] + Stays(piece) + w[f + |stay| + 1..] == cs[..f] + (stay + Stays(piece)) + cs[f + i + 1..]
  {
    PiecesStep(cs, sl, i, force, cut);
    var piece := cut(cs[f + i], sl[i].offset, force);
    Spliced(cs[..f] + stay, cs, f + i, Stays(piece));
  }

  /** Replacing the child at `k` of `pre + cs[k..]` by `mid`. */
  lemma Spliced(pre: seq<Blot>, cs: seq<Blot>, k: nat, mid: seq<Blot>)
    requires k < |cs|
    ensures var w := pre + cs[k..];
      w[..|pre|] + mid + w[|pre| + 1..] == (pre + mid) + cs[k + 1..]
  {
    var w := pre + cs[k..];
    assert w[..|pre|] == pre;
    assert w[|pre| + 1..] == cs[k + 1..];
  }
}
