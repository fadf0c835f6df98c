/** The ordered child collection of a container, seen through the queries a
    container makes of it: resolving a linear index to a child and an offset
    within it, visiting the children that a range touches, and the offset at
    which a given child starts. The collection itself is a sequence. */
module ChildList {
  import opened Blots

  /** A child position in the list and an offset inside that child. */
  datatype Position = Position(child: nat, offset: nat)

  /** A child position with the sub-range of that child a range operation covers. */
  datatype Slice = Slice(child: nat, offset: nat, length: nat)

  function Min(a: int, b: int): int { if a <= b then a else b }
  function Max(a: int, b: int): int { if a <= b then b else a }

  /** Child `k` holds `index`: the index lies inside it, or, when `inclusive`,
      exactly at its end. */
  ghost predicate Holds(cs: seq<Blot>, k: nat, index: nat, inclusive: bool)
    requires k < |cs|
  {
    Offset(cs, k) <= index &&
    (index - Offset(cs, k) < Length(cs[k]) ||
     (inclusive && index - Offset(cs, k) == Length(cs[k])))
  }

  /** `find(index, inclusive)`: walk the children, subtracting each length
      from the index, and stop at the first child the rest falls into. */
  function Find(cs: seq<Blot>, index: nat, inclusive: bool): Option<Position>
  {
    FindFrom(cs, 0, index, inclusive)
  }

  function FindFrom(cs: seq<Blot>, k: nat, rest: nat, inclusive: bool): Option<Position>
    requires k <= |cs|
    decreases |cs| - k
  {
    if k == |cs| then None
    else if rest < Length(cs[k]) || (inclusive && rest == Length(cs[k])) then Some(Position(k, rest))
    else FindFrom(cs, k + 1, rest - Length(cs[k]), inclusive)
  }

  /** `find` returns the first child that holds the index, with the index
      relative to that child; it returns nothing when no child holds it. */
  lemma FindSpec(cs: seq<Blot>, index: nat, inclusive: bool)
    ensures Find(cs, index, inclusive).Some? ==>
      var p := Find(cs, index, inclusive).value;
      p.child < |cs| && Offset(cs, p.child) + p.offset == index &&
      Holds(cs, p.child, index, inclusive) &&
      forall j :: 0 <= j < p.child ==> !Holds(cs, j, index, inclusive)
    ensures Find(cs, index, inclusive).None? ==>
      forall j :: 0 <= j < |cs| ==> !Holds(cs, j, index, inclusive)
  {
    FindFromSpec(cs, 0, index, index, inclusive);
  }

  lemma {:induction false} FindFromSpec(cs: seq<Blot>, k: nat, rest: nat, index: nat, inclusive: bool)
    requires k <= |cs| && Offset(cs, k) + rest == index
    requires forall j :: 0 <= j < k ==> !Holds(cs, j, index, inclusive)
    ensures FindFrom(cs, k, rest, inclusive).Some? ==>
      var p := FindFrom(cs, k, rest, inclusive).value;
      k <= p.child < |cs| && Offset(cs, p.child) + p.offset == index &&
      Holds(cs, p.child, index, inclusive) &&
      forall j :: 0 <= j < p.child ==> !Holds(cs, j, index, inclusive)
    ensures FindFrom(cs, k, rest, inclusive).None? ==>
      forall j :: 0 <= j < |cs| ==> !Holds(cs, j, index, inclusive)
    decreases |cs| - k
  {
    if k < |cs| {
      OffsetStep(cs, k);
      if !(rest < Length(cs[k]) || (inclusive && rest == Length(cs[k]))) {
        assert !Holds(cs, k, index, inclusive);
        forall j | 0 <= j < k + 1 ensures !Holds(cs, j, index, inclusive) {
        }
        FindFromSpec(cs, k + 1, rest - Length(cs[k]), index, inclusive);
      }
    }
  }

  /** Outside the inclusive mode, an index is found exactly when it is below
      the total length; in the inclusive mode, also at the very end, provided
      there is a child to end at. */
  lemma {:induction false} FindFromNone(cs: seq<Blot>, k: nat, rest: nat, inclusive: bool)
    requires k <= |cs|
    ensures FindFrom(cs, k, rest, inclusive).None? <==>
      if inclusive then k == |cs| || rest > Sum(cs[k..]) else rest >= Sum(cs[k..])
    decreases |cs| - k
  {
    if k < |cs| {
      assert cs[k..] == [cs[k]] + cs[k + 1..];
      SumCons(cs[k], cs[k + 1..]);
      if !(rest < Length(cs[k]) || (inclusive && rest == Length(cs[k]))) {
        FindFromNone(cs, k + 1, rest - Length(cs[k]), inclusive);
      }
    }
  }

  lemma FindNone(cs: seq<Blot>, index: nat, inclusive: bool)
    ensures Find(cs, index, inclusive).None? <==>
      if inclusive then cs == [] || index > Sum(cs) else index >= Sum(cs)
  {
    FindFromNone(cs, 0, index, inclusive);
    assert cs[0..] == cs;
  }

  /** The loop of `forEachAt(index, length, callback)`: starting at the child
      that holds `index`, hand each child the part of `[index, index + length)`
      that falls inside it, until a child starts at or after the range's end. */
  function ForEachAt(cs: seq<Blot>, index: nat, length: nat): seq<Slice>
  {
    if length == 0 then []
    else match Find(cs, index, false)
      case None => []
      case Some(p) =>
        FindSpec(cs, index, false);
        Visit(cs, p.child, index - p.offset, index, length)
  }

  function Visit(cs: seq<Blot>, k: nat, curIndex: nat, index: nat, length: nat): seq<Slice>
    requires k <= |cs| && curIndex == Offset(cs, k)
    requires k < |cs| ==> index < curIndex + Length(cs[k]) || index < curIndex
    decreases |cs| - k
  {
    if k == |cs| || curIndex >= index + length then []
    else
      var n := Length(cs[k]);
      OffsetStep(cs, k);
      [if index > curIndex then Slice(k, index - curIndex, Min(length, curIndex + n - index))
       else Slice(k, 0, Min(n, index + length - curIndex))]
      + Visit(cs, k + 1, curIndex + n, index, length)
  }

  /** Reference definition of the children a range touches: every child,
      in list order, whose own range meets `[index, index + length)`, with
      the intersection expressed relative to that child. */
  function Intersecting(cs: seq<Blot>, k: nat, index: nat, length: nat): seq<Slice>
    requires k <= |cs|
    decreases |cs| - k
  {
    if k == |cs| then []
    else
      var lo := Offset(cs, k);
      var hi := lo + Length(cs[k]);
      (if lo < index + length && index < hi
       then [Slice(k, Max(index, lo) - lo, Min(index + length, hi) - Max(index, lo))]
       else [])
      + Intersecting(cs, k + 1, index, length)
  }

  /** A list whose remaining children all start at or after the range's end
      touches nothing more. */
  lemma {:induction false} IntersectingPastEnd(cs: seq<Blot>, k: nat, index: nat, length: nat)
    requires k <= |cs| && Offset(cs, k) >= index + length
    ensures Intersecting(cs, k, index, length) == []
    decreases |cs| - k
  {
    if k < |cs| {
      OffsetStep(cs, k);
      IntersectingPastEnd(cs, k + 1, index, length);
    }
  }

  /** Children that end at or before `index` are not touched. */
  lemma {:induction false} IntersectingSkip(cs: seq<Blot>, k: nat, first: nat, index: nat, length: nat)
    requires k <= first <= |cs|
    requires forall j :: k <= j < first ==> Offset(cs, j) + Length(cs[j]) <= index
    ensures Intersecting(cs, k, index, length) == Intersecting(cs, first, index, length)
    decreases first - k
  {
    if k < first {
      IntersectingSkip(cs, k + 1, first, index, length);
    }
  }

  lemma {:induction false} VisitIsIntersecting(cs: seq<Blot>, k: nat, index: nat, length: nat)
    requires k <= |cs|
    requires k < |cs| ==> index < Offset(cs, k) + Length(cs[k]) || index < Offset(cs, k)
    ensures Visit(cs, k, Offset(cs, k), index, length) == Intersecting(cs, k, index, length)
    decreases |cs| - k
  {
    if k < |cs| {
      if Offset(cs, k) >= index + length {
        IntersectingPastEnd(cs, k, index, length);
      } else {
        OffsetStep(cs, k);
        VisitIsIntersecting(cs, k + 1, index, length);
      }
    }
  }

  /** `forEachAt` visits exactly the children the range touches, in order,
      each with its child-relative offset and sub-length. */
  lemma ForEachAtIsIntersecting(cs: seq<Blot>, index: nat, length: nat)
    requires length > 0
    ensures ForEachAt(cs, index, length) == Intersecting(cs, 0, index, length)
  {
    FindSpec(cs, index, false);
    match Find(cs, index, false)
    case None =>
      FindNone(cs, index, false);
      forall j | 0 <= j < |cs| ensures Offset(cs, j) + Length(cs[j]) <= index {
        OffsetStep(cs, j);
        OffsetMonotone(cs, j + 1, |cs|);
      }
      IntersectingSkip(cs, 0, |cs|, index, length);
    case Some(p) =>
      forall j | 0 <= j < p.child ensures Offset(cs, j) + Length(cs[j]) <= index {
        OffsetMonotone(cs, j, p.child);
        assert !Holds(cs, j, index, false);
      }
      IntersectingSkip(cs, 0, p.child, index, length);
      VisitIsIntersecting(cs, p.child, index, length);
  }

  /** Slice `s` stays inside its child and inside `[index, index + length)`. */
  ghost predicate Fits(cs: seq<Blot>, s: Slice, index: nat, length: nat)
    requires s.child < |cs|
  {
    s.offset + s.length <= Length(cs[s.child]) &&
    index <= Offset(cs, s.child) + s.offset &&
    Offset(cs, s.child) + s.offset + s.length <= index + length
  }

  /** Every slice names a child from `k` on and fits; the children appear in
      increasing order. */
  ghost predicate Placed(cs: seq<Blot>, r: seq<Slice>, k: nat, index: nat, length: nat) {
    (forall t :: 0 <= t < |r| ==> k <= r[t].child < |cs| && Fits(cs, r[t], index, length)) &&
    (forall t, u :: 0 <= t < u < |r| ==> r[t].child < r[u].child)
  }

  /** The slice `Intersecting` makes for a child that meets the range fits. */
  lemma HeadFits(cs: seq<Blot>, k: nat, index: nat, length: nat)
    requires k < |cs|
    requires Offset(cs, k) < index + length && index < Offset(cs, k) + Length(cs[k])
    ensures var lo := Offset(cs, k);
      var hi := lo + Length(cs[k]);
      Fits(cs, Slice(k, Max(index, lo) - lo, Min(index + length, hi) - Max(index, lo)), index, length)
  {
  }

  /** A slice for child `k` in front of slices placed from `k + 1` on. */
  lemma PlacedCons(cs: seq<Blot>, head: seq<Slice>, rest: seq<Slice>, k: nat, index: nat, length: nat)
    requires k < |cs| && |head| <= 1 && Placed(cs, rest, k + 1, index, length)
    requires head != [] ==> head[0].child == k && Fits(cs, head[0], index, length)
    ensures Placed(cs, head + rest, k, index, length)
  {
    var r := head + rest;
    if head != [] {
      forall t | 1 <= t < |r| ensures r[t] == rest[t - 1] {
      }
    } else {
      assert r == rest;
    }
  }

  lemma {:induction false} IntersectingWithin(cs: seq<Blot>, k: nat, index: nat, length: nat)
    requires k <= |cs|
    ensures Placed(cs, Intersecting(cs, k, index, length), k, index, length)
    decreases |cs| - k
  {
    if k < |cs| {
      IntersectingWithin(cs, k + 1, index, length);
      var lo := Offset(cs, k);
      var hi := lo + Length(cs[k]);
      var meets := lo < index + length && index < hi;
      var head := if meets
        then [Slice(k, Max(index, lo) - lo, Min(index + length, hi) - Max(index, lo))]
        else [];
      if meets {
        HeadFits(cs, k, index, length);
      }
      var rest := Intersecting(cs, k + 1, index, length);
      assert Intersecting(cs, k, index, length) == head + rest;
      PlacedCons(cs, head, rest, k, index, length);
    }
  }

  /** Every child whose range meets `[index, index + length)` is visited. */
  lemma {:induction false} IntersectingComplete(cs: seq<Blot>, k: nat, j: nat, index: nat, length: nat)
    requires k <= j < |cs|
    requires Offset(cs, j) < index + length && index < Offset(cs, j) + Length(cs[j])
    ensures exists t :: (0 <= t < |Intersecting(cs, k, index, length)| &&
                         Intersecting(cs, k, index, length)[t].child == j)
    decreases j - k
  {
    var r := Intersecting(cs, k, index, length);
    if k == j {
      assert r[0].child == j;
    } else {
      IntersectingComplete(cs, k + 1, j, index, length);
      var rest := Intersecting(cs, k + 1, index, length);
      var t :| 0 <= t < |rest| && rest[t].child == j;
      var d := |r| - |rest|;
      assert r[d + t] == rest[t];
    }
  }

  /** The children a walk from `k` visits are consecutive, from `k` on. */
  lemma {:induction false} VisitConsecutive(cs: seq<Blot>, k: nat, index: nat, length: nat)
    requires k <= |cs|
    requires k < |cs| ==> index < Offset(cs, k) + Length(cs[k]) || index < Offset(cs, k)
    ensures var r := Visit(cs, k, Offset(cs, k), index, length);
      k + |r| <= |cs| && forall t :: 0 <= t < |r| ==> r[t].child == k + t
    decreases |cs| - k
  {
    if k < |cs| && Offset(cs, k) < index + length {
      OffsetStep(cs, k);
      VisitConsecutive(cs, k + 1, index, length);
    }
  }

  /** The children `forEachAt` visits are consecutive in the list. */
  lemma ForEachAtConsecutive(cs: seq<Blot>, index: nat, length: nat)
    ensures var r := ForEachAt(cs, index, length);
      r != [] ==> r[0].child + |r| <= |cs| && forall t :: 0 <= t < |r| ==> r[t].child == r[0].child + t
  {
    if length > 0 && Find(cs, index, false).Some? {
      FindSpec(cs, index, false);
      VisitConsecutive(cs, Find(cs, index, false).value.child, index, length);
    }
  }

  /** The first child a walk visits, when it holds `index`, gets the part of
      the range from its local offset on. */
  lemma VisitFirst(cs: seq<Blot>, k: nat, index: nat, length: nat)
    requires k < |cs| && Offset(cs, k) <= index < Offset(cs, k) + Length(cs[k]) && length > 0
    ensures Offset(cs, k + 1) == Offset(cs, k) + Length(cs[k])
    ensures var r := Visit(cs, k, Offset(cs, k), index, length);
      r != [] && r[0].child == k && r[0].offset == index - Offset(cs, k) &&
      r[1..] == Visit(cs, k + 1, Offset(cs, k + 1), index, length)
  {
    OffsetStep(cs, k);
  }

  /** Once the walk is past `index` and the range reaches beyond the last
      child, every remaining child is visited whole: from its start. */
  lemma {:induction false} VisitTail(cs: seq<Blot>, k: nat, index: nat, length: nat)
    requires k <= |cs| && index < Offset(cs, k) && Sum(cs) < index + length
    ensures var r := Visit(cs, k, Offset(cs, k), index, length);
      |r| == |cs| - k && forall t :: 0 <= t < |r| ==> r[t].child == k + t && r[t].offset == 0
    decreases |cs| - k
  {
    if k < |cs| {
      OffsetMonotone(cs, k, |cs|);
      OffsetStep(cs, k);
      VisitTail(cs, k + 1, index, length);
    }
  }

  /** The position of the first occurrence of `b` among the children, if any. */
  function IndexOf(cs: seq<Blot>, b: Blot): (r: Option<nat>)
    ensures r.Some? ==> (r.value < |cs| && cs[r.value] == b &&
                         forall j :: 0 <= j < r.value ==> cs[j] != b)
    ensures r.None? ==> forall j :: 0 <= j < |cs| ==> cs[j] != b
  {
    if cs == [] then None
    else if cs[0] == b then Some(0)
    else match IndexOf(cs[1..], b)
      case None => None
      case Some(i) => Some(i + 1)
  }
}
