/**
 What a complete report means in terms of the category forest itself: the deep counters of a slot are the totals of
 the category it reports, children and all.
 */
module CategoryTotals {
  import opened MachineIntegers
  import opened CategorySums
  import opened CategoryForest
  import opened CategoryTables
  import opened CategoryLinks
  import opened CategoryCounters
  import opened CategoryReport

  datatype Counter = OfBytes | OfAllocations

  function Shallow(c: Category, what: Counter): nat {
    match what
    case OfBytes => c.liveBytes
    case OfAllocations => c.liveAllocations
  }

  /** The total of a list of categories and everything below them. */
  ghost function TotalOf(cs: seq<Category>, what: Counter): nat {
    if cs == [] then 0
    else Shallow(cs[0], what) + TotalOf(cs[0].children, what) + TotalOf(cs[1..], what)
  }

  /** The i-th category of the walk. */
  ghost function Visited(cs: seq<Category>, i: nat): Category
    requires i < Count(cs)
  {
    var below := Count(cs[0].children);
    if i == 0 then cs[0]
    else if i <= below then Visited(cs[0].children, i - 1)
    else Visited(cs[1..], i - 1 - below)
  }

  /** The shallow counters in walk order, in the width of the report's fields. */
  ghost function Values(cs: seq<Category>, what: Counter): (v: seq<int>)
    ensures |v| == Count(cs)
  {
    if cs == [] then []
    else [ToInt64(Shallow(cs[0], what))] + Values(cs[0].children, what) + Values(cs[1..], what)
  }

  ghost function SumRange(v: seq<int>, lo: nat, hi: nat): int
    requires lo <= hi <= |v|
  {
    if lo == hi then 0 else SumRange(v, lo, hi - 1) + v[hi - 1]
  }

  lemma {:induction false} SumRangeSplits(v: seq<int>, lo: nat, mid: nat, hi: nat)
    requires lo <= mid <= hi <= |v|
    ensures SumRange(v, lo, hi) == SumRange(v, lo, mid) + SumRange(v, mid, hi)
  {
    if mid < hi { SumRangeSplits(v, lo, mid, hi - 1); }
  }

  lemma {:induction false} SumOverRange(v: seq<int>, s: set<int>, lo: nat, hi: nat, n: nat)
    requires lo <= hi <= |v| && n <= |v| && forall k :: 0 <= k < |v| ==> (k in s <==> lo <= k < hi)
    ensures SumOver(v, s, n) == if n <= lo then 0 else SumRange(v, lo, if n < hi then n else hi)
  {
    if n > 0 { SumOverRange(v, s, lo, hi, n - 1); }
  }

  /** The siblings `cs` have slots from `at` on, and `par` holds their parents. */
  ghost predicate HasParents(par: seq<int>, cs: seq<Category>, at: nat, q: int) {
    at + Count(cs) <= |par| && par[at..at + Count(cs)] == ParentSlots(cs, at, q)
  }

  /** The siblings `cs` have slots from `at` on, and `v` holds their shallow counters. */
  ghost predicate HasValues(v: seq<int>, cs: seq<Category>, at: nat, what: Counter) {
    at + Count(cs) <= |v| && v[at..at + Count(cs)] == Values(cs, what)
  }

  lemma ParentsSplit(par: seq<int>, cs: seq<Category>, at: nat, q: int)
    requires HasParents(par, cs, at, q) && cs != []
    ensures par[at] == q && HasParents(par, cs[0].children, at + 1, at)
    ensures HasParents(par, cs[1..], at + 1 + Count(cs[0].children), q)
  {
    var rest := at + 1 + Count(cs[0].children);
    var below, after := ParentSlots(cs[0].children, at + 1, at), ParentSlots(cs[1..], rest, q);
    assert par[at..at + 1 + |below| + |after|] == [q] + below + after;
    SplitSlice(par, at, q, below, after);
  }

  lemma ValuesSplit(v: seq<int>, cs: seq<Category>, at: nat, what: Counter)
    requires HasValues(v, cs, at, what) && cs != []
    ensures v[at] == ToInt64(Shallow(cs[0], what)) && HasValues(v, cs[0].children, at + 1, what)
    ensures HasValues(v, cs[1..], at + 1 + Count(cs[0].children), what)
  {
    SplitSlice(v, at, ToInt64(Shallow(cs[0], what)), Values(cs[0].children, what), Values(cs[1..], what));
  }

  /** Inside a list of siblings, parents are the common one or lie inside the list too. */
  lemma {:induction false} ParentsInside(par: seq<int>, cs: seq<Category>, at: nat, q: int)
    requires HasParents(par, cs, at, q)
    ensures forall k :: at <= k < at + Count(cs) ==> par[k] == q || at <= par[k]
  {
    if cs != [] {
      ParentsSplit(par, cs, at, q);
      ParentsInside(par, cs[0].children, at + 1, at);
      ParentsInside(par, cs[1..], at + 1 + Count(cs[0].children), q);
    }
  }

  /** Equal modulo 2^64. */
  ghost predicate Same(a: int, b: int) {
    ToInt64(a) == ToInt64(b)
  }

  lemma AddSame(a: int, b: int, a': int, b': int)
    requires Same(a, a') && Same(b, b')
    ensures Same(a + b, a' + b')
  {
    WrapBoth(a, b);
    WrapBoth(a', b');
  }

  /** The values in a range that starts with `x` and goes on with the ranges of two lists. */
  lemma RangeOfThree(v: seq<int>, at: nat, rest: nat, end: nat, x: int, below: int, after: int)
    requires at < rest <= end <= |v| && v[at] == ToInt64(x)
    requires Same(SumRange(v, at + 1, rest), below) && Same(SumRange(v, rest, end), after)
    ensures Same(SumRange(v, at, rest), x + below) && Same(SumRange(v, at, end), x + below + after)
  {
    SumRangeSplits(v, at, at + 1, rest);
    SumRangeSplits(v, at, rest, end);
    assert SumRange(v, at, at + 1) == v[at];
    AddSame(v[at], SumRange(v, at + 1, rest), x, below);
    AddSame(SumRange(v, at, rest), SumRange(v, rest, end), x + below, after);
  }

  lemma {:induction false} RangeValues(v: seq<int>, cs: seq<Category>, at: nat, what: Counter, end: nat)
    requires HasValues(v, cs, at, what) && end == at + Count(cs)
    ensures Same(SumRange(v, at, end), TotalOf(cs, what))
    decreases cs
  {
    if cs != [] {
      var rest := at + 1 + Count(cs[0].children);
      ValuesSplit(v, cs, at, what);
      RangeValues(v, cs[0].children, at + 1, what, rest);
      RangeValues(v, cs[1..], rest, what, end);
      RangeOfThree(v, at, rest, end, Shallow(cs[0], what), TotalOf(cs[0].children, what), TotalOf(cs[1..], what));
    }
  }

  /** A stretch of slots that starts with `p` and that no later slot's parent lies in is the subtree of `p`. */
  lemma {:induction false} StretchIsSubtree(par: seq<int>, p: nat, end: nat, k: int)
    requires Forest(par) && p < end <= |par| && 0 <= k < |par|
    requires forall j :: p < j < end ==> p <= par[j]
    requires forall j :: end <= j < |par| ==> par[j] < p || end <= par[j]
    ensures Above(par, k, p) <==> p <= k < end
    decreases k
  {
    if k < p {
      if Above(par, k, p) { AboveIsLower(par, k, p); }
    } else if k != p && par[k] >= p {
      StretchIsSubtree(par, p, end, par[k]);
    } else if k != p && Above(par, par[k], p) {
      AboveIsLower(par, par[k], p);
    }
  }

  lemma StretchTotal(v: seq<int>, cs: seq<Category>, at: nat, what: Counter)
    requires HasValues(v, cs, at, what) && cs != []
    ensures Same(SumRange(v, at, at + 1 + Count(cs[0].children)), TotalOf([cs[0]], what))
  {
    var rest := at + 1 + Count(cs[0].children);
    ValuesSplit(v, cs, at, what);
    RangeValues(v, cs[0].children, at + 1, what, rest);
    RangeOfThree(v, at, rest, rest, Shallow(cs[0], what), TotalOf(cs[0].children, what), 0);
    assert TotalOf([cs[0]], what) == Shallow(cs[0], what) + TotalOf(cs[0].children, what);
  }

  /** No slot from `hi` on has its parent between `lo` and `hi`. */
  ghost predicate Closed(par: seq<int>, lo: nat, hi: nat) {
    forall j :: hi <= j < |par| ==> par[j] < lo || hi <= par[j]
  }

  lemma ClosedSplits(par: seq<int>, at: nat, rest: nat, end: nat, q: int)
    requires q < at < rest <= end <= |par| && Closed(par, at, end)
    requires forall k :: rest <= k < end ==> par[k] == q || rest <= par[k]
    ensures Closed(par, at, rest) && Closed(par, at + 1, rest) && Closed(par, rest, end)
  {
  }

  lemma SubtreeIsStretch(par: seq<int>, cs: seq<Category>, at: nat, q: int)
    requires HasParents(par, cs, at, q) && cs != [] && Forest(par)
    requires Closed(par, at, at + 1 + Count(cs[0].children))
    ensures forall k :: 0 <= k < |par| ==> (k in Subtree(par, at) <==> at <= k < at + 1 + Count(cs[0].children))
  {
    var end := at + 1 + Count(cs[0].children);
    ParentsSplit(par, cs, at, q);
    ParentsInside(par, cs[0].children, at + 1, at);
    forall k | 0 <= k < |par| ensures k in Subtree(par, at) <==> at <= k < end { StretchIsSubtree(par, at, end, k); }
  }

  lemma SubtreeTotal(par: seq<int>, v: seq<int>, cs: seq<Category>, at: nat, q: int, what: Counter)
    requires HasParents(par, cs, at, q) && HasValues(v, cs, at, what) && |v| == |par| && cs != [] && Forest(par)
    requires Closed(par, at, at + 1 + Count(cs[0].children))
    ensures Same(SumOver(v, Subtree(par, at), |v|), TotalOf([cs[0]], what))
  {
    SubtreeIsStretch(par, cs, at, q);
    SumOverRange(v, Subtree(par, at), at, at + 1 + Count(cs[0].children), |v|);
    StretchTotal(v, cs, at, what);
  }

  /** The siblings `cs` are in place, and nothing after them lies below them. */
  ghost predicate Place(par: seq<int>, v: seq<int>, cs: seq<Category>, at: nat, q: int, what: Counter) {
    && HasParents(par, cs, at, q) && HasValues(v, cs, at, what)
    && q < at && Closed(par, at, at + Count(cs))
  }

  lemma PlaceSplits(par: seq<int>, v: seq<int>, cs: seq<Category>, at: nat, q: int, what: Counter, rest: nat)
    requires Place(par, v, cs, at, q, what) && cs != [] && rest == at + 1 + Count(cs[0].children)
    ensures Place(par, v, cs[0].children, at + 1, at, what) && Place(par, v, cs[1..], rest, q, what)
    ensures Closed(par, at, rest)
  {
    ParentsSplit(par, cs, at, q);
    ParentsInside(par, cs[1..], rest, q);
    ClosedSplits(par, at, rest, at + Count(cs), q);
    ValuesSplit(v, cs, at, what);
  }

  /** The values at and below `slot` add up to the total of `c`. */
  ghost predicate Holds(par: seq<int>, v: seq<int>, slot: nat, c: Category, what: Counter)
    requires Forest(par)
  {
    Same(SumOver(v, Subtree(par, slot), |v|), TotalOf([c], what))
  }

  lemma {:induction false} EverySubtreeTotal(par: seq<int>, v: seq<int>, cs: seq<Category>, at: nat, q: int, what: Counter,
                                             i: nat, slot: nat)
    requires Place(par, v, cs, at, q, what) && |v| == |par| && Forest(par)
    requires i < Count(cs) && slot == at + i
    ensures Holds(par, v, slot, Visited(cs, i), what)
    decreases cs
  {
    var below := Count(cs[0].children);
    var rest := at + 1 + below;
    PlaceSplits(par, v, cs, at, q, what, rest);
    if i == 0 {
      SubtreeTotal(par, v, cs, at, q, what);
    } else if i <= below {
      EverySubtreeTotal(par, v, cs[0].children, at + 1, at, what, i - 1, slot);
    } else {
      EverySubtreeTotal(par, v, cs[1..], rest, q, what, i - 1 - below, slot);
    }
  }

  /** The category of a visit, wherever in the walk. */
  ghost predicate Shows(v: Visit, c: Category) {
    v.name == c.name && v.liveBytes == c.liveBytes && v.liveAllocations == c.liveAllocations
  }

  lemma {:induction false} VisitsShow(cs: seq<Category>, isRoot: bool, pc: int, i: nat)
    requires i < Count(cs)
    ensures Shows(Visits(cs, isRoot, pc)[i], Visited(cs, i))
    decreases cs
  {
    var below := Count(cs[0].children);
    PickFrom(VisitOf(cs[0], isRoot, pc), Visits(cs[0].children, false, cs[0].code), Visits(cs[1..], isRoot, pc), i);
    if 0 < i <= below {
      VisitsShow(cs[0].children, false, cs[0].code, i - 1);
    } else if below < i {
      VisitsShow(cs[1..], isRoot, pc, i - 1 - below);
    }
  }

  lemma {:induction false} ValuesShow(cs: seq<Category>, what: Counter, i: nat)
    requires i < Count(cs)
    ensures Values(cs, what)[i] == ToInt64(Shallow(Visited(cs, i), what))
    decreases cs
  {
    var below := Count(cs[0].children);
    PickFrom(ToInt64(Shallow(cs[0], what)), Values(cs[0].children, what), Values(cs[1..], what), i);
    if 0 < i <= below {
      ValuesShow(cs[0].children, what, i - 1);
    } else if below < i {
      ValuesShow(cs[1..], what, i - 1 - below);
    }
  }

  lemma ReportedValues(roots: seq<Category>)
    ensures var vs, n := Visits(roots, true, 0), Count(roots);
            Values(roots, OfBytes) == Bytes(vs, n) && Values(roots, OfAllocations) == Allocations(vs, n)
  {
    var vs, n := Visits(roots, true, 0), Count(roots);
    forall k | 0 <= k < n
      ensures Values(roots, OfBytes)[k] == Bytes(vs, n)[k] && Values(roots, OfAllocations)[k] == Allocations(vs, n)[k]
    {
      VisitsShow(roots, true, 0, k);
      ValuesShow(roots, OfBytes, k);
      ValuesShow(roots, OfAllocations, k);
    }
  }

  /**
   A report that holds the whole forest of tables that are not confused: slot i names the i-th category of the walk, and
   its deep counters are the totals of that category's tree.
   */
  lemma CompleteReportsHoldTreeTotals(b: seq<MemoryCategory>, base: int, p: Port, roots: seq<Category>, i: nat)
    requires p.Valid() && Walks(p, roots) && !Confused(p)
    requires Reports(b, base, roots, Count(roots)) && i < Count(roots)
    ensures b[i].name == Visited(roots, i).name
    ensures b[i].liveBytesDeep == ToInt64(TotalOf([Visited(roots, i)], OfBytes))
    ensures b[i].liveAllocationsDeep == ToInt64(TotalOf([Visited(roots, i)], OfAllocations))
  {
    UnconfusedReportsAreTrue(p, roots, Count(roots));
    VisitsShow(roots, true, 0, i);
    ReportedValues(roots);
    TotalOfSlot(roots, OfBytes, i);
    TotalOfSlot(roots, OfAllocations, i);
    ReportedSumsAreSubtreeSums(b, base, roots, Count(roots), i);
  }

  lemma TotalOfSlot(roots: seq<Category>, what: Counter, i: nat)
    requires i < Count(roots) && Forest(TrueParents(roots, Count(roots)))
    ensures Holds(TrueParents(roots, Count(roots)), Values(roots, what), i, Visited(roots, i), what)
  {
    WholeIsPlaced(roots, what);
    EverySubtreeTotal(TrueParents(roots, Count(roots)), Values(roots, what), roots, 0, NIL, what, i, i);
  }

  lemma WholeIsPlaced(roots: seq<Category>, what: Counter)
    ensures HasParents(TrueParents(roots, Count(roots)), roots, 0, NIL) && HasValues(Values(roots, what), roots, 0, what)
  {
    assert ParentSlots(roots, 0, NIL)[..Count(roots)] == ParentSlots(roots, 0, NIL);
    assert TrueParents(roots, Count(roots))[0..0 + Count(roots)] == ParentSlots(roots, 0, NIL);
    assert Values(roots, what)[0..0 + Count(roots)] == Values(roots, what);
  }
}
