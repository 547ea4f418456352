/** The deep counters of omr/OMR_TI.cpp, accumulated by recursion along the child and sibling links. */
module CategoryCounters {
  import opened MachineIntegers
  import opened CategorySums
  import opened CategoryLinks

  // ---------- Following the links ----------

  /** The children of `p` from slot `lo` on, in walk order. */
  ghost function ChildrenOf(par: seq<int>, p: int, lo: nat): seq<int>
    decreases |par| - lo
  {
    if lo >= |par| then [] else (if par[lo] == p then [lo] else []) + ChildrenOf(par, p, lo + 1)
  }

  /** The slots met by following `nextSibling` from `cursor`; the chain always ends. */
  ghost function Chain(b: seq<MemoryCategory>, par: seq<int>, cursor: int): seq<int>
    requires Threaded(b, par) && NIL <= cursor < |par|
    decreases if cursor == NIL then 0 else |par| - cursor
  {
    if cursor == NIL then [] else [cursor] + Chain(b, par, b[cursor].nextSibling)
  }

  lemma {:induction false} ChainFrom(b: seq<MemoryCategory>, par: seq<int>, p: nat, lo: nat)
    requires Threaded(b, par)
    ensures Chain(b, par, NextChild(par, p, lo, |par|)) == ChildrenOf(par, p, lo)
    decreases |par| - lo
  {
    if lo < |par| { ChainFrom(b, par, p, lo + 1); }
  }

  lemma {:induction false} ChildrenInOrder(par: seq<int>, p: int, lo: nat)
    ensures var cs := ChildrenOf(par, p, lo);
            && (forall k :: k in cs <==> lo <= k < |par| && par[k] == p)
            && (forall x, y :: 0 <= x < y < |cs| ==> cs[x] < cs[y])
    decreases |par| - lo
  {
    if lo < |par| {
      ChildrenInOrder(par, p, lo + 1);
      var later := ChildrenOf(par, p, lo + 1);
      if par[lo] == p {
        assert ChildrenOf(par, p, lo) == [lo] + later;
        assert forall y :: 0 <= y < |later| ==> later[y] in later;
      } else {
        assert ChildrenOf(par, p, lo) == later;
      }
    }
  }

  /**
   From `firstChild` along `nextSibling`: exactly the slots whose parent is `p`, once each, in walk order.
   */
  lemma ChainListsTheChildren(b: seq<MemoryCategory>, par: seq<int>, p: nat)
    requires Threaded(b, par) && p < |par|
    ensures var cs := Chain(b, par, b[p].firstChild);
            && (forall k :: k in cs <==> 0 <= k < |par| && b[k].parent == p)
            && (forall x, y :: 0 <= x < y < |cs| ==> cs[x] < cs[y])
  {
    ChainFrom(b, par, p, 0);
    ChildrenInOrder(par, p, 0);
  }

  // ---------- Accumulating ----------

  /** The links are those of `par` and the shallow counters those of `bytes` and `allocs`. */
  ghost predicate Linked(b: seq<MemoryCategory>, par: seq<int>, bytes: seq<int>, allocs: seq<int>) {
    && Linkable(par) && |bytes| == |allocs| == |par| && Threaded(b, par)
    && forall k {:trigger b[k]} :: 0 <= k < |par| ==> b[k].liveBytesShallow == bytes[k] && b[k].liveAllocationsShallow == allocs[k]
  }

  ghost predicate Accumulated(c: MemoryCategory, par: seq<int>, bytes: seq<int>, allocs: seq<int>, k: nat, hi: nat)
    requires Linkable(par) && |bytes| == |allocs| == |par| && k < |par| && hi <= |par|
  {
    c.liveBytesDeep == Deep(par, bytes, k, hi) && c.liveAllocationsDeep == Deep(par, allocs, k, hi)
  }

  function WithDeep(c: MemoryCategory, bytes: int, allocations: int): MemoryCategory {
    c.(liveBytesDeep := bytes, liveAllocationsDeep := allocations)
  }

  ghost predicate OnlyDeepChanged(b: seq<MemoryCategory>, before: seq<MemoryCategory>, where: set<int>) {
    && |b| == |before|
    && (forall k {:trigger b[k]} :: 0 <= k < |b| ==> b[k] == WithDeep(before[k], b[k].liveBytesDeep, b[k].liveAllocationsDeep))
    && (forall k {:trigger b[k]} :: 0 <= k < |b| && k !in where ==> b[k] == before[k])
  }

  ghost predicate AllAccumulated(b: seq<MemoryCategory>, par: seq<int>, bytes: seq<int>, allocs: seq<int>, where: set<int>)
    requires Linkable(par) && |bytes| == |allocs| == |par| <= |b|
  {
    forall k {:trigger b[k]} :: 0 <= k < |par| && k in where ==> Accumulated(b[k], par, bytes, allocs, k, |par|)
  }

  lemma LinkedSurvives(b: seq<MemoryCategory>, before: seq<MemoryCategory>, where: set<int>,
                       par: seq<int>, bytes: seq<int>, allocs: seq<int>)
    requires Linked(before, par, bytes, allocs) && OnlyDeepChanged(b, before, where)
    ensures Linked(b, par, bytes, allocs)
  {
  }

  /** Slots that are not children of `c` add nothing to it. */
  lemma {:induction false} SkipToChild(par: seq<int>, v: seq<int>, c: nat, lo: nat, hi: nat)
    requires Linkable(par) && |v| == |par| && c < lo <= hi <= |par|
    requires forall k :: lo <= k < hi ==> par[k] != c
    ensures Deep(par, v, c, hi) == Deep(par, v, c, lo)
    ensures Covered(par, c, hi) == Covered(par, c, lo)
  {
    if lo < hi { SkipToChild(par, v, c, lo, hi - 1); }
  }

  ghost predicate CounterInvariant(b: seq<MemoryCategory>, before: seq<MemoryCategory>,
                                   par: seq<int>, bytes: seq<int>, allocs: seq<int>, c: nat, lo: nat)
    requires Linked(before, par, bytes, allocs) && c < |par| && lo <= |par|
  {
    && OnlyDeepChanged(b, before, {c} + Covered(par, c, lo))
    && Accumulated(b[c], par, bytes, allocs, c, lo)
    && AllAccumulated(b, par, bytes, allocs, Covered(par, c, lo))
  }

  /** What one call promises: the subtree of `c` is final and the parent has received its totals. */
  ghost predicate Filled(b: seq<MemoryCategory>, before: seq<MemoryCategory>,
                         par: seq<int>, bytes: seq<int>, allocs: seq<int>, c: nat)
    requires Linked(before, par, bytes, allocs) && c < |par|
  {
    && OnlyDeepChanged(b, before, {par[c]} + Subtree(par, c))
    && AllAccumulated(b, par, bytes, allocs, Subtree(par, c))
    && (par[c] != NIL ==>
          && b[par[c]].liveBytesDeep == Add64(before[par[c]].liveBytesDeep, Deep(par, bytes, c, |par|))
          && b[par[c]].liveAllocationsDeep == Add64(before[par[c]].liveAllocationsDeep, Deep(par, allocs, c, |par|)))
  }

  lemma OnlyDeepComposes(b: seq<MemoryCategory>, mid: seq<MemoryCategory>, before: seq<MemoryCategory>,
                         late: set<int>, early: set<int>, where: set<int>)
    requires OnlyDeepChanged(b, mid, late) && OnlyDeepChanged(mid, before, early) && late + early <= where
    ensures OnlyDeepChanged(b, before, where)
  {
  }

  lemma AccumulatedStays(b: seq<MemoryCategory>, mid: seq<MemoryCategory>, par: seq<int>, bytes: seq<int>, allocs: seq<int>,
                         changed: set<int>, kept: set<int>, gained: set<int>)
    requires Linkable(par) && |bytes| == |allocs| == |par| <= |b|
    requires OnlyDeepChanged(b, mid, changed) && changed !! kept
    requires AllAccumulated(mid, par, bytes, allocs, kept) && AllAccumulated(b, par, bytes, allocs, gained)
    ensures AllAccumulated(b, par, bytes, allocs, kept + gained)
  {
    forall k | 0 <= k < |par| && k in kept + gained ensures Accumulated(b[k], par, bytes, allocs, k, |par|) {
      if k in kept { assert b[k] == mid[k]; }
    }
  }

  lemma AccumulatedStep(after: MemoryCategory, now: MemoryCategory, par: seq<int>, bytes: seq<int>, allocs: seq<int>,
                        c: nat, child: nat)
    requires Linkable(par) && |bytes| == |allocs| == |par| && c < child < |par| && par[child] == c
    requires Accumulated(now, par, bytes, allocs, c, child)
    requires after.liveBytesDeep == Add64(now.liveBytesDeep, Deep(par, bytes, child, |par|))
    requires after.liveAllocationsDeep == Add64(now.liveAllocationsDeep, Deep(par, allocs, child, |par|))
    ensures Accumulated(after, par, bytes, allocs, c, child + 1)
  {
  }

  /** Adding one finished child to the running totals. */
  lemma ChildAdds(b: seq<MemoryCategory>, mid: seq<MemoryCategory>, before: seq<MemoryCategory>,
                  par: seq<int>, bytes: seq<int>, allocs: seq<int>, c: nat, lo: nat, child: nat)
    requires Linked(before, par, bytes, allocs) && c < lo <= child < |par| && par[child] == c
    requires forall k :: lo <= k < child ==> par[k] != c
    requires CounterInvariant(mid, before, par, bytes, allocs, c, lo)
    requires Linked(mid, par, bytes, allocs) && Filled(b, mid, par, bytes, allocs, child)
    ensures CounterInvariant(b, before, par, bytes, allocs, c, child + 1)
  {
    SkipToChild(par, bytes, c, lo, child);
    SkipToChild(par, allocs, c, lo, child);
    SiblingsAreApart(par, c, child);
    var done, mine := Covered(par, c, child), Subtree(par, child);
    assert Covered(par, c, child + 1) == done + mine;
    OnlyDeepComposes(b, mid, before, {c} + mine, {c} + done, {c} + (done + mine));
    AccumulatedStays(b, mid, par, bytes, allocs, {c} + mine, done, mine);
    AccumulatedStep(b[c], mid[c], par, bytes, allocs, c, child);
  }

  lemma LastChildDone(b: seq<MemoryCategory>, before: seq<MemoryCategory>,
                      par: seq<int>, bytes: seq<int>, allocs: seq<int>, c: nat, lo: nat)
    requires Linked(before, par, bytes, allocs) && c < lo <= |par| && par[c] != c
    requires forall k :: lo <= k < |par| ==> par[k] != c
    requires CounterInvariant(b, before, par, bytes, allocs, c, lo)
    ensures OnlyDeepChanged(b, before, Subtree(par, c))
    ensures AllAccumulated(b, par, bytes, allocs, Subtree(par, c))
    ensures par[c] !in Subtree(par, c)
  {
    SkipToChild(par, bytes, c, lo, |par|);
    SkipToChild(par, allocs, c, lo, |par|);
    CoveredIsBelow(par, c);
    assert {c} + Covered(par, c, |par|) == Subtree(par, c);
    if par[c] in Subtree(par, c) { AboveIsLower(par, par[c], c); }
  }

  method FillInCategoryDeepCounters(buffer: array<MemoryCategory>, c: nat,
                                    ghost par: seq<int>, ghost bytes: seq<int>, ghost allocs: seq<int>)
    requires Linked(buffer[..], par, bytes, allocs) && c < |par| && par[c] != c
    modifies buffer
    ensures Filled(buffer[..], old(buffer[..]), par, bytes, allocs, c)
    decreases |par| - c, 1
  {
    ghost var before := buffer[..];
    StartCounters(buffer, c, par, bytes, allocs);
    var childCursor := buffer[c].firstChild;
    ghost var lo := c + 1;
    FirstChildIsLater(par, c);
    while childCursor != NIL
      invariant c < lo <= |par| && childCursor == NextChild(par, c, lo, |par|)
      invariant buffer.Length == |before| && CounterInvariant(buffer[..], before, par, bytes, allocs, c, lo)
      decreases |par| - lo
    {
      ghost var child := childCursor;
      childCursor := AddChild(buffer, c, childCursor, before, par, bytes, allocs, lo);
      lo := child + 1;
    }
    NextChildSkips(par, c, lo, |par|);
    LastChildDone(buffer[..], before, par, bytes, allocs, c, lo);
    PassBack(buffer, c, before, par, bytes, allocs);
  }

  /** One turn of the loop over the children of `c`. */
  method AddChild(buffer: array<MemoryCategory>, ghost c: nat, child: nat, ghost before: seq<MemoryCategory>,
                  ghost par: seq<int>, ghost bytes: seq<int>, ghost allocs: seq<int>, ghost lo: nat)
    returns (next: int)
    requires Linked(before, par, bytes, allocs) && c < lo <= |par|
    requires child == NextChild(par, c, lo, |par|)
    requires CounterInvariant(buffer[..], before, par, bytes, allocs, c, lo)
    modifies buffer
    ensures CounterInvariant(buffer[..], before, par, bytes, allocs, c, child + 1)
    ensures next == NextChild(par, c, child + 1, |par|)
    decreases |par| - c, 0
  {
    ghost var mid := buffer[..];
    LinkedSurvives(mid, before, {c} + Covered(par, c, lo), par, bytes, allocs);
    NextChildSkips(par, c, lo, |par|);
    FillInCategoryDeepCounters(buffer, child, par, bytes, allocs);
    ChildAdds(buffer[..], mid, before, par, bytes, allocs, c, lo, child);
    assert buffer[..][child].nextSibling == mid[child].nextSibling == NextSibling(par, child, |par|);
    next := buffer[child].nextSibling;
  }

  lemma FirstChildIsLater(par: seq<int>, c: nat)
    requires Linkable(par) && c < |par| && par[c] != c
    ensures NextChild(par, c, 0, |par|) == NextChild(par, c, c + 1, |par|)
  {
    NextChildSkips(par, c, 0, |par|);
    NextChildSkips(par, c, c + 1, |par|);
  }

  method StartCounters(buffer: array<MemoryCategory>, c: nat,
                       ghost par: seq<int>, ghost bytes: seq<int>, ghost allocs: seq<int>)
    requires Linked(buffer[..], par, bytes, allocs) && c < |par|
    modifies buffer
    ensures CounterInvariant(buffer[..], old(buffer[..]), par, bytes, allocs, c, c + 1)
    ensures buffer[c].firstChild == old(buffer[c].firstChild)
  {
    buffer[c] := buffer[c].(liveBytesDeep := buffer[c].liveBytesShallow);
    buffer[c] := buffer[c].(liveAllocationsDeep := buffer[c].liveAllocationsShallow);
    NoEarlyChild(par, c, c + 1);
  }

  /** The end of a call: the finished totals of `c` go into its parent's, whose field is outside the subtree of `c`. */
  method PassBack(buffer: array<MemoryCategory>, c: nat, ghost before: seq<MemoryCategory>,
                  ghost par: seq<int>, ghost bytes: seq<int>, ghost allocs: seq<int>)
    requires Linked(before, par, bytes, allocs) && c < |par| && |before| == buffer.Length
    requires OnlyDeepChanged(buffer[..], before, Subtree(par, c))
    requires AllAccumulated(buffer[..], par, bytes, allocs, Subtree(par, c))
    requires par[c] !in Subtree(par, c)
    modifies buffer
    ensures Filled(buffer[..], before, par, bytes, allocs, c)
  {
    assert c in Subtree(par, c);
    var parent := buffer[c].parent;
    if parent != NIL {
      buffer[parent] := buffer[parent].(liveBytesDeep := Add64(buffer[parent].liveBytesDeep, buffer[c].liveBytesDeep));
      buffer[parent] := buffer[parent].(
        liveAllocationsDeep := Add64(buffer[parent].liveAllocationsDeep, buffer[c].liveAllocationsDeep));
    }
  }
}
