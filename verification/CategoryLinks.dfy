/**
 The sibling pass of omr/OMR_TI.cpp over the report buffer: child and sibling lists are threaded in place, with
 `liveBytesDeep` on loan as a tail pointer.
 */
module CategoryLinks {
  import opened MachineIntegers
  import opened CategorySums

  /** A slot of the caller's buffer. Pointers into the buffer are slot numbers, NULL is NIL. */
  datatype MemoryCategory = MemoryCategory(
    name: string,
    liveBytesShallow: int, liveBytesDeep: int,
    liveAllocationsShallow: int, liveAllocationsDeep: int,
    firstChild: int, nextSibling: int, parent: int)

  /** A slot after memset. */
  const EMPTY := MemoryCategory("", 0, 0, 0, 0, NIL, NIL, NIL)

  // ---------- Pointers kept in an integer field ----------

  const SLOT_BYTES: int := 64

  /** The buffer's addresses are those of a real allocation: not NULL, and inside the address space. */
  predicate Addressable(base: int, slots: nat) {
    0 < base && base + slots * SLOT_BYTES <= TWO_64
  }

  /** A slot pointer cast to `int64_t`. */
  function AsInteger(base: int, slot: int): int {
    if slot == NIL then 0 else ToInt64(base + slot * SLOT_BYTES)
  }

  /** An `int64_t` cast to a slot pointer. */
  function AsPointer(base: int, x: int): int {
    if x == 0 then NIL else (ToUint64(x) - base) / SLOT_BYTES
  }

  lemma PointerSurvivesTheCast(base: int, slot: int, slots: nat)
    requires Addressable(base, slots) && NIL <= slot < slots
    ensures AsPointer(base, AsInteger(base, slot)) == slot
    ensures AsInteger(base, slot) == 0 <==> slot == NIL
  {
    if slot != NIL {
      Int64RoundTrip(base + slot * SLOT_BYTES);
    }
  }

  // ---------- Child and sibling lists ----------

  /** The first child of `p` among the slots from `lo` up to `hi`. */
  ghost function NextChild(par: seq<int>, p: int, lo: nat, hi: nat): (j: int)
    requires hi <= |par|
    ensures j == NIL || (lo <= j < hi && par[j] == p)
    decreases hi - lo
  {
    if lo >= hi then NIL else if par[lo] == p then lo else NextChild(par, p, lo + 1, hi)
  }

  /** The last child of `p` among the slots below `hi`. */
  ghost function LastChild(par: seq<int>, p: int, hi: nat): (j: int)
    requires hi <= |par|
    ensures NIL <= j < hi && (j != NIL ==> par[j] == p)
  {
    if hi == 0 then NIL else if par[hi - 1] == p then hi - 1 else LastChild(par, p, hi - 1)
  }

  /** The next child of i's parent; roots are not chained. */
  ghost function NextSibling(par: seq<int>, i: nat, hi: nat): int
    requires i < |par| && hi <= |par|
  {
    if par[i] == NIL then NIL else NextChild(par, par[i], i + 1, hi)
  }

  /** The links of `b` are those of the forest `par`. */
  ghost predicate Threaded(b: seq<MemoryCategory>, par: seq<int>) {
    && |par| <= |b|
    && forall i {:trigger b[i]} :: 0 <= i < |par| ==>
         && b[i].parent == par[i]
         && b[i].firstChild == NextChild(par, i, 0, |par|)
         && b[i].nextSibling == NextSibling(par, i, |par|)
  }

  lemma {:induction false} NextChildSkips(par: seq<int>, p: int, lo: nat, hi: nat)
    requires hi <= |par|
    ensures forall k :: lo <= k < hi && (NextChild(par, p, lo, hi) == NIL || k < NextChild(par, p, lo, hi)) ==> par[k] != p
    decreases hi - lo
  {
    if lo < hi && par[lo] != p { NextChildSkips(par, p, lo + 1, hi); }
  }

  lemma {:induction false} LastChildSkips(par: seq<int>, p: int, hi: nat)
    requires hi <= |par|
    ensures forall k :: 0 <= k && LastChild(par, p, hi) < k < hi ==> par[k] != p
  {
    if hi > 0 && par[hi - 1] != p { LastChildSkips(par, p, hi - 1); }
  }

  lemma {:induction false} NextChildExtends(par: seq<int>, p: int, lo: nat, hi: nat)
    requires hi < |par|
    ensures NextChild(par, p, lo, hi + 1) ==
            if NextChild(par, p, lo, hi) != NIL then NextChild(par, p, lo, hi)
            else if lo <= hi && par[hi] == p then hi
            else NIL
    decreases hi - lo
  {
    if lo < hi && par[lo] != p { NextChildExtends(par, p, lo + 1, hi); }
  }

  /** Slot `i` becomes a first child exactly when its parent has had no child so far. */
  lemma FirstChildStep(par: seq<int>, i: nat, k: nat)
    requires i < |par|
    ensures NextChild(par, k, 0, i + 1) ==
            if par[i] == k && LastChild(par, k, i) == NIL then i else NextChild(par, k, 0, i)
  {
    NextChildExtends(par, k, 0, i);
    NextChildSkips(par, k, 0, i);
    LastChildSkips(par, k, i);
  }

  /** Otherwise it becomes the next sibling of its parent's last child, and of nothing else. */
  lemma NextSiblingStep(par: seq<int>, i: nat, k: nat)
    requires i < |par| && k < i
    ensures NextSibling(par, k, i + 1) ==
            if par[i] != NIL && k == LastChild(par, par[i], i) then i else NextSibling(par, k, i)
  {
    NextChildExtends(par, par[k], k + 1, i);
    NextChildSkips(par, par[k], k + 1, i);
    LastChildSkips(par, par[i], i);
  }

  // ---------- The sibling pass ----------

  /** Slot `k` once the slots below `done` have been appended to their parents' lists. */
  ghost predicate LinkedSoFar(c: MemoryCategory, before: MemoryCategory, par: seq<int>, k: nat, done: nat)
    requires k < |par| && done <= |par|
  {
    && c.firstChild == NextChild(par, k, 0, done)
    && c.nextSibling == (if k < done then NextSibling(par, k, done) else NIL)
    && c == before.(firstChild := c.firstChild, nextSibling := c.nextSibling, liveBytesDeep := c.liveBytesDeep)
  }

  ghost predicate AllLinkedSoFar(b: seq<MemoryCategory>, before: seq<MemoryCategory>, par: seq<int>, done: nat) {
    && done <= |par| <= |b| == |before|
    && (forall k {:trigger b[k]} :: 0 <= k < |par| ==> LinkedSoFar(b[k], before[k], par, k, done))
    && (forall k :: |par| <= k < |b| ==> b[k] == before[k])
  }

  /** The loan: every `liveBytesDeep` holds the tail of that slot's child list. */
  ghost predicate TailsSoFar(b: seq<MemoryCategory>, par: seq<int>, done: nat, base: int) {
    && done <= |par| <= |b|
    && forall k {:trigger b[k]} :: 0 <= k < |par| ==> b[k].liveBytesDeep == AsInteger(base, LastChild(par, k, done))
  }

  /** The buffer after slot `i` has gone to the end of its parent's child list. */
  function Append(b: seq<MemoryCategory>, i: nat, parent: int, lastChild: int, tail: int): seq<MemoryCategory>
    requires i < |b| && NIL <= parent < |b| && NIL <= lastChild < |b|
  {
    if parent == NIL then b
    else
      var b1 := if lastChild != NIL then b[lastChild := b[lastChild].(nextSibling := i)]
                else b[parent := b[parent].(firstChild := i)];
      b1[parent := b1[parent].(liveBytesDeep := tail)]
  }

  lemma AppendKeepsLinks(b: seq<MemoryCategory>, before: seq<MemoryCategory>, par: seq<int>, i: nat, tail: int)
    requires AllLinkedSoFar(b, before, par, i) && i < |par| && Linkable(par)
    ensures AllLinkedSoFar(Append(b, i, par[i], LastChild(par, par[i], i), tail), before, par, i + 1)
  {
    var b' := Append(b, i, par[i], LastChild(par, par[i], i), tail);
    forall k | 0 <= k < |par| ensures LinkedSoFar(b'[k], before[k], par, k, i + 1) {
      assert LinkedSoFar(b[k], before[k], par, k, i);
      FirstChildStep(par, i, k);
      if k < i { NextSiblingStep(par, i, k); }
    }
  }

  lemma AppendKeepsTails(b: seq<MemoryCategory>, par: seq<int>, i: nat, base: int)
    requires TailsSoFar(b, par, i, base) && i < |par| && Linkable(par)
    ensures TailsSoFar(Append(b, i, par[i], LastChild(par, par[i], i), AsInteger(base, i)), par, i + 1, base)
  {
    var b' := Append(b, i, par[i], LastChild(par, par[i], i), AsInteger(base, i));
    forall k | 0 <= k < |par| ensures b'[k].liveBytesDeep == AsInteger(base, LastChild(par, k, i + 1)) {
      assert b[k].liveBytesDeep == AsInteger(base, LastChild(par, k, i));
    }
  }

  ghost function Parents(b: seq<MemoryCategory>, n: nat): (par: seq<int>)
    requires n <= |b|
    ensures |par| == n && forall i :: 0 <= i < n ==> par[i] == b[i].parent
  {
    seq(n, i requires 0 <= i < n => b[i].parent)
  }

  /** A slot the walk has written and no pass has touched. */
  ghost predicate Unlinked(c: MemoryCategory) {
    c.liveBytesDeep == 0 && c.firstChild == NIL == c.nextSibling
  }

  /** Between `before` and `b` only the links and the lent counter of the first `n` slots have changed. */
  ghost predicate OnlyLinksChanged(b: seq<MemoryCategory>, before: seq<MemoryCategory>, n: nat) {
    && n <= |b| == |before|
    && (forall i :: 0 <= i < n ==>
          b[i] == before[i].(firstChild := b[i].firstChild, nextSibling := b[i].nextSibling, liveBytesDeep := b[i].liveBytesDeep))
    && (forall i :: n <= i < |b| ==> b[i] == before[i])
  }

  /** The first `n` slots are linked by their recorded parents, and each `liveBytesDeep` is still on loan. */
  ghost predicate Strung(b: seq<MemoryCategory>, before: seq<MemoryCategory>, n: nat, base: int) {
    && OnlyLinksChanged(b, before, n)
    && Threaded(b, Parents(before, n)) && TailsSoFar(b, Parents(before, n), n, base)
  }

  ghost predicate PassInvariant(b: seq<MemoryCategory>, before: seq<MemoryCategory>, par: seq<int>, done: nat, base: int) {
    AllLinkedSoFar(b, before, par, done) && TailsSoFar(b, par, done, base)
  }

  lemma PassStarts(before: seq<MemoryCategory>, par: seq<int>, base: int)
    requires |par| <= |before| && forall i :: 0 <= i < |par| ==> Unlinked(before[i])
    ensures PassInvariant(before, before, par, 0, base)
  {
    assert forall i :: 0 <= i < |par| ==> LinkedSoFar(before[i], before[i], par, i, 0);
  }

  lemma PassAdvances(b: seq<MemoryCategory>, before: seq<MemoryCategory>, par: seq<int>, i: nat, base: int)
    requires PassInvariant(b, before, par, i, base) && i < |par| && Linkable(par) && par == Parents(before, |par|)
    ensures NIL <= b[i].parent == par[i] <= i
    ensures par[i] != NIL ==> b[par[i]].liveBytesDeep == AsInteger(base, LastChild(par, par[i], i))
    ensures PassInvariant(Append(b, i, par[i], LastChild(par, par[i], i), AsInteger(base, i)), before, par, i + 1, base)
  {
    assert LinkedSoFar(b[i], before[i], par, i, i);
    AppendKeepsLinks(b, before, par, i, AsInteger(base, i));
    AppendKeepsTails(b, par, i, base);
  }

  lemma PassFinishes(b: seq<MemoryCategory>, before: seq<MemoryCategory>, par: seq<int>, base: int)
    requires PassInvariant(b, before, par, |par|, base) && par == Parents(before, |par|)
    ensures Strung(b, before, |par|, base)
  {
    assert forall k :: 0 <= k < |par| ==> LinkedSoFar(b[k], before[k], par, k, |par|);
  }

  /** One turn of the sibling pass. */
  method LinkNext(buffer: array<MemoryCategory>, i: nat, base: int, ghost before: seq<MemoryCategory>, ghost par: seq<int>)
    requires Addressable(base, buffer.Length) && Linkable(par) && |par| <= |before| && par == Parents(before, |par|)
    requires i < |par| && PassInvariant(buffer[..], before, par, i, base)
    modifies buffer
    ensures PassInvariant(buffer[..], before, par, i + 1, base)
  {
    PassAdvances(buffer[..], before, par, i, base);
    AppendToParent(buffer, i, base, LastChild(par, par[i], i));
  }

  method FillInChildAndSiblingCategories(buffer: array<MemoryCategory>, writtenCount: nat, base: int)
    requires writtenCount <= buffer.Length && Addressable(base, buffer.Length)
    requires Linkable(Parents(buffer[..], writtenCount))
    requires forall i :: 0 <= i < writtenCount ==> Unlinked(buffer[i])
    modifies buffer
    ensures Strung(buffer[..], old(buffer[..]), writtenCount, base)
  {
    ghost var before := buffer[..];
    ghost var par := Parents(before, writtenCount);
    PassStarts(before, par, base);
    for i := 0 to writtenCount
      invariant PassInvariant(buffer[..], before, par, i, base)
    {
      LinkNext(buffer, i, base, before, par);
    }
    PassFinishes(buffer[..], before, par, base);
  }

  /** The body of the sibling pass: `last` is the tail its parent's `liveBytesDeep` points at. */
  method AppendToParent(buffer: array<MemoryCategory>, i: nat, base: int, ghost last: int)
    requires i < buffer.Length && NIL <= buffer[i].parent <= i && NIL <= last < i
    requires Addressable(base, buffer.Length)
    requires buffer[i].parent != NIL ==> buffer[buffer[i].parent].liveBytesDeep == AsInteger(base, last)
    modifies buffer
    ensures buffer[..] == Append(old(buffer[..]), i, old(buffer[i].parent), last, AsInteger(base, i))
  {
    var parent := buffer[i].parent;
    if parent != NIL {
      var lastChild := TailOf(buffer[parent].liveBytesDeep, last, base, buffer.Length);
      if lastChild != NIL {
        buffer[lastChild] := buffer[lastChild].(nextSibling := i);
      } else {
        buffer[parent] := buffer[parent].(firstChild := i);
      }
      buffer[parent] := buffer[parent].(liveBytesDeep := AsInteger(base, i));
    }
  }

  /** Reads a tail pointer back out of the counter it was lent. */
  method TailOf(liveBytesDeep: int, ghost tail: int, base: int, ghost slots: nat) returns (p: int)
    requires Addressable(base, slots) && NIL <= tail < slots && liveBytesDeep == AsInteger(base, tail)
    ensures p == tail
  {
    PointerSurvivesTheCast(base, tail, slots);
    p := AsPointer(base, liveBytesDeep);
  }
}
