/**
 omrtiGetMemoryCategories (omr/OMR_TI.cpp): three walks of the category tables, one after another, and the two
 passes over the caller's buffer that turn the last walk into a linked, summed report.
 */
module CategoryReport {
  import opened MachineIntegers
  import opened Options
  import opened CategorySums
  import opened CategoryForest
  import opened CategoryTables
  import opened CategoryLinks
  import opened CategoryCounters

  datatype Error = NoError | NotAvailable | IllegalArgument | OutOfNativeMemory | InternalError | ThreadNotAttached

  /** The walk functions handed to omrmem_walk_categories. */
  datatype WalkFunction = CountCategories | CalculateSlots | FillBuffer

  /** Slot `i` as the filling walk leaves it. */
  ghost function Recorded(vs: seq<Visit>, i: nat): MemoryCategory
    requires i < |vs|
  {
    EMPTY.(name := vs[i].name,
           liveBytesShallow := ToInt64(vs[i].liveBytes),
           liveAllocationsShallow := ToInt64(vs[i].liveAllocations),
           parent := RecordedParent(vs, i))
  }

  /** Every visited code finds, through its index, the last slot written for it. */
  ghost predicate MappingHolds(mapping: seq<int>, vs: seq<Visit>, n: nat)
    requires CodesAreUint32(vs) && n <= |vs|
  {
    forall j {:trigger vs[j]} :: 0 <= j < |vs| ==>
      var x := IndexFromCategoryCode(MappingSize(vs), vs[j].code);
      0 <= x < |mapping| && mapping[x] == LastSlot(vs, n, vs[j].code)
  }

  lemma MappingStarts(vs: seq<Visit>, mapping: seq<int>)
    requires Walkable(vs) && |mapping| == MappingSize(vs) && forall x :: 0 <= x < |mapping| ==> mapping[x] == NIL
    ensures MappingHolds(mapping, vs, 0)
  {
    forall j | 0 <= j < |vs|
      ensures 0 <= IndexFromCategoryCode(MappingSize(vs), vs[j].code) < |mapping|
    {
      IndexIsInBounds(vs, j);
    }
  }

  lemma MappingAdvances(vs: seq<Visit>, mapping: seq<int>, n: nat)
    requires Walkable(vs) && n < |vs| && MappingHolds(mapping, vs, n)
    ensures 0 <= IndexFromCategoryCode(MappingSize(vs), vs[n].code) < |mapping|
    ensures MappingHolds(mapping[IndexFromCategoryCode(MappingSize(vs), vs[n].code) := n], vs, n + 1)
  {
    var _ := vs[n];
    forall j | 0 <= j < |vs|
      ensures IndexFromCategoryCode(MappingSize(vs), vs[j].code) == IndexFromCategoryCode(MappingSize(vs), vs[n].code)
              <==> vs[j].code == vs[n].code
    {
      IndexIsInjective(vs, j, n);
    }
  }

  /** omrtiGetMemoryCategoriesState together with the walk state that points at it. */
  class Reporter {
    const buffer: array?<MemoryCategory>
    const maxCategories: int
    var writtenCount: int
    var mapping: array<int>
    var bufferOverflow: bool
    var totalCategories: int
    var mappingSize: int
    var maxLanguageIndex: int
    var maxOmrIndex: int
    /** The whole walk, how far it has come, and the buffer it found. */
    ghost const all: seq<Visit>
    ghost var pos: nat
    ghost var found: seq<MemoryCategory>

    constructor (buffer: array?<MemoryCategory>, maxCategories: int, ghost all: seq<Visit>)
      ensures this.buffer == buffer && this.maxCategories == maxCategories && this.all == all
      ensures writtenCount == 0 && !bufferOverflow && totalCategories == 0 && pos == 0
      ensures fresh(mapping)
    {
      this.buffer, this.maxCategories, this.all := buffer, maxCategories, all;
      writtenCount, bufferOverflow, totalCategories, pos := 0, false, 0, 0;
      mapping := new int[0];
    }

    /** What the walk function has achieved after `pos` visits. */
    ghost predicate Progress(f: WalkFunction)
      reads this, buffer, mapping
    {
      && Walkable(all) && pos <= |all| && mapping as object != buffer
      && match f
         case CountCategories =>
           totalCategories == ToInt32(pos) && !bufferOverflow
         case CalculateSlots =>
           maxLanguageIndex == MaxLanguageIndex(all, pos) && maxOmrIndex == MaxOmrIndex(all, pos) && !bufferOverflow
         case FillBuffer =>
           && buffer != null && writtenCount == pos <= Max(maxCategories, 0) <= buffer.Length == |found|
           && mappingSize == MappingSize(all) && MappingHolds(mapping[..], all, pos)
           && (bufferOverflow ==> pos == Max(maxCategories, 0) < |all|)
           && (forall i {:trigger buffer[i]} :: 0 <= i < pos ==> buffer[i] == Recorded(all, i))
           && (forall i {:trigger buffer[i]} :: pos <= i < |found| ==> buffer[i] == found[i])
           && (forall i {:trigger found[i]} :: 0 <= i < maxCategories ==> found[i] == EMPTY)
    }

    /** A walk leaves the results of the other walks alone. */
    twostate predicate Undisturbed(f: WalkFunction)
      reads this, buffer
    {
      && mapping == old(mapping) && mappingSize == old(mappingSize) && found == old(found)
      && (f != CountCategories ==> totalCategories == old(totalCategories))
      && (f != FillBuffer ==> writtenCount == old(writtenCount) && (buffer != null ==> buffer[..] == old(buffer[..])))
    }

    /** omrtiCountMemoryCategoriesCallback. */
    method CountCallback(v: Visit) returns (keepIterating: bool)
      requires Progress(CountCategories) && pos < |all| && v == all[pos]
      modifies this
      ensures Progress(CountCategories) && Undisturbed(CountCategories) && pos == old(pos) + 1 && keepIterating
    {
      WrapInt32Step(pos);
      totalCategories := ToInt32(totalCategories + 1);
      pos := pos + 1;
      keepIterating := true;
    }

    /** omrtiCalculateSlotsForCategoriesMappingCallback. */
    method CalculateSlotsCallback(v: Visit) returns (keepIterating: bool)
      requires Progress(CalculateSlots) && pos < |all| && v == all[pos]
      modifies this
      ensures Progress(CalculateSlots) && Undisturbed(CalculateSlots) && pos == old(pos) + 1 && keepIterating
    {
      if v.code < LANGUAGE_CATEGORY_LIMIT {
        maxLanguageIndex := Max(maxLanguageIndex, v.code);
      } else if v.code > LANGUAGE_CATEGORY_LIMIT {
        maxOmrIndex := Max(maxOmrIndex, OmrIndexFromCode(v.code));
      }
      pos := pos + 1;
      keepIterating := true;
    }

    /** omrtiGetMemoryCategoriesCallback. */
    method GetMemoryCategoriesCallback(v: Visit, ghost parentAt: int) returns (keepIterating: bool)
      requires Progress(FillBuffer) && !bufferOverflow && pos < |all| && v == all[pos]
      requires !v.isRoot ==> 0 <= parentAt < |all| && all[parentAt].code == v.parentCode
      modifies this, buffer, mapping
      ensures Progress(FillBuffer) && Undisturbed(FillBuffer)
      ensures keepIterating == !bufferOverflow == (old(pos) < maxCategories)
      ensures pos == if keepIterating then old(pos) + 1 else old(pos)
    {
      var index := IndexFromCategoryCode(mappingSize, v.code);
      MappingAdvances(all, mapping[..], pos);
      if writtenCount < maxCategories {
        mapping[index] := writtenCount;
        assert mapping[..] == old(mapping[..])[index := pos];
        var parent := NIL;
        if !v.isRoot {
          assert all[parentAt].code == v.parentCode;
          parent := mapping[IndexFromCategoryCode(mappingSize, v.parentCode)];
        }
        assert parent == RecordedParent(all, pos);
        buffer[writtenCount] := buffer[writtenCount].(
          name := v.name,
          liveBytesShallow := ToInt64(v.liveBytes),
          liveAllocationsShallow := ToInt64(v.liveAllocations),
          parent := parent);
        writtenCount := writtenCount + 1;
        pos := pos + 1;
        keepIterating := true;
      } else {
        bufferOverflow := true;
        keepIterating := false;
      }
    }

    method Call(f: WalkFunction, v: Visit, ghost parentAt: int) returns (keepIterating: bool)
      requires Progress(f) && !bufferOverflow && pos < |all| && v == all[pos]
      requires !v.isRoot ==> 0 <= parentAt < |all| && all[parentAt].code == v.parentCode
      modifies this, buffer, mapping
      ensures Progress(f) && Undisturbed(f) && keepIterating == !bufferOverflow
      ensures keepIterating ==> pos == old(pos) + 1
    {
      match f
      case CountCategories => keepIterating := CountCallback(v);
      case CalculateSlots => keepIterating := CalculateSlotsCallback(v);
      case FillBuffer => keepIterating := GetMemoryCategoriesCallback(v, parentAt);
    }

    /**
     _recursive_category_walk_children: the visits of `cs`, which the parent's child codes unfold to, unless the walk
     function says stop.
     */
    method WalkChildren(f: WalkFunction, p: Port, parent: Entry, ghost cs: seq<Category>, ghost parentAt: nat)
      returns (keepIterating: bool)
      requires Progress(f) && !bufferOverflow
      requires Unfolds(p, parent.children, cs) && Occupies(all, cs, pos, false, parent.code)
      requires parentAt < |all| && all[parentAt].code == parent.code
      modifies this, buffer, mapping
      ensures Progress(f) && Undisturbed(f) && keepIterating == !bufferOverflow
      ensures keepIterating ==> pos == old(pos) + Count(cs)
      decreases cs, 2
    {
      ghost var end := pos + Count(cs);
      var i := 0;
      keepIterating := true;
      while i < |parent.children| && keepIterating
        invariant 0 <= i <= |parent.children|
        invariant Progress(f) && Undisturbed(f) && keepIterating == !bufferOverflow
        invariant keepIterating ==> StillToVisit(all, cs, i, pos, false, parent.code, end)
        decreases |cs| - i
      {
        var child := p.GetCategory(parent.children[i]);
        UnfoldsEach(p, parent.children, cs, i);
        keepIterating := WalkNext(f, p, child, cs, i, false, parent.code, parentAt, end);
        i := i + 1;
      }
    }

    /** One category and everything below it: the walk function's verdict on the category decides about the rest. */
    method WalkOne(f: WalkFunction, p: Port, e: Entry, ghost c: Category, isRoot: bool, parentCode: int, ghost parentAt: int)
      returns (keepIterating: bool)
      requires Progress(f) && !bufferOverflow && pos < |all| && all[pos] == VisitOf(c, isRoot, parentCode)
      requires Names(e, c) && Unfolds(p, e.children, c.children) && Occupies(all, c.children, pos + 1, false, c.code)
      requires !isRoot ==> 0 <= parentAt < |all| && all[parentAt].code == parentCode
      modifies this, buffer, mapping
      ensures Progress(f) && Undisturbed(f) && keepIterating == !bufferOverflow
      ensures keepIterating ==> pos == old(pos) + 1 + Count(c.children)
      decreases c, 0
    {
      keepIterating := Call(f, Visit(e.code, e.name, e.liveBytes, e.liveAllocations, isRoot, parentCode), parentAt);
      if keepIterating {
        keepIterating := WalkChildren(f, p, e, c.children, pos - 1);
      }
    }

    /** The i-th of the siblings `cs`. */
    method WalkNext(f: WalkFunction, p: Port, e: Entry, ghost cs: seq<Category>, ghost i: nat,
                    isRoot: bool, parentCode: int, ghost parentAt: int, ghost end: nat) returns (keepIterating: bool)
      requires Progress(f) && !bufferOverflow && StillToVisit(all, cs, i, pos, isRoot, parentCode, end)
      requires i < |cs| && Names(e, cs[i]) && Unfolds(p, e.children, cs[i].children)
      requires !isRoot ==> 0 <= parentAt < |all| && all[parentAt].code == parentCode
      modifies this, buffer, mapping
      ensures Progress(f) && Undisturbed(f) && keepIterating == !bufferOverflow
      ensures keepIterating ==> StillToVisit(all, cs, i + 1, pos, isRoot, parentCode, end)
      decreases cs, 1
    {
      NextSiblingToVisit(all, cs, i, pos, isRoot, parentCode, end);
      keepIterating := WalkOne(f, p, e, cs[i], isRoot, parentCode, parentAt);
    }

    /** omrmem_walk_categories. */
    method Walk(f: WalkFunction, p: Port, ghost roots: seq<Category>)
      requires p.Valid() && Walks(p, roots)
      requires StillToVisit(all, roots, 0, pos, true, 0, |all|) && Progress(f) && !bufferOverflow
      modifies this, buffer, mapping
      ensures Progress(f) && Undisturbed(f)
      ensures !bufferOverflow ==> pos == |all|
    {
      forall j | 0 <= j < |roots| ensures IsTreeOf(p, p.RootCodes()[j], roots[j]) {
        UnfoldsEach(p, p.RootCodes(), roots, j);
      }
      if p.registered {
        var _ := WalkNext(f, p, p.table[0], roots, 0, true, 0, NIL, |all|);
      } else {
        var keepIterating := WalkNext(f, p, p.portLibrary, roots, 0, true, 0, NIL, |all|);
        if !keepIterating { return; }
        keepIterating := WalkNext(f, p, p.unknown, roots, 1, true, 0, NIL, |all|);
        if !keepIterating { return; }
        if p.data64 {
          keepIterating := WalkNext(f, p, p.unusedAllocate32, roots, 2, true, 0, NIL, |all|);
        }
      }
    }
  }

  /** The siblings of `cs` from the i-th on are the visits from `pos` up to `end`. */
  ghost predicate StillToVisit(all: seq<Visit>, cs: seq<Category>, i: nat, pos: nat, isRoot: bool, pc: int, end: nat) {
    i <= |cs| && Occupies(all, cs[i..], pos, isRoot, pc) && pos + Count(cs[i..]) == end
  }

  lemma EverythingToVisit(all: seq<Visit>, roots: seq<Category>)
    requires all == Visits(roots, true, 0)
    ensures StillToVisit(all, roots, 0, 0, true, 0, |all|)
  {
    WalkOccupies(roots);
    assert roots[0..] == roots;
  }

  lemma NextSiblingToVisit(all: seq<Visit>, cs: seq<Category>, i: nat, pos: nat, isRoot: bool, pc: int, end: nat)
    requires i < |cs| && StillToVisit(all, cs, i, pos, isRoot, pc, end)
    ensures pos < |all| && all[pos] == VisitOf(cs[i], isRoot, pc)
    ensures Occupies(all, cs[i].children, pos + 1, false, cs[i].code)
    ensures StillToVisit(all, cs, i + 1, pos + 1 + Count(cs[i].children), isRoot, pc, end)
  {
    assert cs[i..][0] == cs[i] && cs[i..][1..] == cs[i + 1..];
  }

  // ---------- The report ----------

  /** The first `n` shallow byte counters of a walk, in the field's own width. */
  ghost function Bytes(vs: seq<Visit>, n: nat): (s: seq<int>)
    requires n <= |vs|
    ensures |s| == n && forall i :: 0 <= i < n ==> s[i] == ToInt64(vs[i].liveBytes)
  {
    seq(n, i requires 0 <= i < n => ToInt64(vs[i].liveBytes))
  }

  ghost function Allocations(vs: seq<Visit>, n: nat): (s: seq<int>)
    requires n <= |vs|
    ensures |s| == n && forall i :: 0 <= i < n ==> s[i] == ToInt64(vs[i].liveAllocations)
  {
    seq(n, i requires 0 <= i < n => ToInt64(vs[i].liveAllocations))
  }

  /** The parents recorded for the first `n` visited categories. */
  ghost function RecordedParents(roots: seq<Category>, n: nat): (par: seq<int>)
    requires n <= Count(roots)
    ensures |par| == n && Linkable(par)
  {
    seq(n, i requires 0 <= i < n => RecordedParent(Visits(roots, true, 0), i))
  }

  /** Their true parents. */
  ghost function TrueParents(roots: seq<Category>, n: nat): (par: seq<int>)
    requires n <= Count(roots)
    ensures |par| == n
  {
    ParentSlots(roots, 0, NIL)[..n]
  }

  lemma TrueParentsAreAForest(roots: seq<Category>, n: nat)
    requires n <= Count(roots)
    ensures Forest(TrueParents(roots, n))
  {
    ParentsComeFirst(roots, 0, NIL);
  }

  /** The deep pass has not come to slot `i`: its counters are as the sibling pass left them, a tail pointer and zero. */
  ghost predicate LeftBehind(c: MemoryCategory, base: int, par: seq<int>, i: nat) {
    c.liveBytesDeep == AsInteger(base, LastChild(par, i, |par|)) && c.liveAllocationsDeep == 0
  }

  /**
   The first `n` slots of `b`, a buffer at address `base`, report the first `n` categories of the walk of `roots`, by
   the parents recorded for them: sums where these lead up to a root, leavings of the sibling pass where they do not.
   */
  ghost predicate Reports(b: seq<MemoryCategory>, base: int, roots: seq<Category>, n: nat) {
    && n <= Count(roots) && n <= |b|
    && var vs := Visits(roots, true, 0);
       var par := RecordedParents(roots, n);
       && (forall i {:trigger b[i]} :: 0 <= i < n ==> b[i].name == vs[i].name)
       && Linked(b, par, Bytes(vs, n), Allocations(vs, n))
       && forall i {:trigger b[i]} :: 0 <= i < n ==>
            if Above(par, i, NIL) then Accumulated(b[i], par, Bytes(vs, n), Allocations(vs, n), i, n)
            else LeftBehind(b[i], base, par, i)
  }

  /** The loop of omrtiGetMemoryCategories that starts a recursion at every root. */
  method FillInAllDeepCounters(buffer: array<MemoryCategory>, writtenCount: nat,
                               ghost par: seq<int>, ghost bytes: seq<int>, ghost allocs: seq<int>)
    requires Linked(buffer[..], par, bytes, allocs) && writtenCount == |par|
    modifies buffer
    ensures Linked(buffer[..], par, bytes, allocs)
    ensures AllAccumulated(buffer[..], par, bytes, allocs, Subtree(par, NIL))
    ensures OnlyDeepChanged(buffer[..], old(buffer[..]), Subtree(par, NIL))
  {
    ghost var before := buffer[..];
    for i := 0 to writtenCount
      invariant OnlyDeepChanged(buffer[..], before, Covered(par, NIL, i))
      invariant AllAccumulated(buffer[..], par, bytes, allocs, Covered(par, NIL, i))
    {
      ghost var mid := buffer[..];
      LinkedSurvives(mid, before, Covered(par, NIL, i), par, bytes, allocs);
      if buffer[..][i].parent == NIL {
        FillInCategoryDeepCounters(buffer, i, par, bytes, allocs);
        RootAdds(buffer[..], mid, before, par, bytes, allocs, i);
      }
    }
    LinkedSurvives(buffer[..], before, Covered(par, NIL, |par|), par, bytes, allocs);
    CoveredIsBelow(par, NIL);
    assert Subtree(par, NIL) - {NIL} == Subtree(par, NIL);
  }

  lemma RootAdds(b: seq<MemoryCategory>, mid: seq<MemoryCategory>, before: seq<MemoryCategory>,
                 par: seq<int>, bytes: seq<int>, allocs: seq<int>, root: nat)
    requires Linked(mid, par, bytes, allocs) && root < |par| && par[root] == NIL
    requires OnlyDeepChanged(mid, before, Covered(par, NIL, root))
    requires AllAccumulated(mid, par, bytes, allocs, Covered(par, NIL, root))
    requires Filled(b, mid, par, bytes, allocs, root)
    ensures OnlyDeepChanged(b, before, Covered(par, NIL, root + 1))
    ensures AllAccumulated(b, par, bytes, allocs, Covered(par, NIL, root + 1))
  {
    SiblingsAreApart(par, NIL, root);
    var done, mine := Covered(par, NIL, root), Subtree(par, root);
    assert OnlyDeepChanged(b, mid, mine);
    OnlyDeepComposes(b, mid, before, mine, done, done + mine);
    AccumulatedStays(b, mid, par, bytes, allocs, mine, done, mine);
  }

  /** The filling walk has written the first `n` slots of `b` and left the rest as it found them. */
  ghost predicate Written(b: seq<MemoryCategory>, found: seq<MemoryCategory>, vs: seq<Visit>, n: nat) {
    && n <= |vs| && n <= |b| == |found|
    && (forall i {:trigger b[i]} :: 0 <= i < n ==> b[i] == Recorded(vs, i))
    && (forall i {:trigger b[i]} :: n <= i < |b| ==> b[i] == found[i])
  }

  lemma WrittenParents(b: seq<MemoryCategory>, found: seq<MemoryCategory>, roots: seq<Category>, n: nat)
    requires Written(b, found, Visits(roots, true, 0), n)
    ensures Parents(b, n) == RecordedParents(roots, n)
    ensures forall i :: 0 <= i < n ==> Unlinked(b[i]) && b[i].liveAllocationsDeep == 0
  {
    assert forall i :: 0 <= i < n ==> b[i].parent == RecordedParents(roots, n)[i];
  }

  lemma LinkedAfterSiblingPass(b: seq<MemoryCategory>, written: seq<MemoryCategory>, found: seq<MemoryCategory>,
                               roots: seq<Category>, n: nat)
    requires var vs := Visits(roots, true, 0);
             Written(written, found, vs, n) && OnlyLinksChanged(b, written, n)
    requires Threaded(b, RecordedParents(roots, n))
    ensures var vs := Visits(roots, true, 0); Linked(b, RecordedParents(roots, n), Bytes(vs, n), Allocations(vs, n))
  {
  }

  /** Both passes over the written slots. */
  method LinkAndSum(buffer: array<MemoryCategory>, writtenCount: nat, base: int,
                    ghost found: seq<MemoryCategory>, ghost roots: seq<Category>)
    requires Written(buffer[..], found, Visits(roots, true, 0), writtenCount)
    requires Addressable(base, buffer.Length)
    modifies buffer
    ensures Reports(buffer[..], base, roots, writtenCount)
    ensures forall i {:trigger buffer[i]} :: writtenCount <= i < buffer.Length ==> buffer[i] == found[i]
  {
    ghost var vs, par := Visits(roots, true, 0), RecordedParents(roots, writtenCount);
    ghost var written := buffer[..];
    WrittenParents(written, found, roots, writtenCount);
    FillInChildAndSiblingCategories(buffer, writtenCount, base);
    ghost var linked := buffer[..];
    LinkedAfterSiblingPass(linked, written, found, roots, writtenCount);
    FillInAllDeepCounters(buffer, writtenCount, par, Bytes(vs, writtenCount), Allocations(vs, writtenCount));
    assert forall i :: 0 <= i < buffer.Length ==> buffer[i].name == linked[i].name;
    forall i | 0 <= i < writtenCount && !Above(par, i, NIL) ensures LeftBehind(buffer[..][i], base, par, i) {
      assert buffer[..][i] == linked[i];
      assert linked[i].liveAllocationsDeep == written[i].liveAllocationsDeep;
    }
  }

  method Clear(buffer: array<MemoryCategory>, n: nat)
    requires n <= buffer.Length
    modifies buffer
    ensures forall i {:trigger buffer[i]} :: 0 <= i < buffer.Length ==>
              buffer[i] == if i < n then EMPTY else old(buffer[i])
  {
    for i := 0 to n
      invariant forall k {:trigger buffer[k]} :: 0 <= k < buffer.Length ==>
                  buffer[k] == if k < i then EMPTY else old(buffer[k])
    {
      buffer[i] := EMPTY;
    }
  }

  /** How many categories a buffer of `maxCategories` slots receives. */
  function WrittenCount(maxCategories: int, total: nat): (n: nat)
    ensures n <= total && (maxCategories <= 0 ==> n == 0) && (maxCategories >= 0 ==> n <= maxCategories)
    ensures n == total || n == maxCategories || maxCategories < 0
  {
    if Max(maxCategories, 0) < total then Max(maxCategories, 0) else total
  }

  /** The second walk: how large the mapping has to be. */
  method CalculateMappingSize(r: Reporter, ghost buffer: array<MemoryCategory>, p: Port, ghost roots: seq<Category>)
    requires p.Valid() && Walks(p, roots)
    requires r.buffer == buffer && StillToVisit(r.all, roots, 0, 0, true, 0, |r.all|) && Walkable(r.all)
    requires r.writtenCount == 0 && !r.bufferOverflow
    modifies r, buffer, r.mapping
    ensures r.mappingSize == MappingSize(r.all) && r.writtenCount == 0 && !r.bufferOverflow
    ensures r.totalCategories == old(r.totalCategories) && buffer[..] == old(buffer[..]) && r.mapping == old(r.mapping)
  {
    r.maxLanguageIndex, r.maxOmrIndex := 0, 0;
    r.pos := 0;
    r.Walk(CalculateSlots, p, roots);
    r.mappingSize := r.maxLanguageIndex + 1 + r.maxOmrIndex + 1;
  }

  /** The third walk, into a cleared buffer and an empty mapping. */
  method Fill(r: Reporter, buffer: array<MemoryCategory>, p: Port, ghost roots: seq<Category>)
    requires p.Valid() && Walks(p, roots)
    requires r.buffer == buffer && StillToVisit(r.all, roots, 0, 0, true, 0, |r.all|) && Walkable(r.all)
    requires r.writtenCount == 0 && !r.bufferOverflow && r.maxCategories <= buffer.Length
    requires r.mappingSize == MappingSize(r.all)
    modifies r, buffer
    ensures r.totalCategories == old(r.totalCategories)
    ensures r.writtenCount == WrittenCount(r.maxCategories, |r.all|) && r.bufferOverflow == (r.writtenCount < |r.all|)
    ensures |r.found| == buffer.Length && Written(buffer[..], r.found, r.all, r.writtenCount)
    ensures forall i {:trigger r.found[i]} :: 0 <= i < buffer.Length ==>
              r.found[i] == if i < r.maxCategories then EMPTY else old(buffer[i])
  {
    r.mapping := new int[r.mappingSize](_ => NIL);
    Clear(buffer, Max(r.maxCategories, 0));
    r.pos := 0;
    r.found := buffer[..];
    MappingStarts(r.all, r.mapping[..]);
    r.Walk(FillBuffer, p, roots);
  }

  /**
   omrtiGetMemoryCategories. The tables, whose walk must come to an end, the address of the buffer and whether the
   mapping can be allocated are the environment's; `written` and `total` are None where the source leaves the output
   slots alone.
   */
  method GetMemoryCategories(attached: bool, maxCategories: int, buffer: array?<MemoryCategory>, base: int,
                             wantsWritten: bool, wantsTotal: bool, p: Port, ghost roots: seq<Category>, allocates: bool)
    returns (rc: Error, written: Option<int>, total: Option<int>)
    requires p.Valid() && Walks(p, roots)
    requires buffer != null ==> maxCategories <= buffer.Length && Addressable(base, buffer.Length)
    modifies buffer
    ensures rc == ThreadNotAttached <==> !attached
    ensures rc == IllegalArgument <==>
            attached && (|| (maxCategories > 0 && (buffer == null || !wantsWritten))
                         || (buffer == null && !wantsWritten && !wantsTotal))
    ensures rc == InternalError <==>
            attached && buffer != null && (maxCategories <= 0 || wantsWritten) && !allocates
    ensures rc == OutOfNativeMemory ==> buffer != null && Max(maxCategories, 0) < Count(roots)
    ensures rc == NoError && buffer != null ==> Count(roots) <= Max(maxCategories, 0)
    ensures rc != NotAvailable
    ensures rc == NoError || rc == OutOfNativeMemory ==>
              && total == (if wantsTotal then Some(ToInt32(Count(roots))) else None)
              && written == (if !wantsWritten then None
                             else Some(if buffer == null then 0 else WrittenCount(maxCategories, Count(roots))))
    ensures (rc == NoError || rc == OutOfNativeMemory) && buffer != null ==>
              && Reports(buffer[..], base, roots, WrittenCount(maxCategories, Count(roots)))
              && forall i {:trigger buffer[i]} :: WrittenCount(maxCategories, Count(roots)) <= i < buffer.Length ==>
                   buffer[i] == if i < maxCategories then EMPTY else old(buffer[i])
    ensures rc != NoError && rc != OutOfNativeMemory ==>
              written == None == total && (buffer != null ==> buffer[..] == old(buffer[..]))
  {
    rc, written, total := NotAvailable, None, None;
    if !attached { rc := ThreadNotAttached; return; }
    var maxSlots := if maxCategories < 0 then 0 else maxCategories;
    if maxSlots > 0 && buffer == null { rc := IllegalArgument; return; }
    if maxSlots > 0 && buffer != null && !wantsWritten { rc := IllegalArgument; return; }
    if buffer == null && !wantsWritten && !wantsTotal { rc := IllegalArgument; return; }

    WalksAreWalkable(p, roots);
    var r := new Reporter(buffer, maxCategories, Visits(roots, true, 0));
    EverythingToVisit(r.all, roots);
    r.Walk(CountCategories, p, roots);
    if buffer != null {
      CalculateMappingSize(r, buffer, p, roots);
      if !allocates { rc := InternalError; return; }
      Fill(r, buffer, p, roots);
      LinkAndSum(buffer, r.writtenCount, base, r.found, roots);
      rc := if r.bufferOverflow then OutOfNativeMemory else NoError;
    }
    if wantsWritten {
      written := Some(r.writtenCount);
      if rc == NotAvailable { rc := NoError; }
    }
    if wantsTotal {
      total := Some(r.totalCategories);
      if rc == NotAvailable { rc := NoError; }
    }
  }

  // ---------- What a report says ----------

  ghost function DeepBytes(b: seq<MemoryCategory>, n: nat): (s: seq<int>)
    requires n <= |b|
    ensures |s| == n && forall i :: 0 <= i < n ==> s[i] == b[i].liveBytesDeep
  {
    seq(n, i requires 0 <= i < n => b[i].liveBytesDeep)
  }

  ghost function DeepAllocations(b: seq<MemoryCategory>, n: nat): (s: seq<int>)
    requires n <= |b|
    ensures |s| == n && forall i :: 0 <= i < n ==> s[i] == b[i].liveAllocationsDeep
  {
    seq(n, i requires 0 <= i < n => b[i].liveAllocationsDeep)
  }

  /**
   For all tables and every truncation: where the recorded parents lead up to a root, the deep counters are the sums
   of the shallow counters of the written categories at and below, by these parents.
   */
  lemma ReportedSumsAreSubtreeSums(b: seq<MemoryCategory>, base: int, roots: seq<Category>, n: nat, i: nat)
    requires Reports(b, base, roots, n) && i < n && Above(RecordedParents(roots, n), i, NIL)
    ensures var vs, below := Visits(roots, true, 0), Subtree(RecordedParents(roots, n), i);
            && b[i].liveBytesDeep == ToInt64(SumOver(Bytes(vs, n), below, n))
            && b[i].liveAllocationsDeep == ToInt64(SumOver(Allocations(vs, n), below, n))
  {
    var vs, par := Visits(roots, true, 0), RecordedParents(roots, n);
    DeepIsSubtreeSum(par, Bytes(vs, n), i);
    DeepIsSubtreeSum(par, Allocations(vs, n), i);
  }

  /** The roots' deep counters together account exactly once for every written category that leads up to a root. */
  lemma ReportedRootsHoldTheReached(b: seq<MemoryCategory>, base: int, roots: seq<Category>, n: nat)
    requires Reports(b, base, roots, n)
    ensures var vs, par := Visits(roots, true, 0), RecordedParents(roots, n);
            && ToInt64(RootsTotal(par, DeepBytes(b, n), n)) == ToInt64(SumOver(Bytes(vs, n), Subtree(par, NIL), n))
            && ToInt64(RootsTotal(par, DeepAllocations(b, n), n)) == ToInt64(SumOver(Allocations(vs, n), Subtree(par, NIL), n))
  {
    var vs, par := Visits(roots, true, 0), RecordedParents(roots, n);
    RootsHoldTheReached(par, Bytes(vs, n), DeepBytes(b, n));
    RootsHoldTheReached(par, Allocations(vs, n), DeepAllocations(b, n));
  }

  /** If no direct child of the registered UNKNOWN falls back, that is every written category, whatever the truncation. */
  lemma ReportedRootsHoldEverything(b: seq<MemoryCategory>, base: int, p: Port, roots: seq<Category>, n: nat)
    requires p.Valid() && Walks(p, roots) && Reports(b, base, roots, n) && !LosesCategories(p)
    ensures var vs, par := Visits(roots, true, 0), RecordedParents(roots, n);
            && ToInt64(RootsTotal(par, DeepBytes(b, n), n)) == ToInt64(Total(Bytes(vs, n), n))
            && ToInt64(RootsTotal(par, DeepAllocations(b, n), n)) == ToInt64(Total(Allocations(vs, n), n))
  {
    var vs, par := Visits(roots, true, 0), RecordedParents(roots, n);
    OwnParentsComeFromUnknown(p, roots);
    forall k | 0 <= k < n ensures NIL <= par[k] < k { assert par[k] == RecordedParent(vs, k) && !OwnParent(roots, k); }
    forall k | 0 <= k < n ensures DeepBytes(b, n)[k] == Deep(par, Bytes(vs, n), k, n)
                                  && DeepAllocations(b, n)[k] == Deep(par, Allocations(vs, n), k, n) {
      EverythingIsBelowNil(par, k);
      assert b[k].liveBytesDeep == DeepBytes(b, n)[k];
    }
    RootsHoldEverything(par, Bytes(vs, n), DeepBytes(b, n));
    RootsHoldEverything(par, Allocations(vs, n), DeepAllocations(b, n));
  }

  /** If one does, and only then, a complete report leaves a category behind. */
  lemma CategoriesAreLeftBehind(p: Port, roots: seq<Category>)
    requires p.Valid() && Walks(p, roots)
    ensures var par := RecordedParents(roots, Count(roots));
            (exists i :: 0 <= i < Count(roots) && !Above(par, i, NIL)) <==> LosesCategories(p)
  {
    var vs, par := Visits(roots, true, 0), RecordedParents(roots, Count(roots));
    OwnParentsComeFromUnknown(p, roots);
    OwnParentsAreLost(par);
    if Forest(par) {
      forall k | 0 <= k < |vs| ensures !OwnParent(roots, k) { assert par[k] == RecordedParent(vs, k); }
    } else {
      var k :| 0 <= k < |par| && !(NIL <= par[k] < k);
      assert par[k] == RecordedParent(vs, k) && OwnParent(roots, k);
    }
  }

  /** A complete report shows the true parents exactly when the tables are not confused. */
  lemma ReportedParentsAreTrue(b: seq<MemoryCategory>, base: int, p: Port, roots: seq<Category>)
    requires p.Valid() && Walks(p, roots) && Reports(b, base, roots, Count(roots))
    ensures !Confused(p) <==> forall i :: 0 <= i < Count(roots) ==> b[i].parent == TrueParents(roots, Count(roots))[i]
  {
    var vs, n := Visits(roots, true, 0), Count(roots);
    ParentsAreTrueUnlessConfused(p, roots);
    assert forall i :: 0 <= i < n ==> TrueParents(roots, n)[i] == ParentSlots(roots, 0, NIL)[i];
    assert forall i :: 0 <= i < n ==> b[i].parent == RecordedParents(roots, n)[i] == RecordedParent(vs, i);
  }

  /** Unless they are, every report shows the true parents, and everything leads up to a root. */
  lemma UnconfusedReportsAreTrue(p: Port, roots: seq<Category>, n: nat)
    requires p.Valid() && Walks(p, roots) && !Confused(p) && n <= Count(roots)
    ensures RecordedParents(roots, n) == TrueParents(roots, n) && Forest(TrueParents(roots, n))
    ensures forall i :: 0 <= i < n ==> Above(RecordedParents(roots, n), i, NIL)
  {
    var vs := Visits(roots, true, 0);
    ParentsAreTrueUnlessConfused(p, roots);
    TrueParentsAreAForest(roots, n);
    forall i | 0 <= i < n ensures RecordedParents(roots, n)[i] == TrueParents(roots, n)[i] {
      assert RecordedParent(vs, i) == ParentSlots(roots, 0, NIL)[i];
    }
    OwnParentsAreLost(TrueParents(roots, n));
  }

  /** Slot by slot, whatever the truncation: the parent shown is true unless its code has come back since it was visited. */
  lemma ReportedParentIsTrue(b: seq<MemoryCategory>, base: int, roots: seq<Category>, n: nat, i: nat)
    requires Reports(b, base, roots, n) && i < n
    ensures var vs, t := Visits(roots, true, 0), TrueParents(roots, n)[i];
            b[i].parent == t <==> vs[i].isRoot || !CarriedSince(vs, t, i, vs[i].parentCode)
  {
    RecordedParentIsTrue(roots, i);
    assert TrueParents(roots, n)[i] == ParentSlots(roots, 0, NIL)[i];
    assert b[i].parent == RecordedParents(roots, n)[i] == RecordedParent(Visits(roots, true, 0), i);
  }

  /** Every category of the report can be walked to from its 0th entry. */
  ghost predicate WalkedFromTheFirst(roots: seq<Category>, n: nat)
    requires n <= Count(roots)
  {
    AllBelowTheFirst(RecordedParents(roots, n))
  }

  lemma WalkedFromTheFirstMeans(roots: seq<Category>, n: nat)
    requires n <= Count(roots)
    ensures WalkedFromTheFirst(roots, n) <==>
            forall i :: 0 < i < n ==> !RootAt(roots, i) && !OwnParent(roots, i)
  {
    var vs, par := Visits(roots, true, 0), RecordedParents(roots, n);
    EverythingIsBelow(par);
    forall i | 0 < i < n ensures 0 <= par[i] < i <==> !RootAt(roots, i) && !OwnParent(roots, i) {
      RecordedParentIsTrue(roots, i);
      assert par[i] == RecordedParent(vs, i);
    }
  }

  /**
   The documentation has every entry walked to from the 0th. Of registered tables that is so if and only if none of the
   slots written is its own parent, for a complete report if and only if no direct child of the registered UNKNOWN falls
   back. Otherwise the library's own categories are all roots, and it is so only if the buffer ends before the second.
   */
  lemma WalkedFromTheFirstWhen(p: Port, roots: seq<Category>, n: nat)
    requires p.Valid() && Walks(p, roots) && n <= Count(roots)
    ensures WalkedFromTheFirst(roots, n) <==>
            if p.registered then forall i :: 0 <= i < n ==> !OwnParent(roots, i)
            else n <= if p.data64 then 2 else 1
    ensures p.registered && n == Count(roots) ==> (WalkedFromTheFirst(roots, n) <==> !LosesCategories(p))
  {
    var vs := Visits(roots, true, 0);
    WalkedFromTheFirstMeans(roots, n);
    OtherRoots(roots);
    OwnParentsComeFromUnknown(p, roots);
    assert !OwnParent(roots, 0);
    if !p.registered {
      assert !LosesCategories(p) && forall i :: !OwnParent(roots, i);
      FirstOwnTree(p, roots);
    }
  }

  /** The library's own first root has one child on 64-bit builds, and none on others. */
  lemma FirstOwnTree(p: Port, roots: seq<Category>)
    requires p.Valid() && Walks(p, roots) && !p.registered
    ensures |roots| > 1 && 1 + Count(roots[0].children) == if p.data64 then 2 else 1
  {
    UnfoldsEach(p, p.RootCodes(), roots, 0);
    var cs := roots[0].children;
    if p.data64 {
      UnfoldsEach(p, [UNUSED_ALLOCATE32], cs, 0);
      assert |cs| == 1 && cs[0].children == [] && cs[1..] == [];
    } else {
      assert cs == [];
    }
  }

  /** The fallback that is its own parent is left behind: its deep counter is an address, and no root counts its bytes. */
  lemma UnknownIsLeftBehind(b: seq<MemoryCategory>, base: int, bytes: nat)
    requires Reports(b, base, UnknownBelowUnknownForest(bytes), 3)
    ensures b[2].parent == 2 && b[2].liveBytesShallow == ToInt64(bytes) && b[2].liveBytesDeep == AsInteger(base, 2)
    ensures b[0].liveBytesDeep == 0
  {
    var roots := UnknownBelowUnknownForest(bytes);
    var vs, par := Visits(roots, true, 0), RecordedParents(roots, 3);
    UnknownIsItsOwnParent(bytes);
    assert par == [NIL, 0, 2];
    assert LeftBehind(b[2], base, par, 2);
    assert LastChild(par, 2, 3) == 2;
    var v := Bytes(vs, 3);
    assert v[0] == 0 == v[1];
    assert Deep(par, v, 1, 3) == Deep(par, v, 1, 2) == 0;
    assert Deep(par, v, 0, 3) == Deep(par, v, 0, 2) == Add64(Deep(par, v, 0, 1), 0);
    assert Accumulated(b[0], par, v, Allocations(vs, 3), 0, 3);
  }
}
