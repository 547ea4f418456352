/**
 Memory categories as the port library walks them (port/common/omrmemcategories.c), the parent each visit
 really has, and the code-to-index map of omr/OMR_TI.cpp through which the report recovers that parent.
 */
module CategoryForest {
  import opened MachineIntegers
  import opened CategorySums

  datatype Category = Category(
    code: int, name: string, liveBytes: nat, liveAllocations: nat, children: seq<Category>)

  /** The arguments of one call of the walk function. */
  datatype Visit = Visit(
    code: int, name: string, liveBytes: nat, liveAllocations: nat, isRoot: bool, parentCode: int)

  function VisitOf(c: Category, isRoot: bool, parentCode: int): Visit {
    Visit(c.code, c.name, c.liveBytes, c.liveAllocations, isRoot, parentCode)
  }

  function Count(cs: seq<Category>): nat {
    if cs == [] then 0 else 1 + Count(cs[0].children) + Count(cs[1..])
  }

  /** The depth-first walk of `cs`, were it never stopped. */
  ghost function Visits(cs: seq<Category>, isRoot: bool, parentCode: int): (vs: seq<Visit>)
    ensures |vs| == Count(cs)
  {
    if cs == [] then []
    else [VisitOf(cs[0], isRoot, parentCode)]
         + Visits(cs[0].children, false, cs[0].code)
         + Visits(cs[1..], isRoot, parentCode)
  }

  /** For each visit of `cs`, starting at position `at`, the position at which its parent was visited. */
  ghost function ParentSlots(cs: seq<Category>, at: nat, parent: int): (ps: seq<int>)
    ensures |ps| == Count(cs)
  {
    if cs == [] then []
    else [parent]
         + ParentSlots(cs[0].children, at + 1, at)
         + ParentSlots(cs[1..], at + 1 + Count(cs[0].children), parent)
  }

  lemma {:induction false} ParentsComeFirst(cs: seq<Category>, at: nat, parent: int)
    requires NIL <= parent < at || (parent == NIL && at == 0)
    ensures forall i :: 0 <= i < Count(cs) ==> NIL <= ParentSlots(cs, at, parent)[i] < at + i
  {
    if cs != [] {
      ParentsComeFirst(cs[0].children, at + 1, at);
      ParentsComeFirst(cs[1..], at + 1 + Count(cs[0].children), parent);
    }
  }

  ghost function Codes(cs: seq<Category>): set<int> {
    if cs == [] then {} else {cs[0].code} + Codes(cs[0].children) + Codes(cs[1..])
  }

  ghost function Nodes(cs: seq<Category>): set<Category> {
    if cs == [] then {} else {cs[0]} + Nodes(cs[0].children) + Nodes(cs[1..])
  }

  lemma {:induction false} CodesAreNodes(cs: seq<Category>, code: int) returns (c: Category)
    requires code in Codes(cs)
    ensures c in Nodes(cs) && c.code == code
  {
    if code == cs[0].code {
      c := cs[0];
    } else if code in Codes(cs[0].children) {
      c := CodesAreNodes(cs[0].children, code);
    } else {
      c := CodesAreNodes(cs[1..], code);
    }
  }

  lemma {:induction false} NodesCarryCodes(cs: seq<Category>, c: Category)
    requires c in Nodes(cs)
    ensures c.code in Codes(cs)
  {
    if c in Nodes(cs[0].children) {
      NodesCarryCodes(cs[0].children, c);
    } else if c != cs[0] {
      NodesCarryCodes(cs[1..], c);
    }
  }

  lemma {:induction false} NodesAreSmaller(cs: seq<Category>, c: Category)
    requires c in Nodes(cs)
    ensures Count(c.children) < Count(cs)
  {
    if c in Nodes(cs[0].children) {
      NodesAreSmaller(cs[0].children, c);
    } else if c != cs[0] {
      NodesAreSmaller(cs[1..], c);
    }
  }

  // ---------- Parents recovered from codes ----------

  /** The last of the first `n` visits that carried `code`. */
  ghost function LastSlot(vs: seq<Visit>, n: nat, code: int): (s: int)
    requires n <= |vs|
    ensures NIL <= s < n
  {
    if n == 0 then NIL else if vs[n - 1].code == code then n - 1 else LastSlot(vs, n - 1, code)
  }

  /** The parent the report records for visit `i`, whose own code has already entered the mapping. */
  ghost function RecordedParent(vs: seq<Visit>, i: nat): int
    requires i < |vs|
  {
    if vs[i].isRoot then NIL else LastSlot(vs, i + 1, vs[i].parentCode)
  }

  /** The siblings `cs` and everything below them are the visits of `vs` from position `at` on. */
  ghost predicate Occupies(vs: seq<Visit>, cs: seq<Category>, at: nat, isRoot: bool, pc: int) {
    && at + Count(cs) <= |vs|
    && (cs == [] || (&& vs[at] == VisitOf(cs[0], isRoot, pc)
                     && Occupies(vs, cs[0].children, at + 1, false, cs[0].code)
                     && Occupies(vs, cs[1..], at + 1 + Count(cs[0].children), isRoot, pc)))
  }

  lemma SplitSlice<T>(s: seq<T>, at: nat, x: T, b: seq<T>, c: seq<T>)
    requires at + 1 + |b| + |c| <= |s| && s[at..at + 1 + |b| + |c|] == [x] + b + c
    ensures s[at] == x
    ensures s[at + 1..at + 1 + |b|] == b
    ensures s[at + 1 + |b|..at + 1 + |b| + |c|] == c
  {
    var t := [x] + b + c;
    assert forall k :: 0 <= k < |t| ==> s[at + k] == t[k];
    assert t[0] == x && t[1..1 + |b|] == b && t[1 + |b|..] == c;
  }

  ghost predicate SliceIs<T>(s: seq<T>, at: nat, t: seq<T>) {
    at + |t| <= |s| && s[at..at + |t|] == t
  }

  lemma SliceSplits<T>(s: seq<T>, at: nat, x: T, b: seq<T>, c: seq<T>)
    requires SliceIs(s, at, [x] + b + c)
    ensures at < |s| && s[at] == x && SliceIs(s, at + 1, b) && SliceIs(s, at + 1 + |b|, c)
  {
    SplitSlice(s, at, x, b, c);
  }

  /** Visits that stand in a sequence occupy it. */
  lemma {:induction false} SliceOccupies(vs: seq<Visit>, cs: seq<Category>, at: nat, isRoot: bool, pc: int)
    requires SliceIs(vs, at, Visits(cs, isRoot, pc))
    ensures Occupies(vs, cs, at, isRoot, pc)
  {
    if cs != [] {
      var below, after := Visits(cs[0].children, false, cs[0].code), Visits(cs[1..], isRoot, pc);
      SliceSplits(vs, at, VisitOf(cs[0], isRoot, pc), below, after);
      SliceOccupies(vs, cs[0].children, at + 1, false, cs[0].code);
      SliceOccupies(vs, cs[1..], at + 1 + |below|, isRoot, pc);
    }
  }

  lemma {:induction false} VisitsCarryCodes(vs: seq<Visit>, cs: seq<Category>, at: nat, isRoot: bool, pc: int)
    requires Occupies(vs, cs, at, isRoot, pc)
    ensures forall j :: at <= j < at + Count(cs) ==> vs[j].code in Codes(cs)
  {
    if cs != [] {
      VisitsCarryCodes(vs, cs[0].children, at + 1, false, cs[0].code);
      VisitsCarryCodes(vs, cs[1..], at + 1 + Count(cs[0].children), isRoot, pc);
    }
  }

  /** Visiting `cs` moves the last slot of a code exactly when `cs` carries it. */
  lemma {:induction false} LastSlotAcross(vs: seq<Visit>, cs: seq<Category>, at: nat, isRoot: bool, pc: int, code: int)
    requires Occupies(vs, cs, at, isRoot, pc)
    ensures code !in Codes(cs) ==> LastSlot(vs, at + Count(cs), code) == LastSlot(vs, at, code)
    ensures code in Codes(cs) ==> at <= LastSlot(vs, at + Count(cs), code)
  {
    if cs != [] {
      LastSlotAcross(vs, cs[0].children, at + 1, false, cs[0].code, code);
      LastSlotAcross(vs, cs[1..], at + 1 + Count(cs[0].children), isRoot, pc, code);
    }
  }

  lemma PickFrom<T>(x: T, b: seq<T>, c: seq<T>, i: nat)
    requires i < 1 + |b| + |c|
    ensures ([x] + b + c)[i] == if i == 0 then x else if i <= |b| then b[i - 1] else c[i - 1 - |b|]
  {
  }

  /** Where the parent of the k-th category at or below the siblings `cs` was visited. */
  ghost function TrueParent(cs: seq<Category>, at: nat, parent: int, k: nat): int
    requires k < Count(cs)
  {
    var n := Count(cs[0].children);
    if k == 0 then parent
    else if k <= n then TrueParent(cs[0].children, at + 1, at, k - 1)
    else TrueParent(cs[1..], at + 1 + n, parent, k - 1 - n)
  }

  lemma {:induction false} ParentSlotIsTrueParent(cs: seq<Category>, at: nat, parent: int, k: nat)
    requires k < Count(cs)
    ensures ParentSlots(cs, at, parent)[k] == TrueParent(cs, at, parent, k)
  {
    var n := Count(cs[0].children);
    var below, after := ParentSlots(cs[0].children, at + 1, at), ParentSlots(cs[1..], at + 1 + n, parent);
    assert ParentSlots(cs, at, parent) == [parent] + below + after;
    PickFrom(parent, below, after, k);
    if 0 < k <= n {
      ParentSlotIsTrueParent(cs[0].children, at + 1, at, k - 1);
    } else if n < k {
      ParentSlotIsTrueParent(cs[1..], at + 1 + n, parent, k - 1 - n);
    }
  }

  /**
   The children `cs` of a category coded `pc` are clear of its code: none carries it, and of those that have a
   sibling after them none has it anywhere below.
   */
  ghost predicate Clear(cs: seq<Category>, pc: int) {
    cs == [] || (cs[0].code != pc && (|cs| > 1 ==> pc !in Codes(cs[0].children)) && Clear(cs[1..], pc))
  }

  /** Every category's children are clear of its code. */
  ghost predicate Untangled(cs: seq<Category>) {
    cs == [] || (Clear(cs[0].children, cs[0].code) && Untangled(cs[0].children) && Untangled(cs[1..]))
  }

  lemma {:induction false} ClearMeans(cs: seq<Category>, pc: int)
    ensures Clear(cs, pc) <==>
            forall k :: 0 <= k < |cs| ==> cs[k].code != pc && (k < |cs| - 1 ==> pc !in Codes(cs[k].children))
  {
    if cs != [] {
      ClearMeans(cs[1..], pc);
      assert forall k :: 1 <= k < |cs| ==> cs[k] == cs[1..][k - 1];
    }
  }

  lemma {:induction false} UntangledMeans(cs: seq<Category>)
    ensures Untangled(cs) <==> forall c :: c in Nodes(cs) ==> Clear(c.children, c.code)
  {
    if cs != [] {
      UntangledMeans(cs[0].children);
      UntangledMeans(cs[1..]);
    }
  }

  /**
   In an untangled forest every recorded parent is the true one. Unless the siblings `cs` are roots, their parent was
   visited at `q`, and its code not again before them.
   */
  lemma {:induction false} ParentIsFound(vs: seq<Visit>, cs: seq<Category>, at: nat, isRoot: bool, pc: int, q: int, k: nat)
    requires Occupies(vs, cs, at, isRoot, pc) && k < Count(cs)
    requires if isRoot then q == NIL else 0 <= q == LastSlot(vs, at, pc) && Clear(cs, pc)
    requires Untangled(cs)
    ensures RecordedParent(vs, at + k) == TrueParent(cs, at, q, k)
  {
    var n := Count(cs[0].children);
    if 0 < k <= n {
      ParentIsFound(vs, cs[0].children, at + 1, false, cs[0].code, at, k - 1);
    } else if n < k {
      LastSlotAcross(vs, cs[0].children, at + 1, false, cs[0].code, pc);
      ParentIsFound(vs, cs[1..], at + 1 + n, isRoot, pc, q, k - 1 - n);
    }
  }

  /** In a tangled one, some recorded parent is wrong. */
  lemma {:induction false} SomeParentIsWrong(vs: seq<Visit>, cs: seq<Category>, at: nat, isRoot: bool, pc: int, q: int)
    returns (k: nat)
    requires Occupies(vs, cs, at, isRoot, pc)
    requires if isRoot then q == NIL else 0 <= q == LastSlot(vs, at, pc)
    requires !Untangled(cs) || !(isRoot || Clear(cs, pc))
    ensures k < Count(cs) && RecordedParent(vs, at + k) != TrueParent(cs, at, q, k)
  {
    var n := Count(cs[0].children);
    if !isRoot && cs[0].code == pc {
      k := 0;
    } else if !Clear(cs[0].children, cs[0].code) || !Untangled(cs[0].children) {
      var j := SomeParentIsWrong(vs, cs[0].children, at + 1, false, cs[0].code, at);
      k := 1 + j;
    } else {
      LastSlotAcross(vs, cs[0].children, at + 1, false, cs[0].code, pc);
      assert |cs| > 1;
      k := 1 + n;
      if isRoot || pc !in Codes(cs[0].children) {
        var j := SomeParentIsWrong(vs, cs[1..], at + 1 + n, isRoot, pc, q);
        k := 1 + n + j;
      }
    }
  }

  /** The walk of `roots` from its beginning. */
  lemma WalkOccupies(roots: seq<Category>)
    ensures Occupies(Visits(roots, true, 0), roots, 0, true, 0)
  {
    var vs := Visits(roots, true, 0);
    assert SliceIs(vs, 0, vs);
    SliceOccupies(vs, roots, 0, true, 0);
  }

  /** For any forest whatever: all parents recorded are the true ones if and only if it is untangled. */
  lemma RecordedParentsAreTrue(roots: seq<Category>)
    ensures var vs := Visits(roots, true, 0);
            Untangled(roots) <==> forall i :: 0 <= i < |vs| ==> RecordedParent(vs, i) == ParentSlots(roots, 0, NIL)[i]
  {
    var vs := Visits(roots, true, 0);
    WalkOccupies(roots);
    forall i | 0 <= i < |vs| ensures ParentSlots(roots, 0, NIL)[i] == TrueParent(roots, 0, NIL, i) {
      ParentSlotIsTrueParent(roots, 0, NIL, i);
    }
    if Untangled(roots) {
      forall i | 0 <= i < |vs| ensures RecordedParent(vs, 0 + i) == TrueParent(roots, 0, NIL, i) {
        ParentIsFound(vs, roots, 0, true, 0, NIL, i);
      }
    } else {
      var i := SomeParentIsWrong(vs, roots, 0, true, 0, NIL);
      assert RecordedParent(vs, 0 + i) != ParentSlots(roots, 0, NIL)[i];
    }
  }

  /** The last slot with a code carried at `q` is `q` exactly when the code is not carried again. */
  lemma {:induction false} LastSlotIs(vs: seq<Visit>, n: nat, code: int, q: nat)
    requires q < n <= |vs| && vs[q].code == code
    ensures q <= LastSlot(vs, n, code)
    ensures LastSlot(vs, n, code) == q <==> forall j :: q < j < n ==> vs[j].code != code
  {
    if q < n - 1 { LastSlotIs(vs, n - 1, code, q); }
  }

  /** True parents have been visited, under the code their children name. */
  lemma {:induction false} TrueParentCarries(vs: seq<Visit>, cs: seq<Category>, at: nat, isRoot: bool, pc: int, q: int, k: nat)
    requires Occupies(vs, cs, at, isRoot, pc) && k < Count(cs)
    requires if isRoot then q == NIL else 0 <= q < at && vs[q].code == pc
    ensures var t := TrueParent(cs, at, q, k);
            if vs[at + k].isRoot then t == NIL else 0 <= t < at + k && vs[t].code == vs[at + k].parentCode
  {
    var n := Count(cs[0].children);
    if 0 < k <= n {
      TrueParentCarries(vs, cs[0].children, at + 1, false, cs[0].code, at, k - 1);
    } else if n < k {
      TrueParentCarries(vs, cs[1..], at + 1 + n, isRoot, pc, q, k - 1 - n);
    }
  }

  /** A visit after `t`, up to visit `i`, has carried `code`. */
  ghost predicate CarriedSince(vs: seq<Visit>, t: int, i: nat, code: int)
    requires i < |vs|
  {
    exists j :: 0 <= j <= i && t < j && vs[j].code == code
  }

  /** Slot by slot: the recorded parent is true exactly for a root, or if its code has not come back since, itself included. */
  lemma RecordedParentIsTrue(roots: seq<Category>, i: nat)
    requires i < Count(roots)
    ensures var vs, t := Visits(roots, true, 0), ParentSlots(roots, 0, NIL)[i];
            && (vs[i].isRoot <==> t == NIL) && (vs[i].isRoot <==> RecordedParent(vs, i) == NIL)
            && (RecordedParent(vs, i) == t <==> vs[i].isRoot || !CarriedSince(vs, t, i, vs[i].parentCode))
  {
    var vs := Visits(roots, true, 0);
    WalkOccupies(roots);
    ParentSlotIsTrueParent(roots, 0, NIL, i);
    TrueParentCarries(vs, roots, 0, true, 0, NIL, i);
    LookedUpParent(vs, i, TrueParent(roots, 0, NIL, i));
  }

  lemma LookedUpParent(vs: seq<Visit>, i: nat, t: int)
    requires i < |vs| && if vs[i].isRoot then t == NIL else 0 <= t < i && vs[t].code == vs[i].parentCode
    ensures vs[i].isRoot <==> RecordedParent(vs, i) == NIL
    ensures RecordedParent(vs, i) == t <==> vs[i].isRoot || !CarriedSince(vs, t, i, vs[i].parentCode)
  {
    if !vs[i].isRoot { LastSlotIs(vs, i + 1, vs[i].parentCode, t); }
  }

  /** Nothing below the roots is a root. */
  lemma {:induction false} InnerVisitsAreNoRoots(vs: seq<Visit>, cs: seq<Category>, at: nat, pc: int)
    requires Occupies(vs, cs, at, false, pc)
    ensures forall j :: at <= j < at + Count(cs) ==> !vs[j].isRoot
  {
    if cs != [] {
      InnerVisitsAreNoRoots(vs, cs[0].children, at + 1, cs[0].code);
      InnerVisitsAreNoRoots(vs, cs[1..], at + 1 + Count(cs[0].children), pc);
    }
  }

  ghost predicate RootAt(roots: seq<Category>, i: int) {
    0 <= i < Count(roots) && Visits(roots, true, 0)[i].isRoot
  }

  /** The second root comes when the first one's tree is over. */
  lemma OtherRoots(roots: seq<Category>)
    requires roots != []
    ensures var n := 1 + Count(roots[0].children);
            && n <= Count(roots) && RootAt(roots, 0) && (forall j :: 0 < j < n ==> !RootAt(roots, j))
            && (n < Count(roots) <==> |roots| > 1) && (n < Count(roots) ==> RootAt(roots, n))
  {
    var vs := Visits(roots, true, 0);
    WalkOccupies(roots);
    InnerVisitsAreNoRoots(vs, roots[0].children, 1, roots[0].code);
  }

  // ---------- Slots recorded as their own parents ----------

  ghost predicate OwnParent(roots: seq<Category>, i: int) {
    0 <= i < Count(roots) && RecordedParent(Visits(roots, true, 0), i) == i
  }

  /** Every visit below the siblings `cs` is that of some category's child. */
  lemma {:induction false} VisitsAreOfChildren(vs: seq<Visit>, cs: seq<Category>, at: nat, isRoot: bool, pc: int, i: nat)
    returns (c: Category, m: nat)
    requires Occupies(vs, cs, at, isRoot, pc) && at <= i < at + Count(cs)
    ensures || (m < |cs| && vs[i] == VisitOf(cs[m], isRoot, pc))
            || (c in Nodes(cs) && m < |c.children| && vs[i] == VisitOf(c.children[m], false, c.code))
  {
    c, m := cs[0], 0;
    var rest := at + 1 + Count(cs[0].children);
    if at < i < rest {
      c, m := VisitsAreOfChildren(vs, cs[0].children, at + 1, false, cs[0].code, i);
      if !(c in Nodes(cs[0].children) && m < |c.children| && vs[i] == VisitOf(c.children[m], false, c.code)) { c := cs[0]; }
    } else if rest <= i {
      c, m := VisitsAreOfChildren(vs, cs[1..], rest, isRoot, pc, i);
      if !(c in Nodes(cs[1..]) && m < |c.children| && vs[i] == VisitOf(c.children[m], false, c.code)) { m := m + 1; }
    }
  }

  lemma {:induction false} MembersAreVisited(vs: seq<Visit>, cs: seq<Category>, at: nat, isRoot: bool, pc: int, m: nat)
    returns (i: nat)
    requires Occupies(vs, cs, at, isRoot, pc) && m < |cs|
    ensures at <= i < at + Count(cs) && vs[i] == VisitOf(cs[m], isRoot, pc)
  {
    i := at;
    if m > 0 { i := MembersAreVisited(vs, cs[1..], at + 1 + Count(cs[0].children), isRoot, pc, m - 1); }
  }

  lemma {:induction false} ChildrenAreVisited(vs: seq<Visit>, cs: seq<Category>, at: nat, isRoot: bool, pc: int,
                                              c: Category, m: nat) returns (i: nat)
    requires Occupies(vs, cs, at, isRoot, pc) && c in Nodes(cs) && m < |c.children|
    ensures at <= i < at + Count(cs) && vs[i] == VisitOf(c.children[m], false, c.code)
  {
    if c == cs[0] {
      i := MembersAreVisited(vs, cs[0].children, at + 1, false, cs[0].code, m);
    } else if c in Nodes(cs[0].children) {
      i := ChildrenAreVisited(vs, cs[0].children, at + 1, false, cs[0].code, c, m);
    } else {
      i := ChildrenAreVisited(vs, cs[1..], at + 1 + Count(cs[0].children), isRoot, pc, c, m);
    }
  }

  /** A slot is recorded as its own parent exactly when a category has a child with the code of its own. */
  lemma OwnParentsMean(roots: seq<Category>)
    ensures (exists i :: OwnParent(roots, i)) <==>
            exists c, m :: c in Nodes(roots) && 0 <= m < |c.children| && c.children[m].code == c.code
  {
    var vs := Visits(roots, true, 0);
    WalkOccupies(roots);
    if exists i :: OwnParent(roots, i) {
      var i :| OwnParent(roots, i);
      var c, m := VisitsAreOfChildren(vs, roots, 0, true, 0, i);
      assert c in Nodes(roots) && c.children[m].code == c.code;
    }
    if exists c, m :: c in Nodes(roots) && 0 <= m < |c.children| && c.children[m].code == c.code {
      var c, m :| c in Nodes(roots) && 0 <= m < |c.children| && c.children[m].code == c.code;
      var i := ChildrenAreVisited(vs, roots, 0, true, 0, c, m);
      assert OwnParent(roots, i);
    }
  }

  // ---------- The index map ----------

  const LANGUAGE_CATEGORY_LIMIT: int := 0x7FFF_FFFF

  function OmrIndexFromCode(code: int): int {
    code % TWO_31
  }

  /** indexFromCategoryCode, with its `uint32_t` arithmetic. */
  function IndexFromCategoryCode(mappingSize: int, code: int): int {
    if code > LANGUAGE_CATEGORY_LIMIT then (mappingSize % TWO_32 - 1 - OmrIndexFromCode(code)) % TWO_32 else code
  }

  ghost predicate CodesAreUint32(vs: seq<Visit>) {
    forall i :: 0 <= i < |vs| ==> 0 <= vs[i].code < TWO_32
  }

  /** Codes with which the mapping can be indexed. */
  ghost predicate Walkable(vs: seq<Visit>) {
    && CodesAreUint32(vs)
    && forall i :: 0 <= i < |vs| ==> vs[i].code != LANGUAGE_CATEGORY_LIMIT
  }

  function Max(a: int, b: int): int {
    if a > b then a else b
  }

  /** The largest language code among the first `n` visits, as the slot-counting walk keeps it. */
  ghost function MaxLanguageIndex(vs: seq<Visit>, n: nat): nat
    requires n <= |vs| && CodesAreUint32(vs)
  {
    if n == 0 then 0
    else if vs[n - 1].code < LANGUAGE_CATEGORY_LIMIT then Max(MaxLanguageIndex(vs, n - 1), vs[n - 1].code)
    else MaxLanguageIndex(vs, n - 1)
  }

  ghost function MaxOmrIndex(vs: seq<Visit>, n: nat): nat
    requires n <= |vs| && CodesAreUint32(vs)
  {
    if n == 0 then 0
    else if vs[n - 1].code > LANGUAGE_CATEGORY_LIMIT then Max(MaxOmrIndex(vs, n - 1), OmrIndexFromCode(vs[n - 1].code))
    else MaxOmrIndex(vs, n - 1)
  }

  ghost function MappingSize(vs: seq<Visit>): nat
    requires CodesAreUint32(vs)
  {
    MaxLanguageIndex(vs, |vs|) + 1 + MaxOmrIndex(vs, |vs|) + 1
  }

  lemma {:induction false} MaximaBound(vs: seq<Visit>, n: nat)
    requires n <= |vs| && CodesAreUint32(vs)
    ensures MaxLanguageIndex(vs, n) < LANGUAGE_CATEGORY_LIMIT && MaxOmrIndex(vs, n) < TWO_31
    ensures forall i :: 0 <= i < n && vs[i].code < LANGUAGE_CATEGORY_LIMIT ==> vs[i].code <= MaxLanguageIndex(vs, n)
    ensures forall i :: 0 <= i < n && vs[i].code > LANGUAGE_CATEGORY_LIMIT ==>
              OmrIndexFromCode(vs[i].code) <= MaxOmrIndex(vs, n)
  {
    if n > 0 { MaximaBound(vs, n - 1); }
  }

  /**
   The index of a visited code lies inside the mapping exactly when the code is not the limit itself, or the
   mapping happens to be larger than the limit. No `uint32_t` operation on the way wraps.
   */
  lemma IndexIsInBounds(vs: seq<Visit>, i: nat)
    requires CodesAreUint32(vs) && i < |vs|
    ensures MappingSize(vs) < TWO_32
    ensures 0 <= IndexFromCategoryCode(MappingSize(vs), vs[i].code) < MappingSize(vs) <==>
            vs[i].code != LANGUAGE_CATEGORY_LIMIT || MappingSize(vs) > LANGUAGE_CATEGORY_LIMIT
    ensures vs[i].code <= 0x7FFF_FFFF ==> IndexFromCategoryCode(MappingSize(vs), vs[i].code) == vs[i].code
    ensures vs[i].code > LANGUAGE_CATEGORY_LIMIT ==>
              IndexFromCategoryCode(MappingSize(vs), vs[i].code) == MappingSize(vs) - 1 - (vs[i].code - 0x8000_0000)
  {
    MaximaBound(vs, |vs|);
  }

  /** Different visited codes get different indices. */
  lemma IndexIsInjective(vs: seq<Visit>, i: nat, j: nat)
    requires CodesAreUint32(vs) && i < |vs| && j < |vs|
    requires vs[i].code != LANGUAGE_CATEGORY_LIMIT && vs[j].code != LANGUAGE_CATEGORY_LIMIT
    ensures IndexFromCategoryCode(MappingSize(vs), vs[i].code) == IndexFromCategoryCode(MappingSize(vs), vs[j].code)
            <==> vs[i].code == vs[j].code
  {
    MaximaBound(vs, |vs|);
    IndexIsInBounds(vs, i);
    IndexIsInBounds(vs, j);
  }
}
