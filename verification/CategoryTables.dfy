/**
 The tables behind the category walk: registration (port/common/omrportcontrol.c), look-up with its fallback
 (port/common/omrmemcategories.c), and what the look-up means for the parents a report records.
 */
module CategoryTables {
  import opened MachineIntegers
  import opened CategorySums
  import opened CategoryForest

  const UNKNOWN: int := 0x8000_0000
  const PORT_LIBRARY: int := 0x8000_0001
  const UNUSED_ALLOCATE32: int := 0x8000_0009

  /** OMRMemCategory: children are named by their codes. */
  datatype Entry = Entry(code: int, name: string, liveBytes: nat, liveAllocations: nat, children: seq<int>)

  /**
   What the port library knows of categories. Both registered arrays are one table here, since language codes and
   OMR codes each have an index of their own. `data64` builds have a third category of the library's own.
   */
  datatype Port = Port(
    data64: bool, registered: bool, table: map<int, Entry>,
    unknown: Entry, portLibrary: Entry, unusedAllocate32: Entry)
  {
    ghost predicate Valid() {
      && unknown.code == UNKNOWN && unknown.children == []
      && portLibrary.code == PORT_LIBRARY && portLibrary.children == (if data64 then [UNUSED_ALLOCATE32] else [])
      && unusedAllocate32.code == UNUSED_ALLOCATE32 && unusedAllocate32.children == []
      && (forall code :: code in table ==> 0 <= code < TWO_32 && code != LANGUAGE_CATEGORY_LIMIT && table[code].code == code)
      && (registered ==> 0 in table && Find(table, PORT_LIBRARY, portLibrary)
                         && (data64 ==> Find(table, UNUSED_ALLOCATE32, unusedAllocate32)))
      && (!registered ==> table == map[])
    }

    /** The look-up would not need the category that stands for all unknown codes. */
    predicate Known(code: int) {
      code in table || code == PORT_LIBRARY || (data64 && code == UNUSED_ALLOCATE32)
    }

    /** omrmem_get_category. */
    function GetCategory(code: int): Entry {
      if code in table then table[code]
      else if code == PORT_LIBRARY then portLibrary
      else if data64 && code == UNUSED_ALLOCATE32 then unusedAllocate32
      else unknown
    }

    /** The codes of the categories the walk starts from. */
    function RootCodes(): seq<int> {
      if registered then [0]
      else [PORT_LIBRARY, UNKNOWN] + if data64 then [UNUSED_ALLOCATE32] else []
    }
  }

  predicate Find(table: map<int, Entry>, code: int, e: Entry) {
    code in table && table[code] == e
  }

  /** The entry registered last under `code`. */
  ghost predicate LastRegistered(categories: seq<Entry>, n: nat, code: int, i: int)
    requires n <= |categories|
  {
    0 <= i < n && categories[i].code == code && forall j :: i < j < n ==> categories[j].code != code
  }

  /** The table holds the last entry of each code among the first `n`, except for the code that belongs to no array. */
  ghost predicate Stores(table: map<int, Entry>, categories: seq<Entry>, n: nat, code: int)
    requires n <= |categories|
  {
    && (code in table <==> code != LANGUAGE_CATEGORY_LIMIT && exists i :: 0 <= i < n && categories[i].code == code)
    && (code in table ==> exists i :: LastRegistered(categories, n, code, i) && table[code] == categories[i])
  }

  function Put(table: map<int, Entry>, e: Entry): map<int, Entry> {
    if e.code == LANGUAGE_CATEGORY_LIMIT then table else table[e.code := e]
  }

  lemma StoresOneMore(table: map<int, Entry>, categories: seq<Entry>, n: nat, m: nat)
    requires n < |categories| && m == n + 1 && forall code :: Stores(table, categories, n, code)
    ensures forall code :: Stores(Put(table, categories[n]), categories, m, code)
  {
    forall code ensures Stores(Put(table, categories[n]), categories, m, code) {
      assert Stores(table, categories, n, code);
      if categories[n].code == code {
        assert LastRegistered(categories, m, code, n);
      } else if code in table {
        var i :| LastRegistered(categories, n, code, i) && table[code] == categories[i];
        assert LastRegistered(categories, m, code, i);
      }
    }
  }

  /** The port-control call that registers an application's categories; the library's own entries are put in last. */
  method SetCategories(p: Port, categories: seq<Entry>, allocates: bool) returns (rc: int, q: Port)
    requires p.Valid() && forall i :: 0 <= i < |categories| ==> 0 <= categories[i].code < TWO_32
    ensures p.registered || !allocates ==> rc == 1 && q == p
    ensures !p.registered && allocates ==>
              && rc == 0 && q == p.(registered := true, table := q.table)
              && Find(q.table, PORT_LIBRARY, p.portLibrary)
              && (p.data64 ==> Find(q.table, UNUSED_ALLOCATE32, p.unusedAllocate32))
              && forall code :: code != PORT_LIBRARY && !(p.data64 && code == UNUSED_ALLOCATE32) ==>
                   Stores(q.table, categories, |categories|, code)
    ensures (exists i :: 0 <= i < |categories| && categories[i].code == 0) ==> q.Valid()
  {
    if p.registered || !allocates { return 1, p; }
    var table := map[];
    for n := 0 to |categories|
      invariant forall code :: Stores(table, categories, n, code)
    {
      StoresOneMore(table, categories, n, n + 1);
      table := Put(table, categories[n]);
    }
    ghost var own := table;
    table := table[PORT_LIBRARY := p.portLibrary];
    if p.data64 { table := table[UNUSED_ALLOCATE32 := p.unusedAllocate32]; }
    q, rc := p.(registered := true, table := table), 0;
    forall code | code != PORT_LIBRARY && !(p.data64 && code == UNUSED_ALLOCATE32)
      ensures Stores(q.table, categories, |categories|, code)
    {
      assert Stores(own, categories, |categories|, code);
    }
    if exists i :: 0 <= i < |categories| && categories[i].code == 0 {
      forall code | code in table
        ensures 0 <= code < TWO_32 && code != LANGUAGE_CATEGORY_LIMIT && table[code].code == code
      {
        assert Stores(own, categories, |categories|, code);
      }
      assert Stores(own, categories, |categories|, 0);
    }
  }

  // ---------- The forest a walk unfolds ----------

  /** `c` shows the entry itself. */
  ghost predicate Names(e: Entry, c: Category) {
    && c.code == e.code && c.name == e.name
    && c.liveBytes == e.liveBytes && c.liveAllocations == e.liveAllocations
  }

  /** Looking up `codes`, their entries' children, and so on, comes to an end and yields `cs`. */
  ghost predicate Unfolds(p: Port, codes: seq<int>, cs: seq<Category>)
    decreases cs
  {
    && |codes| == |cs|
    && (cs == [] || (&& Names(p.GetCategory(codes[0]), cs[0])
                     && Unfolds(p, p.GetCategory(codes[0]).children, cs[0].children)
                     && Unfolds(p, codes[1..], cs[1..])))
  }

  ghost predicate IsTreeOf(p: Port, code: int, c: Category) {
    Names(p.GetCategory(code), c) && Unfolds(p, p.GetCategory(code).children, c.children)
  }

  /** The walk of the tables comes to an end, and visits `roots`. */
  ghost predicate Walks(p: Port, roots: seq<Category>) {
    Unfolds(p, p.RootCodes(), roots)
  }

  lemma {:induction false} UnfoldsEach(p: Port, codes: seq<int>, cs: seq<Category>, j: nat)
    requires Unfolds(p, codes, cs) && j < |cs|
    ensures IsTreeOf(p, codes[j], cs[j])
  {
    if j > 0 { UnfoldsEach(p, codes[1..], cs[1..], j - 1); }
  }

  /** The tables and the codes determine the forest. */
  lemma {:induction false} UnfoldsOnce(p: Port, codes: seq<int>, cs: seq<Category>, ds: seq<Category>)
    requires Unfolds(p, codes, cs) && Unfolds(p, codes, ds)
    ensures cs == ds
    decreases cs
  {
    if cs != [] {
      UnfoldsOnce(p, p.GetCategory(codes[0]).children, cs[0].children, ds[0].children);
      UnfoldsOnce(p, codes[1..], cs[1..], ds[1..]);
      assert cs == [cs[0]] + cs[1..] && ds == [ds[0]] + ds[1..];
    }
  }

  /** An entry never occurs below itself: its tree would contain itself. */
  lemma NoEntryBelowItself(p: Port, x: int, y: int, c: Category, d: Category)
    requires IsTreeOf(p, x, c) && IsTreeOf(p, y, d) && d in Nodes(c.children)
    ensures p.GetCategory(x) != p.GetCategory(y)
  {
    if p.GetCategory(x) == p.GetCategory(y) {
      UnfoldsOnce(p, p.GetCategory(x).children, c.children, d.children);
      NodesAreSmaller(c.children, d);
      assert false;
    }
  }

  /** What a look-up finds: the application's entry, one of the library's own, or the one that stands for all the rest. */
  lemma LookUps(p: Port, code: int)
    requires p.Valid()
    ensures var e := p.GetCategory(code);
            && (code in p.table ==> e == p.table[code])
            && (code == 0x8000_0001 ==> e == p.portLibrary)
            && (p.data64 && code == 0x8000_0009 ==> e == p.unusedAllocate32)
            && (code !in p.table && code != 0x8000_0001 && !(p.data64 && code == 0x8000_0009) ==>
                  e == p.unknown && e.code == 0x8000_0000)
            && (e.code == code <==> p.Known(code) || code == 0x8000_0000)
  {
  }

  /**
   The roots of a walk: the application's category 0, alone, or else the library's own categories, among them the unused
   32-bit regions that its first category has as a child too.
   */
  lemma RootsOfTheWalk(p: Port, roots: seq<Category>)
    requires p.Valid() && Walks(p, roots)
    ensures p.registered ==> |roots| == 1 && Names(p.table[0], roots[0]) && Unfolds(p, p.table[0].children, roots[0].children)
    ensures !p.registered ==>
              && |roots| == (if p.data64 then 3 else 2)
              && Names(p.portLibrary, roots[0]) && Names(p.unknown, roots[1]) && roots[1].children == []
              && (if p.data64
                  then && Names(p.unusedAllocate32, roots[2]) && roots[2].children == []
                       && |roots[0].children| == 1 && Names(p.unusedAllocate32, roots[0].children[0])
                       && roots[0].children[0].children == []
                  else roots[0].children == [])
    ensures !p.registered ==> Count(roots) == if p.data64 then 4 else 2
  {
    forall j | 0 <= j < |roots| ensures IsTreeOf(p, p.RootCodes()[j], roots[j]) { UnfoldsEach(p, p.RootCodes(), roots, j); }
    if !p.registered {
      if p.data64 {
        UnfoldsEach(p, [UNUSED_ALLOCATE32], roots[0].children, 0);
        assert roots == [roots[0], roots[1], roots[2]] && roots[0].children == [roots[0].children[0]];
        assert Count([roots[2]]) == 1 && Count([roots[1], roots[2]]) == 2 && Count(roots[0].children) == 1;
        assert roots[1..] == [roots[1], roots[2]] && roots[1..][1..] == [roots[2]];
      } else {
        assert roots == [roots[0], roots[1]] && roots[1..] == [roots[1]];
        assert Count([roots[1]]) == 1;
      }
    }
  }

  // ---------- Reachability in the tables ----------

  ghost predicate Path(p: Port, path: seq<int>) {
    path != [] && forall k :: 0 <= k < |path| - 1 ==> path[k + 1] in p.GetCategory(path[k]).children
  }

  ghost predicate Reaches(p: Port, from: int, to: int) {
    exists path :: Path(p, path) && path[0] == from && path[|path| - 1] == to
  }

  lemma ReachesItself(p: Port, code: int)
    ensures Reaches(p, code, code)
  {
    assert Path(p, [code]);
  }

  lemma ReachesFurther(p: Port, from: int, child: int, to: int)
    requires child in p.GetCategory(from).children && Reaches(p, child, to)
    ensures Reaches(p, from, to)
  {
    var path :| Path(p, path) && path[0] == child && path[|path| - 1] == to;
    var longer := [from] + path;
    forall k | 0 <= k < |longer| - 1 ensures longer[k + 1] in p.GetCategory(longer[k]).children {
      if k > 0 { assert longer[k + 1] == path[k - 1 + 1] && longer[k] == path[k - 1]; }
    }
    assert Path(p, longer);
  }

  /** What a walk visits is what its tables reach. */
  lemma {:induction false} NodesAreReached(p: Port, codes: seq<int>, cs: seq<Category>, d: Category)
    returns (j: nat, x: int)
    requires Unfolds(p, codes, cs) && d in Nodes(cs)
    ensures j < |cs| && (d == cs[j] || d in Nodes(cs[j].children))
    ensures Reaches(p, codes[j], x) && IsTreeOf(p, x, d)
    ensures d == cs[j] ==> x == codes[j]
    decreases cs
  {
    if d == cs[0] {
      j, x := 0, codes[0];
      ReachesItself(p, x);
    } else if d in Nodes(cs[0].children) {
      j := 0;
      var i;
      i, x := NodesAreReached(p, p.GetCategory(codes[0]).children, cs[0].children, d);
      ReachesFurther(p, codes[0], p.GetCategory(codes[0]).children[i], x);
    } else {
      j, x := NodesAreReached(p, codes[1..], cs[1..], d);
      j := j + 1;
    }
  }

  lemma {:induction false} ReachedIsVisited(p: Port, c: Category, path: seq<int>) returns (d: Category)
    requires Path(p, path) && IsTreeOf(p, path[0], c)
    ensures (d == c || d in Nodes(c.children)) && IsTreeOf(p, path[|path| - 1], d)
    decreases |path|
  {
    if |path| == 1 {
      d := c;
    } else {
      var kids := p.GetCategory(path[0]).children;
      assert path[0 + 1] in kids;
      var j :| 0 <= j < |kids| && kids[j] == path[1];
      UnfoldsEach(p, kids, c.children, j);
      forall k | 0 <= k < |path[1..]| - 1 ensures path[1..][k + 1] in p.GetCategory(path[1..][k]).children {
        assert path[(k + 1) + 1] in p.GetCategory(path[k + 1]).children;
      }
      d := ReachedIsVisited(p, c.children[j], path[1..]);
      MemberNodes(c.children, j);
    }
  }

  lemma {:induction false} MemberNodes(cs: seq<Category>, j: nat)
    requires j < |cs|
    ensures cs[j] in Nodes(cs) && Nodes(cs[j].children) <= Nodes(cs)
  {
    if j > 0 { MemberNodes(cs[1..], j - 1); }
  }

  // ---------- When a walk comes to an end ----------

  lemma ReachesNext(p: Port, from: int, to: int, child: int)
    requires Reaches(p, from, to) && child in p.GetCategory(to).children
    ensures Reaches(p, from, child)
  {
    var path :| Path(p, path) && path[0] == from && path[|path| - 1] == to;
    assert Path(p, path + [child]);
  }

  /** No code a root reaches leads back to itself. */
  ghost predicate Acyclic(p: Port) {
    forall r, x, child :: r in p.RootCodes() && Reaches(p, r, x) && child in p.GetCategory(x).children ==> !Reaches(p, child, x)
  }

  lemma EndingWalksAreAcyclic(p: Port, roots: seq<Category>, r: int, x: int, child: int)
    requires Walks(p, roots) && r in p.RootCodes() && Reaches(p, r, x) && child in p.GetCategory(x).children
    ensures !Reaches(p, child, x)
  {
    if Reaches(p, child, x) {
      var j :| 0 <= j < |p.RootCodes()| && p.RootCodes()[j] == r;
      var path :| Path(p, path) && path[0] == r && path[|path| - 1] == x;
      UnfoldsEach(p, p.RootCodes(), roots, j);
      var c := ReachedIsVisited(p, roots[j], path);
      var i :| 0 <= i < |p.GetCategory(x).children| && p.GetCategory(x).children[i] == child;
      var back :| Path(p, back) && back[0] == child && back[|back| - 1] == x;
      UnfoldsEach(p, p.GetCategory(x).children, c.children, i);
      var d := ReachedIsVisited(p, c.children[i], back);
      MemberNodes(c.children, i);
      NoEntryBelowItself(p, x, x, c, d);
    }
  }

  /** The codes that can have children. */
  ghost function Inner(p: Port): set<int> {
    p.table.Keys + {PORT_LIBRARY, UNUSED_ALLOCATE32}
  }

  /** The tree of `code`, below the codes `above`, each of which leads to it. */
  lemma BuildTree(p: Port, r: int, code: int, above: set<int>) returns (c: Category)
    requires p.Valid() && Acyclic(p) && r in p.RootCodes() && Reaches(p, r, code)
    requires code !in above && forall a :: a in above ==> Reaches(p, a, code)
    ensures IsTreeOf(p, code, c)
    decreases Inner(p) - above, 0, 0
  {
    var e := p.GetCategory(code);
    var cs := [];
    if p.Known(code) {
      ReachesItself(p, code);
      assert code in Inner(p) - above;
      cs := BuildTrees(p, r, code, e.children, above + {code});
    }
    c := Category(e.code, e.name, e.liveBytes, e.liveAllocations, cs);
  }

  lemma BuildTrees(p: Port, r: int, parent: int, codes: seq<int>, above: set<int>) returns (cs: seq<Category>)
    requires p.Valid() && Acyclic(p) && r in p.RootCodes() && Reaches(p, r, parent)
    requires forall x :: x in codes ==> x in p.GetCategory(parent).children
    requires forall a :: a in above ==> Reaches(p, a, parent)
    ensures Unfolds(p, codes, cs)
    decreases Inner(p) - above, 1, |codes|
  {
    cs := [];
    if codes != [] {
      ReachesNext(p, r, parent, codes[0]);
      forall a | a in above ensures Reaches(p, a, codes[0]) && a != codes[0] { ReachesNext(p, a, parent, codes[0]); }
      var c := BuildTree(p, r, codes[0], above);
      var rest := BuildTrees(p, r, parent, codes[1..], above);
      cs := [c] + rest;
      assert cs[1..] == rest;
    }
  }

  lemma BuildForest(p: Port, n: nat) returns (cs: seq<Category>)
    requires p.Valid() && Acyclic(p) && n <= |p.RootCodes()|
    ensures Unfolds(p, p.RootCodes()[n..], cs)
    decreases |p.RootCodes()| - n
  {
    cs := [];
    if n < |p.RootCodes()| {
      var r := p.RootCodes()[n];
      ReachesItself(p, r);
      var c := BuildTree(p, r, r, {});
      var rest := BuildForest(p, n + 1);
      cs := [c] + rest;
      assert cs[1..] == rest && p.RootCodes()[n..][1..] == p.RootCodes()[n + 1..];
    }
  }

  /** A walk ends if and only if no code on its way leads back to itself. */
  lemma WalksEndIffAcyclic(p: Port)
    requires p.Valid()
    ensures (exists roots :: Walks(p, roots)) <==> Acyclic(p)
  {
    if roots :| Walks(p, roots) {
      forall r, x, child | r in p.RootCodes() && Reaches(p, r, x) && child in p.GetCategory(x).children
        ensures !Reaches(p, child, x)
      {
        EndingWalksAreAcyclic(p, roots, r, x, child);
      }
    } else if Acyclic(p) {
      var roots := BuildForest(p, 0);
      assert p.RootCodes()[0..] == p.RootCodes();
      assert Walks(p, roots);
    }
  }

  // ---------- What the fallback does to a report ----------

  /** The walk reaches a registered UNKNOWN, with children of its own. */
  ghost predicate VisitsUnknown(p: Port) {
    UNKNOWN in p.table && exists r :: r in p.RootCodes() && Reaches(p, r, UNKNOWN)
  }

  ghost predicate LeadsToFallback(p: Port, code: int) {
    exists x :: !p.Known(x) && Reaches(p, code, x)
  }

  /** The m-th child of the registered UNKNOWN is visited at or after a fallback below that UNKNOWN. */
  ghost predicate AtOrAfterFallback(p: Port, kids: seq<int>, m: nat)
    requires m < |kids|
  {
    !p.Known(kids[m]) || exists j :: 0 <= j < m && LeadsToFallback(p, kids[j])
  }

  /** What an application must not register, if every parent is to be reported truly. */
  ghost predicate Confused(p: Port) {
    && VisitsUnknown(p)
    && exists m :: 0 <= m < |p.table[UNKNOWN].children| && AtOrAfterFallback(p, p.table[UNKNOWN].children, m)
  }

  /** What it must not register, if every category is to be reached from a root. */
  ghost predicate LosesCategories(p: Port) {
    VisitsUnknown(p) && exists m :: 0 <= m < |p.table[UNKNOWN].children| && !p.Known(p.table[UNKNOWN].children[m])
  }

  /** A code met again below itself is that of the registered UNKNOWN, met again by falling back. */
  lemma RepeatIsFallback(p: Port, x: int, c: Category, y: int, d: Category)
    requires p.Valid() && IsTreeOf(p, x, c) && IsTreeOf(p, y, d)
    requires d in Nodes(c.children) && d.code == c.code
    ensures x == UNKNOWN && UNKNOWN in p.table && !p.Known(y)
  {
    NoEntryBelowItself(p, x, y, c, d);
    if !p.Known(x) {
      assert false;
    }
  }

  /** Some child of the registered UNKNOWN is to blame for every tangle. */
  lemma TangledMeansConfused(p: Port, roots: seq<Category>)
    requires p.Valid() && Walks(p, roots) && !Untangled(roots)
    ensures Confused(p)
  {
    UntangledMeans(roots);
    var c :| c in Nodes(roots) && !Clear(c.children, c.code);
    var r, x := NodesAreReached(p, p.RootCodes(), roots, c);
    assert p.RootCodes()[r] in p.RootCodes();
    ClearMeans(c.children, c.code);
    var k :| 0 <= k < |c.children| && (c.children[k].code == c.code
                                       || (k < |c.children| - 1 && c.code in Codes(c.children[k].children)));
    var kids := p.GetCategory(x).children;
    UnfoldsEach(p, kids, c.children, k);
    MemberNodes(c.children, k);
    if c.children[k].code == c.code {
      RepeatIsFallback(p, x, c, kids[k], c.children[k]);
      assert AtOrAfterFallback(p, kids, k);
    } else {
      var d := CodesAreNodes(c.children[k].children, c.code);
      var i, y := NodesAreReached(p, p.GetCategory(kids[k]).children, c.children[k].children, d);
      ReachesFurther(p, kids[k], p.GetCategory(kids[k]).children[i], y);
      RepeatIsFallback(p, x, c, y, d);
      assert LeadsToFallback(p, kids[k]);
      assert AtOrAfterFallback(p, kids, k + 1);
    }
  }

  /** The tree of the registered UNKNOWN, when the walk visits it. */
  lemma UnknownIsVisited(p: Port, roots: seq<Category>) returns (c: Category)
    requires p.Valid() && Walks(p, roots) && VisitsUnknown(p)
    ensures c in Nodes(roots) && IsTreeOf(p, UNKNOWN, c)
  {
    var r :| r in p.RootCodes() && Reaches(p, r, UNKNOWN);
    var j :| 0 <= j < |p.RootCodes()| && p.RootCodes()[j] == r;
    var path :| Path(p, path) && path[0] == r && path[|path| - 1] == UNKNOWN;
    UnfoldsEach(p, p.RootCodes(), roots, j);
    c := ReachedIsVisited(p, roots[j], path);
    MemberNodes(roots, j);
  }

  lemma ConfusedMeansTangled(p: Port, roots: seq<Category>)
    requires p.Valid() && Walks(p, roots) && Confused(p)
    ensures !Untangled(roots)
  {
    var c := UnknownIsVisited(p, roots);
    var kids := p.table[UNKNOWN].children;
    var m :| 0 <= m < |kids| && AtOrAfterFallback(p, kids, m);
    UntangledMeans(roots);
    ClearMeans(c.children, c.code);
    UnfoldsEach(p, kids, c.children, m);
    if p.Known(kids[m]) {
      var j :| 0 <= j < m && LeadsToFallback(p, kids[j]);
      var x :| !p.Known(x) && Reaches(p, kids[j], x);
      var path :| Path(p, path) && path[0] == kids[j] && path[|path| - 1] == x;
      UnfoldsEach(p, kids, c.children, j);
      var d := ReachedIsVisited(p, c.children[j], path);
      if d != c.children[j] { NodesCarryCodes(c.children[j].children, d); }
    }
  }

  /**
   For every walk that ends: all parents recorded are the true ones, unless some direct child of the registered UNKNOWN
   is visited at or after a fallback below that UNKNOWN.
   */
  lemma ParentsAreTrueUnlessConfused(p: Port, roots: seq<Category>)
    requires p.Valid() && Walks(p, roots)
    ensures var vs := Visits(roots, true, 0);
            (forall i :: 0 <= i < |vs| ==> RecordedParent(vs, i) == ParentSlots(roots, 0, NIL)[i]) <==> !Confused(p)
  {
    RecordedParentsAreTrue(roots);
    if Untangled(roots) {
      if Confused(p) { ConfusedMeansTangled(p, roots); }
    } else {
      TangledMeansConfused(p, roots);
    }
  }

  /** For every walk that ends: a slot is its own parent exactly when a direct child of the registered UNKNOWN falls back. */
  lemma OwnParentsComeFromUnknown(p: Port, roots: seq<Category>)
    requires p.Valid() && Walks(p, roots)
    ensures (exists i :: OwnParent(roots, i)) <==> LosesCategories(p)
  {
    OwnParentsMean(roots);
    if exists c, m :: c in Nodes(roots) && 0 <= m < |c.children| && c.children[m].code == c.code {
      var c, m :| c in Nodes(roots) && 0 <= m < |c.children| && c.children[m].code == c.code;
      var r, x := NodesAreReached(p, p.RootCodes(), roots, c);
      assert p.RootCodes()[r] in p.RootCodes();
      UnfoldsEach(p, p.GetCategory(x).children, c.children, m);
      MemberNodes(c.children, m);
      RepeatIsFallback(p, x, c, p.GetCategory(x).children[m], c.children[m]);
    }
    if LosesCategories(p) {
      var c := UnknownIsVisited(p, roots);
      var m :| 0 <= m < |p.table[UNKNOWN].children| && !p.Known(p.table[UNKNOWN].children[m]);
      UnfoldsEach(p, p.table[UNKNOWN].children, c.children, m);
      assert c.children[m].code == c.code;
    }
  }

  /** A root with the child UNKNOWN, itself registered with one child that is not. */
  function UnknownBelowUnknown(bytes: nat): Port {
    var own := Entry(PORT_LIBRARY, "Port Library", 0, 0, []);
    Port(false, true,
         map[0 := Entry(0, "Root", 0, 0, [UNKNOWN]), UNKNOWN := Entry(UNKNOWN, "Unknown", 0, 0, [7]), PORT_LIBRARY := own],
         Entry(UNKNOWN, "Unknown", bytes, 1, []), own, Entry(UNUSED_ALLOCATE32, "Unused", 0, 0, []))
  }

  function UnknownBelowUnknownForest(bytes: nat): seq<Category> {
    [Category(0, "Root", 0, 0, [Category(UNKNOWN, "Unknown", 0, 0, [Category(UNKNOWN, "Unknown", bytes, 1, [])])])]
  }

  lemma UnknownBelowUnknownIsConfused(bytes: nat)
    ensures var p, roots := UnknownBelowUnknown(bytes), UnknownBelowUnknownForest(bytes);
            p.Valid() && Walks(p, roots) && Confused(p) && LosesCategories(p)
  {
    var p, roots := UnknownBelowUnknown(bytes), UnknownBelowUnknownForest(bytes);
    var unknown := roots[0].children[0];
    assert [7][1..] == [] && unknown.children[1..] == [] && Names(p.GetCategory(7), unknown.children[0]);
    assert Unfolds(p, [7], unknown.children);
    assert Unfolds(p, [UNKNOWN], [unknown]);
    assert Unfolds(p, p.RootCodes(), roots);
    ReachesItself(p, UNKNOWN);
    ReachesFurther(p, 0, UNKNOWN, UNKNOWN);
    assert AtOrAfterFallback(p, p.table[UNKNOWN].children, 0);
  }

  /** The fallback has been visited and recorded by the time its parent is looked up, and becomes its own parent. */
  lemma UnknownIsItsOwnParent(bytes: nat)
    ensures var roots := UnknownBelowUnknownForest(bytes);
            var vs := Visits(roots, true, 0);
            && Count(roots) == 3 && ParentSlots(roots, 0, NIL) == [NIL, 0, 1]
            && vs == [VisitOf(roots[0], true, 0), VisitOf(roots[0].children[0], false, 0),
                      Visit(UNKNOWN, "Unknown", bytes, 1, false, UNKNOWN)]
            && RecordedParent(vs, 0) == NIL && RecordedParent(vs, 1) == 0 && RecordedParent(vs, 2) == 2
  {
    var roots := UnknownBelowUnknownForest(bytes);
    var unknown := roots[0].children[0];
    var fallback := unknown.children[0];
    assert Visits([fallback], false, UNKNOWN) == [VisitOf(fallback, false, UNKNOWN)];
    assert Visits([unknown], false, 0) == [VisitOf(unknown, false, 0), VisitOf(fallback, false, UNKNOWN)];
    var vs := [VisitOf(roots[0], true, 0), VisitOf(unknown, false, 0), VisitOf(fallback, false, UNKNOWN)];
    assert Visits(roots, true, 0) == vs;
    assert LastSlot(vs, 1, 0) == LastSlot(vs, 2, 0) == 0;
    assert ParentSlots([fallback], 2, 1) == [1];
    assert ParentSlots([unknown], 1, 0) == [0, 1];
  }

  /** Every code a walk reports can be indexed: a code outside both arrays is never stored, and its look-up falls back. */
  lemma WalksAreWalkable(p: Port, roots: seq<Category>)
    requires p.Valid() && Walks(p, roots)
    ensures Walkable(Visits(roots, true, 0))
  {
    var vs := Visits(roots, true, 0);
    WalkOccupies(roots);
    VisitsCarryCodes(vs, roots, 0, true, 0);
    forall i | 0 <= i < |vs| ensures 0 <= vs[i].code < TWO_32 && vs[i].code != LANGUAGE_CATEGORY_LIMIT {
      var d := CodesAreNodes(roots, vs[i].code);
      var j, x := NodesAreReached(p, p.RootCodes(), roots, d);
      assert p.GetCategory(x).code == vs[i].code;
    }
  }
}
