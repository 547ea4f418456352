/**
 The arithmetic of omr/OMR_TI.cpp's deep counters, over the parent links alone: `par[k]` is the slot
 recorded as k's parent, or NIL for a root. Parents are written before their children, so `par[k] < k` in a true
 forest; a report may also record a slot as its own parent.
 */
module CategorySums {
  import opened MachineIntegers

  const NIL: int := -1

  /** No slot's parent comes after it. A slot may have been recorded as its own parent. */
  ghost predicate Linkable(par: seq<int>) {
    forall k :: 0 <= k < |par| ==> NIL <= par[k] <= k
  }

  ghost predicate Forest(par: seq<int>) {
    forall k :: 0 <= k < |par| ==> NIL <= par[k] < k
  }

  /** `a` is k itself or one of its ancestors; NIL is above everything that does not end in a slot of its own. */
  ghost predicate Above(par: seq<int>, k: int, a: int)
    requires Linkable(par) && NIL <= k < |par|
    decreases k
  {
    k == a || (k != NIL && par[k] != k && Above(par, par[k], a))
  }

  /** The slots at or below `c`. */
  ghost function Subtree(par: seq<int>, c: int): set<int>
    requires Linkable(par)
  {
    set k | 0 <= k < |par| && Above(par, k, c)
  }

  ghost function SumOver(v: seq<int>, s: set<int>, n: nat): int
    requires n <= |v|
  {
    if n == 0 then 0 else SumOver(v, s, n - 1) + if n - 1 in s then v[n - 1] else 0
  }

  /** What slot `c` has accumulated once its children below `hi` have passed their counters back. */
  ghost function Deep(par: seq<int>, v: seq<int>, c: nat, hi: nat): int
    requires Linkable(par) && |v| == |par| && c < |par| && hi <= |par|
    decreases |par| - c, hi
  {
    if hi <= c + 1 then v[c]
    else
      var d := Deep(par, v, c, hi - 1);
      if par[hi - 1] == c then Add64(d, Deep(par, v, hi - 1, |par|)) else d
  }

  /** The slots below the children of `c` (the roots, when `c` is NIL) numbered less than `hi`. */
  ghost function Covered(par: seq<int>, c: int, hi: nat): set<int>
    requires Linkable(par) && hi <= |par|
  {
    if hi == 0 then {}
    else Covered(par, c, hi - 1) + if par[hi - 1] == c < hi - 1 then Subtree(par, hi - 1) else {}
  }

  lemma {:induction false} AboveIsLower(par: seq<int>, k: int, a: int)
    requires Linkable(par) && NIL <= k < |par| && Above(par, k, a)
    ensures a <= k
    decreases k
  {
    if k != a { AboveIsLower(par, par[k], a); }
  }

  /** The slots above `k` form a chain. */
  lemma {:induction false} AboveIsChain(par: seq<int>, k: int, a: int, b: int)
    requires Linkable(par) && NIL <= k < |par| && NIL <= a <= b < |par|
    requires Above(par, k, a) && Above(par, k, b)
    ensures Above(par, b, a)
    decreases k
  {
    if k == a {
      AboveIsLower(par, k, b);
    } else if k != b {
      AboveIsChain(par, par[k], a, b);
    }
  }

  lemma {:induction false} AboveIsTransitive(par: seq<int>, k: int, b: int, a: int)
    requires Linkable(par) && NIL <= k < |par| && NIL <= b < |par|
    requires Above(par, k, b) && Above(par, b, a)
    ensures Above(par, k, a)
    decreases k
  {
    if k != b { AboveIsTransitive(par, par[k], b, a); }
  }

  /** Membership in `Covered`, spelled out. */
  lemma {:induction false} CoveredMeans(par: seq<int>, c: int, hi: nat, k: int)
    requires Linkable(par) && hi <= |par| && NIL <= c
    ensures k in Covered(par, c, hi) <==>
            0 <= k < |par| && exists j :: 0 <= j < hi && par[j] == c < j && Above(par, k, j)
  {
    if hi > 0 { CoveredMeans(par, c, hi - 1, k); }
  }

  /** Below `c` and not `c` itself means below one of its children. */
  lemma {:induction false} ChildOnTheWay(par: seq<int>, c: int, k: int) returns (j: int)
    requires Linkable(par) && NIL <= c < k < |par| && Above(par, k, c)
    ensures c < j <= k && par[j] == c && Above(par, k, j)
    decreases k
  {
    if par[k] == c {
      j := k;
    } else {
      AboveIsLower(par, par[k], c);
      j := ChildOnTheWay(par, c, par[k]);
    }
  }

  lemma CoveredIsBelow(par: seq<int>, c: int)
    requires Linkable(par) && NIL <= c < |par|
    ensures Covered(par, c, |par|) == Subtree(par, c) - {c}
  {
    forall k ensures k in Covered(par, c, |par|) <==> k in Subtree(par, c) - {c} {
      CoveredMeans(par, c, |par|, k);
      if k in Covered(par, c, |par|) {
        var j :| 0 <= j < |par| && par[j] == c < j && Above(par, k, j);
        AboveIsTransitive(par, k, j, c);
        AboveIsLower(par, k, j);
      } else if k in Subtree(par, c) - {c} {
        AboveIsLower(par, k, c);
        var j := ChildOnTheWay(par, c, k);
        assert false;
      }
    }
  }

  /** Different children of one parent have nothing below them in common. */
  lemma SiblingsAreApart(par: seq<int>, c: int, hi: nat)
    requires Linkable(par) && NIL <= c < hi < |par| && par[hi] == c
    ensures Covered(par, c, hi) !! Subtree(par, hi)
    ensures c !in Covered(par, c, hi) && c !in Subtree(par, hi)
  {
    forall k | k in Covered(par, c, hi)
      ensures k !in Subtree(par, hi) && k != c
    {
      CoveredMeans(par, c, hi, k);
      var j :| 0 <= j < hi && par[j] == c < j && Above(par, k, j);
      AboveIsLower(par, k, j);
      if Above(par, k, hi) {
        AboveIsChain(par, k, j, hi);
        AboveIsLower(par, par[hi], j);
        assert false;
      }
    }
    if c in Subtree(par, hi) { AboveIsLower(par, c, hi); }
  }

  lemma {:induction false} SumOfDisjoint(v: seq<int>, a: set<int>, b: set<int>, n: nat)
    requires n <= |v| && a !! b
    ensures SumOver(v, a + b, n) == SumOver(v, a, n) + SumOver(v, b, n)
  {
    if n > 0 { SumOfDisjoint(v, a, b, n - 1); }
  }

  lemma {:induction false} SumOfOne(v: seq<int>, c: nat, n: nat)
    requires n <= |v|
    ensures SumOver(v, {c}, n) == if c < n then v[c] else 0
  {
    if n > 0 { SumOfOne(v, c, n - 1); }
  }

  lemma {:induction false} DeepCovers(par: seq<int>, v: seq<int>, c: nat, hi: nat)
    requires Linkable(par) && |v| == |par| && c < |par| && hi <= |par|
    requires forall k :: 0 <= k < |v| ==> IsInt64(v[k])
    ensures c !in Covered(par, c, hi)
    ensures Deep(par, v, c, hi) == ToInt64(SumOver(v, {c} + Covered(par, c, hi), |v|))
    decreases |par| - c, hi
  {
    if hi <= c + 1 {
      NoEarlyChild(par, c, hi);
      assert {c} + {} == {c};
      SumOfOne(v, c, |v|);
    } else {
      DeepCovers(par, v, c, hi - 1);
      var mine := {c} + Covered(par, c, hi - 1);
      if par[hi - 1] == c {
        var child := Subtree(par, hi - 1);
        DeepIsSubtreeSum(par, v, hi - 1);
        SiblingsAreApart(par, c, hi - 1);
        SumOfDisjoint(v, mine, child, |v|);
        WrapBoth(SumOver(v, mine, |v|), SumOver(v, child, |v|));
        assert {c} + Covered(par, c, hi) == mine + child;
      } else {
        assert {c} + Covered(par, c, hi) == mine;
      }
    }
  }

  lemma {:induction false} NoEarlyChild(par: seq<int>, c: nat, hi: nat)
    requires Linkable(par) && hi <= |par| && hi <= c + 1
    ensures Covered(par, c, hi) == {}
  {
    if hi > 0 { NoEarlyChild(par, c, hi - 1); }
  }

  /** A slot's deep counter is the (wrapped) sum of the shallow counters at and below it. */
  lemma {:induction false} DeepIsSubtreeSum(par: seq<int>, v: seq<int>, c: nat)
    requires Linkable(par) && |v| == |par| && c < |par|
    requires forall k :: 0 <= k < |v| ==> IsInt64(v[k])
    ensures Deep(par, v, c, |par|) == ToInt64(SumOver(v, Subtree(par, c), |v|))
    decreases |par| - c, |par| + 1
  {
    DeepCovers(par, v, c, |par|);
    CoveredIsBelow(par, c);
    assert {c} + Covered(par, c, |par|) == Subtree(par, c);
  }

  /** The sum of the roots' deep counters. */
  ghost function RootsTotal(par: seq<int>, deep: seq<int>, hi: nat): int
    requires |deep| == |par| && hi <= |par|
  {
    if hi == 0 then 0 else RootsTotal(par, deep, hi - 1) + if par[hi - 1] == NIL then deep[hi - 1] else 0
  }

  lemma {:induction false} RootsCover(par: seq<int>, v: seq<int>, deep: seq<int>, hi: nat)
    requires Linkable(par) && |deep| == |v| == |par| && hi <= |par|
    requires forall k :: 0 <= k < |v| ==> IsInt64(v[k]) && (Above(par, k, NIL) ==> deep[k] == Deep(par, v, k, |par|))
    ensures ToInt64(RootsTotal(par, deep, hi)) == ToInt64(SumOver(v, Covered(par, NIL, hi), |v|))
  {
    if hi == 0 {
      assert ToInt64(0) == 0;
      SumOfNone(v, |v|);
    } else {
      RootsCover(par, v, deep, hi - 1);
      if par[hi - 1] == NIL {
        DeepIsSubtreeSum(par, v, hi - 1);
        RootsAreApart(par, hi - 1);
        var mine, root := Covered(par, NIL, hi - 1), Subtree(par, hi - 1);
        SumOfDisjoint(v, mine, root, |v|);
        WrapBoth(SumOver(v, mine, |v|), SumOver(v, root, |v|));
        WrapBoth(RootsTotal(par, deep, hi - 1), deep[hi - 1]);
      } else {
        assert Covered(par, NIL, hi) == Covered(par, NIL, hi - 1);
      }
    }
  }

  lemma RootsAreApart(par: seq<int>, hi: nat)
    requires Linkable(par) && hi < |par| && par[hi] == NIL
    ensures Covered(par, NIL, hi) !! Subtree(par, hi)
  {
    SiblingsAreApart(par, NIL, hi);
  }

  lemma {:induction false} SumOfNone(v: seq<int>, n: nat)
    requires n <= |v|
    ensures SumOver(v, {}, n) == 0
  {
    if n > 0 { SumOfNone(v, n - 1); }
  }

  /** Conservation: nothing is counted twice, and nothing that leads up to a root is lost on the way. */
  lemma RootsHoldTheReached(par: seq<int>, v: seq<int>, deep: seq<int>)
    requires Linkable(par) && |deep| == |v| == |par|
    requires forall k :: 0 <= k < |v| ==> IsInt64(v[k]) && (Above(par, k, NIL) ==> deep[k] == Deep(par, v, k, |par|))
    ensures ToInt64(RootsTotal(par, deep, |par|)) == ToInt64(SumOver(v, Subtree(par, NIL), |v|))
  {
    RootsCover(par, v, deep, |par|);
    CoveredIsBelow(par, NIL);
    assert Subtree(par, NIL) - {NIL} == Subtree(par, NIL);
  }

  /** Every slot leads up to a root exactly when none has been recorded as its own parent. */
  lemma OwnParentsAreLost(par: seq<int>)
    requires Linkable(par)
    ensures Forest(par) <==> forall k :: 0 <= k < |par| ==> Above(par, k, NIL)
  {
    if Forest(par) {
      forall k | 0 <= k < |par| ensures Above(par, k, NIL) { EverythingIsBelowNil(par, k); }
    } else {
      var k :| 0 <= k < |par| && !(NIL <= par[k] < k);
      assert !Above(par, k, NIL);
    }
  }

  ghost predicate AllBelowTheFirst(par: seq<int>)
    requires Linkable(par)
  {
    forall k :: 0 <= k < |par| ==> Above(par, k, 0)
  }

  /** Everything is at or below slot 0 exactly when no other slot is a root or its own parent. */
  lemma EverythingIsBelow(par: seq<int>)
    requires Linkable(par)
    ensures AllBelowTheFirst(par) <==> forall k :: 0 < k < |par| ==> 0 <= par[k] < k
  {
    if forall k :: 0 < k < |par| ==> 0 <= par[k] < k {
      forall k | 0 <= k < |par| ensures Above(par, k, 0) { BelowTheFirst(par, k); }
    } else {
      var k :| 0 < k < |par| && !(0 <= par[k] < k);
      StuckIsNotBelow(par, k);
      assert !AllBelowTheFirst(par);
    }
  }

  lemma StuckIsNotBelow(par: seq<int>, k: nat)
    requires Linkable(par) && 0 < k < |par| && (par[k] == NIL || par[k] == k)
    ensures !Above(par, k, 0)
  {
  }

  lemma {:induction false} BelowTheFirst(par: seq<int>, k: nat)
    requires Linkable(par) && k < |par| && forall j :: 0 < j < |par| ==> 0 <= par[j] < j
    ensures Above(par, k, 0)
    decreases k
  {
    if k > 0 { BelowTheFirst(par, par[k]); }
  }

  /** In a forest, then, the roots hold everything. */
  lemma RootsHoldEverything(par: seq<int>, v: seq<int>, deep: seq<int>)
    requires Forest(par) && |deep| == |v| == |par|
    requires forall k :: 0 <= k < |v| ==> IsInt64(v[k]) && deep[k] == Deep(par, v, k, |par|)
    ensures ToInt64(RootsTotal(par, deep, |par|)) == ToInt64(Total(v, |v|))
  {
    RootsHoldTheReached(par, v, deep);
    OwnParentsAreLost(par);
    forall k | 0 <= k < |v| ensures k in Subtree(par, NIL) { assert Above(par, k, NIL); }
    SumOfAll(v, Subtree(par, NIL), |v|);
  }

  ghost function Total(v: seq<int>, n: nat): int
    requires n <= |v|
  {
    if n == 0 then 0 else Total(v, n - 1) + v[n - 1]
  }

  lemma {:induction false} SumOfAll(v: seq<int>, s: set<int>, n: nat)
    requires n <= |v| && forall k :: 0 <= k < |v| ==> k in s
    ensures SumOver(v, s, n) == Total(v, n)
  {
    if n > 0 { SumOfAll(v, s, n - 1); }
  }

  lemma {:induction false} EverythingIsBelowNil(par: seq<int>, k: int)
    requires Forest(par) && NIL <= k < |par|
    ensures Above(par, k, NIL)
    decreases k
  {
    if k != NIL { EverythingIsBelowNil(par, par[k]); }
  }
}
