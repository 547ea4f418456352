/**
 The tagged self-relative child pointers of include_core/omravldefines.h on a 64-bit build. A child field holds the
 distance from the field to the child, modulo 2^64; its two low bits hold the balance of a node in its left child.
 */
module TaggedTree {
  import opened MachineIntegers

  /** `uintptr_t` values: fields and addresses alike. */
  type Word = w: int | 0 <= w < TWO_64 witness 0

  /** The right child's field follows the left child's. */
  const RIGHT: int := 8

  /** Address arithmetic modulo 2^64. */
  function WrapAdd(a: Word, b: Word): Word {
    if a + b < TWO_64 then a + b else a + b - TWO_64
  }

  function WrapSubtract(a: Word, b: Word): Word {
    if a >= b then a - b else a - b + TWO_64
  }

  /** `x & ~3`. */
  function GetNode(x: Word): Word {
    x - x % 4
  }

  /** `x & 3`. */
  function Tag(x: Word): Word {
    x % 4
  }

  /** `a | b` for two-bit numbers. */
  function OrTags(a: Word, b: Word): Word
    requires a < 4 && b < 4
    ensures OrTags(a, b) < 4
    ensures OrTags(a, b) % 2 == 1 <==> a % 2 == 1 || b % 2 == 1
    ensures OrTags(a, b) / 2 == 1 <==> a / 2 == 1 || b / 2 == 1
  {
    if a == b || b == 0 then a else if a == 0 then b else 3
  }

  /** `tag | x` for a two-bit tag. */
  function OrTag(tag: Word, x: Word): Word
    requires tag < 4
  {
    GetNode(x) + OrTags(tag, Tag(x))
  }

  function GetBalance(leftChild: Word): Word {
    Tag(leftChild)
  }

  function SetBalance(leftChild: Word, bal: Word): Word
    requires bal < 4
  {
    OrTag(bal, GetNode(leftChild))
  }

  /** AVL_SRP_SETNODE on the field at address `at`. */
  function SrpSetNode(field: Word, at: Word, value: Word): Word {
    OrTag(Tag(field), if value != 0 then WrapSubtract(value, at) else 0)
  }

  /** AVL_SRP_SET_TO_NULL. */
  function SrpSetToNull(field: Word): Word {
    Tag(field)
  }

  /** AVL_SRP_GETNODE. */
  function SrpGetNode(field: Word, at: Word): Word {
    if GetNode(field) != 0 then WrapAdd(at, GetNode(field)) else 0
  }

  predicate Aligned(address: Word) {
    address % 4 == 0
  }

  // ---------- One field ----------

  lemma OrTagParts(tag: Word, x: Word)
    requires tag < 4
    ensures GetNode(OrTag(tag, x)) == GetNode(x) && Tag(OrTag(tag, x)) == OrTags(tag, Tag(x))
  {
  }

  lemma DistanceRoundTrip(at: Word, value: Word)
    requires Aligned(at) && Aligned(value)
    ensures Aligned(WrapSubtract(value, at)) && (WrapSubtract(value, at) == 0 <==> value == at)
    ensures WrapAdd(at, WrapSubtract(value, at)) == value
  {
  }

  /** A stored child reads back as itself exactly when it is not the field's own address; the tag never changes. */
  lemma ChildRoundTrip(field: Word, at: Word, value: Word)
    requires Aligned(at) && at != 0 && Aligned(value)
    ensures SrpGetNode(SrpSetNode(field, at, value), at) == value <==> value != at
    ensures Tag(SrpSetNode(field, at, value)) == Tag(field)
    ensures GetNode(SrpSetNode(field, at, value)) == 0 <==> value == 0 || value == at
    ensures value != 0 ==> GetNode(SrpSetNode(field, at, value)) == if value >= at then value - at else value - at + TWO_64
  {
    DistanceRoundTrip(at, value);
    OrTagParts(Tag(field), if value != 0 then WrapSubtract(value, at) else 0);
  }

  lemma BalanceRoundTrip(field: Word, at: Word, bal: Word)
    requires bal < 4
    ensures GetBalance(SetBalance(field, bal)) == bal
    ensures SrpGetNode(SetBalance(field, bal), at) == SrpGetNode(field, at)
    ensures GetNode(SetBalance(field, bal)) == GetNode(field)
  {
    OrTagParts(bal, GetNode(field));
  }

  lemma NullRoundTrip(field: Word, at: Word)
    ensures SrpGetNode(SrpSetToNull(field), at) == 0 && Tag(SrpSetToNull(field)) == Tag(field)
  {
  }

  // ---------- Trees in memory ----------

  datatype Tree = Empty | Node(balance: Word, left: Tree, right: Tree)

  type Memory = map<Word, Word>

  /** The field at `at` leads to `child`, a null child being stored as distance zero. */
  ghost predicate Leads(m: Memory, at: Word, child: Word) {
    at in m && SrpGetNode(m[at], at) == child && (child == 0 <==> GetNode(m[at]) == 0)
  }

  ghost function ChildOf(m: Memory, at: Word): Word {
    if at in m then SrpGetNode(m[at], at) else 0
  }

  /** The node at `a` heads the tree `t`. */
  ghost predicate Represents(m: Memory, a: Word, t: Tree)
    decreases t
  {
    match t
    case Empty => a == 0
    case Node(balance, left, right) =>
      && a != 0 && Aligned(a) && a + RIGHT < TWO_64
      && Leads(m, a, ChildOf(m, a)) && Leads(m, a + RIGHT, ChildOf(m, a + RIGHT))
      && GetBalance(m[a]) == balance
      && Represents(m, ChildOf(m, a), left)
      && Represents(m, ChildOf(m, a + RIGHT), right)
  }

  /** `m'` holds a copy of the block `m`, which lies between `lo` and `hi`, displaced by `d` within the address space. */
  ghost predicate Copied(m: Memory, m': Memory, lo: int, hi: int, d: int) {
    && 0 < lo + d && hi + d <= TWO_64 && d % 4 == 0
    && forall a :: a in m ==> lo <= a && a + RIGHT <= hi && a + d in m' && m'[a + d] == m[a]
  }

  function MovedChild(a: Word, lo: int, hi: int, d: int): Word
    requires 0 < lo + d && hi + d <= TWO_64 && (a != 0 ==> lo <= a < hi)
  {
    if a == 0 then 0 else a + d
  }

  lemma AlignedSum(a: Word, d: int)
    requires Aligned(a) && d % 4 == 0 && 0 <= a + d < TWO_64
    ensures Aligned(a + d)
  {
  }

  lemma FieldMoves(m: Memory, m': Memory, lo: int, hi: int, d: int, at: Word)
    requires Copied(m, m', lo, hi, d) && at in m && Leads(m, at, ChildOf(m, at))
    requires ChildOf(m, at) != 0 ==> ChildOf(m, at) in m
    ensures Leads(m', at + d, MovedChild(ChildOf(m, at), lo, hi, d))
  {
    var node, c := GetNode(m[at]), ChildOf(m, at);
    if c != 0 {
      assert WrapAdd(at + d, node) == c + d;
    }
  }

  /** A tree of any size, copied as a block by any aligned displacement, decodes to the same shape and balances. */
  lemma {:induction false} Relocation(m: Memory, m': Memory, lo: int, hi: int, d: int, a: Word, t: Tree)
    requires Copied(m, m', lo, hi, d) && Represents(m, a, t)
    ensures a != 0 ==> a in m
    ensures Represents(m', MovedChild(a, lo, hi, d), t)
    decreases t
  {
    if t.Node? {
      var l, r := ChildOf(m, a), ChildOf(m, a + RIGHT);
      Relocation(m, m', lo, hi, d, l, t.left);
      Relocation(m, m', lo, hi, d, r, t.right);
      FieldMoves(m, m', lo, hi, d, a);
      FieldMoves(m, m', lo, hi, d, a + RIGHT);
      AlignedSum(a, d);
      NodeFrom(m', a + d, t, MovedChild(l, lo, hi, d), MovedChild(r, lo, hi, d));
    }
  }

  lemma NodeFrom(m: Memory, a: Word, t: Tree, l: Word, r: Word)
    requires t.Node? && a != 0 && Aligned(a) && a + RIGHT < TWO_64
    requires Leads(m, a, l) && Leads(m, a + RIGHT, r) && GetBalance(m[a]) == t.balance
    requires Represents(m, l, t.left) && Represents(m, r, t.right)
    ensures Represents(m, a, t)
  {
  }

  // ---------- Updates in place ----------

  /** The fields a tree is made of. */
  ghost function Fields(m: Memory, a: Word, t: Tree): set<Word>
    requires Represents(m, a, t)
    decreases t
  {
    match t
    case Empty => {}
    case Node(_, left, right) =>
      {a, a + RIGHT} + Fields(m, ChildOf(m, a), left) + Fields(m, ChildOf(m, a + RIGHT), right)
  }

  /** A write elsewhere does not concern a tree. */
  lemma {:induction false} WriteElsewhere(m: Memory, a: Word, t: Tree, at: Word, w: Word)
    requires Represents(m, a, t) && at !in Fields(m, a, t)
    ensures Represents(m[at := w], a, t)
    decreases t
  {
    if t.Node? {
      WriteElsewhere(m, ChildOf(m, a), t.left, at, w);
      WriteElsewhere(m, ChildOf(m, a + RIGHT), t.right, at, w);
      NodeFrom(m[at := w], a, t, ChildOf(m, a), ChildOf(m, a + RIGHT));
    }
  }

  class TreeMemory {
    var words: Memory

    /** AVL_SRP_SETNODE on a left child: the subtree is replaced, the balance beside it kept. */
    method SetLeftChild(a: Word, value: Word, ghost t: Tree, ghost left: Tree)
      requires t.Node? && Represents(words, a, t) && Represents(words, value, left) && value != a && Aligned(value)
      requires a !in Fields(words, value, left) && a !in Fields(words, ChildOf(words, a + RIGHT), t.right)
      modifies this
      ensures Represents(words, a, Node(t.balance, left, t.right))
      ensures words == old(words)[a := words[a]]
    {
      ChildRoundTrip(words[a], a, value);
      ghost var r := ChildOf(words, a + RIGHT);
      WriteElsewhere(words, value, left, a, SrpSetNode(words[a], a, value));
      WriteElsewhere(words, r, t.right, a, SrpSetNode(words[a], a, value));
      words := words[a := SrpSetNode(words[a], a, value)];
      NodeFrom(words, a, Node(t.balance, left, t.right), value, r);
    }

    /** AVL_SRP_SETNODE on a right child. */
    method SetRightChild(a: Word, value: Word, ghost t: Tree, ghost right: Tree)
      requires t.Node? && Represents(words, a, t) && Represents(words, value, right) && Aligned(value)
      requires value != a + RIGHT
      requires a + RIGHT !in Fields(words, value, right) && a + RIGHT !in Fields(words, ChildOf(words, a), t.left)
      modifies this
      ensures Represents(words, a, Node(t.balance, t.left, right))
      ensures words == old(words)[a + RIGHT := words[a + RIGHT]]
    {
      var at := a + RIGHT;
      AlignedSum(a, RIGHT);
      ChildRoundTrip(words[at], at, value);
      ghost var l := ChildOf(words, a);
      WriteElsewhere(words, value, right, at, SrpSetNode(words[at], at, value));
      WriteElsewhere(words, l, t.left, at, SrpSetNode(words[at], at, value));
      words := words[at := SrpSetNode(words[at], at, value)];
      NodeFrom(words, a, Node(t.balance, t.left, right), l, value);
    }

    /** AVL_SETBALANCE: the balance changes, both subtrees stay. */
    method StoreBalance(a: Word, bal: Word, ghost t: Tree)
      requires t.Node? && Represents(words, a, t) && bal < 4
      requires a !in Fields(words, ChildOf(words, a), t.left) && a !in Fields(words, ChildOf(words, a + RIGHT), t.right)
      modifies this
      ensures Represents(words, a, Node(bal, t.left, t.right))
      ensures words == old(words)[a := words[a]]
    {
      BalanceRoundTrip(words[a], a, bal);
      ghost var l, r := ChildOf(words, a), ChildOf(words, a + RIGHT);
      WriteElsewhere(words, l, t.left, a, SetBalance(words[a], bal));
      WriteElsewhere(words, r, t.right, a, SetBalance(words[a], bal));
      words := words[a := SetBalance(words[a], bal)];
      NodeFrom(words, a, Node(bal, t.left, t.right), l, r);
    }
  }
}
