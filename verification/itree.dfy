/** The data model of the interval tree: a red-black tree keyed on the low
    endpoint of each interval, where every node caches the largest high
    endpoint of its subtree.  The pointer structure with its self-referential
    sentinel becomes an immutable algebraic tree: `Empty` is the sentinel,
    which is black and whose cached maximum is minus infinity. */
module IntervalTree {
  import opened Common

  datatype Color = Red | Black

  /** An interval; placement in the tree uses `low` only, `high` is payload
      and the input of the augmentation.  `low <= high` is not demanded. */
  datatype Interval = Interval(low: int, high: int)

  /** The value of a `max` field: the sentinel holds minus infinity. */
  datatype Bound = NegInf | Fin(v: int)

  datatype Tree =
    | Empty
    | Node(color: Color, iv: Interval, max: int, left: Tree, right: Tree)

  /** `node.max`, where the sentinel's is minus infinity. */
  function MaxField(t: Tree): Bound
  {
    if t.Empty? then NegInf else Fin(t.max)
  }

  /** `max(a, b)` on bounds; `NegInf` is below every integer. */
  function MaxBound(x: int, b: Bound): int
  {
    match b
    case NegInf => x
    case Fin(y) => Max(x, y)
  }

  /** The value `fixMax` stores: the largest of the node's own high and the
      two children's `max`. */
  function FixedMax(iv: Interval, l: Tree, r: Tree): int
  {
    MaxBound(MaxBound(iv.high, MaxField(l)), MaxField(r))
  }

  /** A node built (or relinked) and then given its `fixMax` value. */
  function Mk(c: Color, iv: Interval, l: Tree, r: Tree): (t: Tree)
    ensures t.Node? && t.color == c && t.iv == iv && t.left == l && t.right == r
    ensures MaxOk(l) && MaxOk(r) ==> MaxOk(t)
  {
    Node(c, iv, FixedMax(iv, l, r), l, r)
  }

  /** The sentinel's children are the sentinel itself. */
  function LeftOf(t: Tree): Tree { if t.Empty? then Empty else t.left }
  function RightOf(t: Tree): Tree { if t.Empty? then Empty else t.right }

  predicate IsRed(t: Tree) { t.Node? && t.color == Red }

  /** Recolouring; painting the sentinel has no effect. */
  function Paint(t: Tree, c: Color): (r: Tree)
    ensures Keys(r) == Keys(t)
    ensures MaxField(r) == MaxField(t)
    ensures MaxOk(t) ==> MaxOk(r)
    ensures r.Node? <==> t.Node?
    ensures r.Node? ==> r.color == c && r.left == t.left && r.right == t.right && r.iv == t.iv
  {
    if t.Empty? then t else t.(color := c)
  }

  /** The in-order sequence of intervals. */
  function Keys(t: Tree): seq<Interval>
  {
    match t
    case Empty => []
    case Node(_, iv, _, l, r) => Keys(l) + [iv] + Keys(r)
  }

  function Size(t: Tree): nat { |Keys(t)| }

  /** The augmentation invariant: every real node's `max` is what `fixMax`
      would store. */
  predicate MaxOk(t: Tree)
  {
    match t
    case Empty => true
    case Node(_, iv, m, l, r) => m == FixedMax(iv, l, r) && MaxOk(l) && MaxOk(r)
  }

  /** In-order sequence is non-decreasing by `low`. */
  predicate SortedByLow(s: seq<Interval>)
  {
    forall i, j :: 0 <= i < j < |s| ==> s[i].low <= s[j].low
  }

  function BlackOf(c: Color): nat { if c == Black then 1 else 0 }

  /** Number of black nodes below `t` along the left spine, counting `t`. */
  function BH(t: Tree): nat
  {
    match t
    case Empty => 0
    case Node(c, _, _, l, _) => BlackOf(c) + BH(l)
  }

  /** Every root-to-sentinel path has the same number of black nodes. */
  predicate Balanced(t: Tree)
  {
    match t
    case Empty => true
    case Node(_, _, _, l, r) => BH(l) == BH(r) && Balanced(l) && Balanced(r)
  }

  /** No red node has a red child. */
  predicate NoRedRed(t: Tree)
  {
    match t
    case Empty => true
    case Node(c, _, _, l, r) =>
      (c == Red ==> !IsRed(l) && !IsRed(r)) && NoRedRed(l) && NoRedRed(r)
  }

  /** The red-black conditions on a subtree (its root may be red). */
  predicate RB(t: Tree) { Balanced(t) && NoRedRed(t) }

  /** Everything the tree promises between public operations: the red-black
      rules with a black root, ordering by `low`, and the augmentation. */
  predicate Valid(t: Tree)
  {
    RB(t) && !IsRed(t) && SortedByLow(Keys(t)) && MaxOk(t)
  }

  /** Ordering of a node's in-order sequence splits into ordering of both
      subtrees around the node's own key. */
  lemma SortedSplit(t: Tree)
    requires t.Node? && SortedByLow(Keys(t))
    ensures SortedByLow(Keys(t.left)) && SortedByLow(Keys(t.right))
    ensures forall k :: k in Keys(t.left) ==> k.low <= t.iv.low
    ensures forall k :: k in Keys(t.right) ==> t.iv.low <= k.low
  {
    assert Keys(t) == Keys(t.left) + [t.iv] + Keys(t.right);
    SortedParts(Keys(t.left), t.iv, Keys(t.right));
  }

  /** The sequence-level fact behind `SortedSplit`. */
  lemma SortedParts(a: seq<Interval>, x: Interval, b: seq<Interval>)
    requires SortedByLow(a + [x] + b)
    ensures SortedByLow(a) && SortedByLow(b)
    ensures forall k :: k in a ==> k.low <= x.low
    ensures forall k :: k in b ==> x.low <= k.low
  {
    var s := a + [x] + b;
    assert s[|a|] == x;
    forall i, j | 0 <= i < j < |a| ensures a[i].low <= a[j].low {
      assert s[i] == a[i] && s[j] == a[j];
    }
    forall i, j | 0 <= i < j < |b| ensures b[i].low <= b[j].low {
      assert s[|a| + 1 + i] == b[i] && s[|a| + 1 + j] == b[j];
    }
    forall k | k in a ensures k.low <= x.low {
      var i :| 0 <= i < |a| && a[i] == k;
      assert s[i] == k;
    }
    forall k | k in b ensures x.low <= k.low {
      var i :| 0 <= i < |b| && b[i] == k;
      assert s[|a| + 1 + i] == k;
    }
  }

  /** Removing one element keeps a sequence ordered. */
  lemma SortedCut(s: seq<Interval>, i: nat)
    requires SortedByLow(s) && i < |s|
    ensures SortedByLow(s[..i] + s[i + 1..])
  {
    var u := s[..i] + s[i + 1..];
    forall a, b | 0 <= a < b < |u| ensures u[a].low <= u[b].low {
      var a' := if a < i then a else a + 1;
      var b' := if b < i then b else b + 1;
      assert u[a] == s[a'] && u[b] == s[b'];
    }
  }

  /** The augmentation means what it is for: a real node's `max` is the
      largest high endpoint stored in its subtree. */
  lemma {:induction false} MaxIsSubtreeMax(t: Tree)
    requires MaxOk(t) && t.Node?
    ensures forall k :: k in Keys(t) ==> k.high <= t.max
    ensures exists k :: k in Keys(t) && k.high == t.max
  {
    var l, r := t.left, t.right;
    if l.Node? { MaxIsSubtreeMax(l); }
    if r.Node? { MaxIsSubtreeMax(r); }
    assert t.iv in Keys(t);
    if l.Node? && t.max == l.max {
      var k :| k in Keys(l) && k.high == l.max;
      assert k in Keys(t);
    } else if r.Node? && t.max == r.max {
      var k :| k in Keys(r) && k.high == r.max;
      assert k in Keys(t);
    }
  }

  /** `left_rotate`: the right child `y` becomes the subtree root; `x` is
      relinked and fixed first, then `y`.  Colours are untouched. */
  function RotateLeft(t: Tree): (r: Tree)
    requires t.Node? && t.right.Node?
    ensures Keys(r) == Keys(t)
    ensures MaxOk(t) ==> MaxOk(r) && r.max == t.max
    ensures r.Node? && r.color == t.right.color && r.left.Node? && r.left.color == t.color
    ensures r.iv == t.right.iv && r.left.iv == t.iv
    ensures r.left.left == t.left && r.left.right == t.right.left && r.right == t.right.right
  {
    var y := t.right;
    assert MaxOk(t) ==> MaxOk(t.left) && MaxOk(y) && MaxOk(y.left) && MaxOk(y.right);
    Mk(y.color, y.iv, Mk(t.color, t.iv, t.left, y.left), y.right)
  }

  /** `right_rotate`, the mirror image of `RotateLeft`. */
  function RotateRight(t: Tree): (r: Tree)
    requires t.Node? && t.left.Node?
    ensures Keys(r) == Keys(t)
    ensures MaxOk(t) ==> MaxOk(r) && r.max == t.max
    ensures r.Node? && r.color == t.left.color && r.right.Node? && r.right.color == t.color
    ensures r.iv == t.left.iv && r.right.iv == t.iv
    ensures r.left == t.left.left && r.right.left == t.left.right && r.right.right == t.right
  {
    var x := t.left;
    assert MaxOk(t) ==> MaxOk(x) && MaxOk(t.right) && MaxOk(x.left) && MaxOk(x.right);
    Mk(x.color, x.iv, x.left, Mk(t.color, t.iv, x.right, t.right))
  }

  /** `min_node`: the leftmost interval, or nothing for the sentinel. */
  function MinNode(t: Tree): (r: Option<Interval>)
    ensures r.Some? <==> t.Node?
    ensures r.Some? ==> r.value == Keys(t)[0]
  {
    if t.Empty? then None
    else if t.left.Empty? then Some(t.iv)
    else MinNode(t.left)
  }

  /** `find_by_index_recursive(now, index)`: an in-order walk that counts
      `index` down; returns the node found (as its interval) and the count
      left over. */
  function FindByIndex(t: Tree, index: int): (Option<Interval>, int)
  {
    match t
    case Empty => (None, index)
    case Node(_, iv, _, l, r) =>
      var (found, i1) := FindByIndex(l, index);
      if found.Some? then (found, i1)
      else if i1 == 0 then (Some(iv), i1)
      else
        var (found2, i2) := FindByIndex(r, i1 - 1);
        if found2.Some? then (found2, i2) else (None, i2)
  }

  /** Order-statistic lookup: the walk finds the `k`-th interval in in-order
      position when `0 <= k < Size(t)`, and otherwise reports the sentinel
      with `k - Size(t)` left over. */
  lemma {:induction false} FindByIndexIsRank(t: Tree, k: int)
    ensures 0 <= k < Size(t) ==> FindByIndex(t, k) == (Some(Keys(t)[k]), 0)
    ensures !(0 <= k < Size(t)) ==> FindByIndex(t, k) == (None, k - Size(t))
  {
    match t
    case Empty =>
    case Node(_, iv, _, l, r) =>
      FindByIndexIsRank(l, k);
      if !(0 <= k < Size(l)) {
        FindByIndexIsRank(r, k - Size(l) - 1);
      }
  }
}
