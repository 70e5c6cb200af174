/** Insertion into the interval tree: the descent of `insert_node`, the
    `max_fixup` along the insertion path, and the three-case `insert_fixup`,
    written as a recursion that repairs a red-red conflict at the conflict's
    grandparent on the way back up. */
module IntervalInsert {
  import opened IntervalTree

  /** In-order position at which the descent places a new interval with low
      `k`: left when `k < key`, otherwise right. */
  function InsPos(t: Tree, k: int): (i: nat)
    ensures i <= Size(t)
  {
    match t
    case Empty => 0
    case Node(_, iv, _, l, r) =>
      if k < iv.low then InsPos(l, k) else Size(l) + 1 + InsPos(r, k)
  }

  /** A red node with a red child: the conflict `insert_fixup` repairs. */
  predicate RedConflict(p: Tree)
  {
    IsRed(p) && (IsRed(p.left) || IsRed(p.right))
  }

  /** The loop body of `insert_fixup` when the conflict is in the left child
      `p` of the grandparent `x` and `u` is the uncle:
      case 1 (red uncle) recolours, case 2 (inner child) rotates `p` left,
      case 3 recolours and rotates the grandparent right. */
  function FixLeft(c: Color, x: Interval, p: Tree, u: Tree): (t: Tree)
    ensures Keys(t) == Keys(p) + [x] + Keys(u)
    ensures MaxOk(p) && MaxOk(u) ==> MaxOk(t)
  {
    if RedConflict(p) then
      if IsRed(u) then
        Mk(Red, x, Paint(p, Black), Paint(u, Black))
      else
        var q := if IsRed(p.left) then p else RotateLeft(p);
        RotateRight(Mk(Red, x, Paint(q, Black), u))
    else
      Mk(c, x, p, u)
  }

  /** Mirror image of `FixLeft` (cases 4 to 6). */
  function FixRight(c: Color, x: Interval, u: Tree, p: Tree): (t: Tree)
    ensures Keys(t) == Keys(u) + [x] + Keys(p)
    ensures MaxOk(p) && MaxOk(u) ==> MaxOk(t)
  {
    if RedConflict(p) then
      if IsRed(u) then
        Mk(Red, x, Paint(u, Black), Paint(p, Black))
      else
        var q := if IsRed(p.right) then p else RotateRight(p);
        RotateLeft(Mk(Red, x, u, Paint(q, Black)))
    else
      Mk(c, x, u, p)
  }

  /** Insertion below the root: a new red leaf at the descent's position,
      every node on the path rebuilt with its `fixMax` value, and the
      fix-up applied at each grandparent. */
  function InsRec(t: Tree, iv: Interval): (r: Tree)
    ensures r.Node?
    ensures Keys(r) == Keys(t)[..InsPos(t, iv.low)] + [iv] + Keys(t)[InsPos(t, iv.low)..]
    ensures MaxOk(t) ==> MaxOk(r)
    decreases t, 1
  {
    match t
    case Empty => Mk(Red, iv, Empty, Empty)
    case Node(_, x, _, _, _) =>
      if iv.low < x.low then InsLeft(t, iv) else InsRight(t, iv)
  }

  /** The descent goes left. */
  function InsLeft(t: Tree, iv: Interval): (r: Tree)
    requires t.Node? && iv.low < t.iv.low
    ensures r.Node?
    ensures Keys(r) == Keys(t)[..InsPos(t, iv.low)] + [iv] + Keys(t)[InsPos(t, iv.low)..]
    ensures MaxOk(t) ==> MaxOk(r)
    decreases t, 0
  {
    var l' := InsRec(t.left, iv);
    var i := InsPos(t.left, iv.low);
    assert Keys(t) == Keys(t.left) + [t.iv] + Keys(t.right);
    assert InsPos(t, iv.low) == i;
    SliceLeft(Keys(t.left), t.iv, Keys(t.right), i);
    FixLeft(t.color, t.iv, l', t.right)
  }

  /** The descent goes right (ties included). */
  function InsRight(t: Tree, iv: Interval): (r: Tree)
    requires t.Node? && iv.low >= t.iv.low
    ensures r.Node?
    ensures Keys(r) == Keys(t)[..InsPos(t, iv.low)] + [iv] + Keys(t)[InsPos(t, iv.low)..]
    ensures MaxOk(t) ==> MaxOk(r)
    decreases t, 0
  {
    var r' := InsRec(t.right, iv);
    var i := InsPos(t.right, iv.low);
    assert Keys(t) == Keys(t.left) + [t.iv] + Keys(t.right);
    assert InsPos(t, iv.low) == Size(t.left) + 1 + i;
    SliceRight(Keys(t.left), t.iv, Keys(t.right), i);
    FixRight(t.color, t.iv, t.left, r')
  }

  /** Splitting `a + [x] + b` at a position inside `a`. */
  lemma SliceLeft(a: seq<Interval>, x: Interval, b: seq<Interval>, i: nat)
    requires i <= |a|
    ensures (a + [x] + b)[..i] == a[..i] && (a + [x] + b)[i..] == a[i..] + [x] + b
  {
  }

  /** Splitting `a + [x] + b` at a position inside `b`. */
  lemma SliceRight(a: seq<Interval>, x: Interval, b: seq<Interval>, i: nat)
    requires i <= |b|
    ensures (a + [x] + b)[..|a| + 1 + i] == a + [x] + b[..i] && (a + [x] + b)[|a| + 1 + i..] == b[i..]
  {
  }

  /** `insert(interval)`: insertion followed by `root.color = Black`. */
  function Insert(t: Tree, iv: Interval): Tree
  {
    Paint(InsRec(t, iv), Black)
  }

  /** A red root with at most one red child, both children otherwise
      red-black: what a subtree with a red root may become during
      insertion. */
  predicate Infrared(t: Tree)
  {
    IsRed(t) && NoRedRed(t.left) && NoRedRed(t.right) && !(IsRed(t.left) && IsRed(t.right))
  }

  lemma FixLeftRB(c: Color, x: Interval, p: Tree, u: Tree)
    requires Balanced(p) && Balanced(u) && BH(p) == BH(u) && NoRedRed(u)
    requires NoRedRed(p) || Infrared(p)
    requires c == Black
    ensures var t := FixLeft(c, x, p, u); Balanced(t) && NoRedRed(t) && BH(t) == 1 + BH(u)
  {
    if RedConflict(p) {
      if !IsRed(u) {
        if !IsRed(p.left) {
          var z := p.right;
          assert !IsRed(z.left) && !IsRed(z.right);
        }
      }
    }
  }

  lemma FixRightRB(c: Color, x: Interval, u: Tree, p: Tree)
    requires Balanced(p) && Balanced(u) && BH(p) == BH(u) && NoRedRed(u)
    requires NoRedRed(p) || Infrared(p)
    requires c == Black
    ensures var t := FixRight(c, x, u, p); Balanced(t) && NoRedRed(t) && BH(t) == 1 + BH(u)
  {
    if RedConflict(p) {
      if !IsRed(u) {
        if !IsRed(p.right) {
          var z := p.left;
          assert !IsRed(z.left) && !IsRed(z.right);
        }
      }
    }
  }

  /** Insertion keeps every path's black count; below a black (or absent)
      root the result has no red-red conflict, below a red root at most the
      one conflict that the grandparent repairs. */
  lemma {:induction false} InsRecRB(t: Tree, iv: Interval)
    requires RB(t)
    ensures Balanced(InsRec(t, iv)) && BH(InsRec(t, iv)) == BH(t)
    ensures !IsRed(t) ==> NoRedRed(InsRec(t, iv))
    ensures IsRed(t) ==> Infrared(InsRec(t, iv))
  {
    match t
    case Empty =>
    case Node(c, x, _, l, r) =>
      if iv.low < x.low {
        InsRecRB(l, iv);
        if c == Black { FixLeftRB(c, x, InsRec(l, iv), r); }
        assert InsRec(t, iv) == InsLeft(t, iv) == FixLeft(c, x, InsRec(l, iv), r);
      } else {
        InsRecRB(r, iv);
        if c == Black { FixRightRB(c, x, l, InsRec(r, iv)); }
        assert InsRec(t, iv) == InsRight(t, iv) == FixRight(c, x, l, InsRec(r, iv));
      }
  }

  /** The descent lands at the upper-bound position of the new low: after
      every interval whose low is at most it, before every larger one. */
  lemma {:induction false} InsPosIsUpperBound(t: Tree, k: int)
    requires SortedByLow(Keys(t))
    ensures forall j :: 0 <= j < InsPos(t, k) ==> Keys(t)[j].low <= k
    ensures forall j :: InsPos(t, k) <= j < Size(t) ==> Keys(t)[j].low > k
  {
    match t
    case Empty =>
    case Node(_, x, _, l, r) =>
      var s := Keys(t);
      assert s == Keys(l) + [x] + Keys(r);
      SortedSplit(t);
      assert forall j :: 0 <= j < Size(l) ==> s[j] == Keys(l)[j];
      assert forall j :: 0 <= j < Size(r) ==> s[Size(l) + 1 + j] == Keys(r)[j];
      assert s[Size(l)] == x;
      InsPosIsUpperBound(l, k);
      InsPosIsUpperBound(r, k);
  }

  /** Sorted sequences stay sorted when an element goes in at its
      upper-bound position. */
  lemma InsertAtBoundSorted(s: seq<Interval>, i: nat, iv: Interval)
    requires i <= |s| && SortedByLow(s)
    requires forall j :: 0 <= j < i ==> s[j].low <= iv.low
    requires forall j :: i <= j < |s| ==> s[j].low > iv.low
    ensures SortedByLow(s[..i] + [iv] + s[i..])
  {
    var u := s[..i] + [iv] + s[i..];
    forall a, b | 0 <= a < b < |u| ensures u[a].low <= u[b].low {
      if a < i && b > i { assert u[a] == s[a] && u[b] == s[b - 1]; }
      else if a > i { assert u[a] == s[a - 1] && u[b] == s[b - 1]; }
      else if b < i { assert u[a] == s[a] && u[b] == s[b]; }
    }
  }

  /** `insert` keeps the tree valid (red-black rules, black root, ordering,
      augmentation) and places the new interval after every stored interval
      with a low at most its own and before every larger one. */
  lemma InsertValid(t: Tree, iv: Interval)
    requires Valid(t)
    ensures Valid(Insert(t, iv))
    ensures exists i :: (0 <= i <= Size(t)
      && Keys(Insert(t, iv)) == Keys(t)[..i] + [iv] + Keys(t)[i..]
      && (forall j :: 0 <= j < i ==> Keys(t)[j].low <= iv.low)
      && (forall j :: i <= j < Size(t) ==> Keys(t)[j].low > iv.low))
    ensures Size(Insert(t, iv)) == Size(t) + 1
  {
    var i := InsPos(t, iv.low);
    InsRecRB(t, iv);
    InsPosIsUpperBound(t, iv.low);
    InsertAtBoundSorted(Keys(t), i, iv);
  }
}
