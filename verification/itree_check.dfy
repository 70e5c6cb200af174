/** The tree's self-check: `check_recursive` returns the black height of a
    subtree, or -1 on a red-red violation, an ordering violation against
    `pre_node`, or a broken parent link; a wrong `max` ends the process.
    Parent links do not exist in the algebraic tree, so that test has no
    counterpart here; -1 becomes `Violation` and the process exit `Exit`. */
module IntervalCheck {
  import opened Common
  import opened IntervalTree
  import opened IntervalInsert
  import opened IntervalDelete
  import opened IntervalDeleteSpec

  datatype Verdict = Height(h: nat) | Violation | Exit

  /** Outcome of `check()`: true, false, or the process ended. */
  datatype CheckResult = Passed | Failed | Exited

  /** `check_recursive(node, pre_node)` as written: `pre_node` (here its key)
      is handed unchanged to the left subtree and replaced by the node itself
      for the right subtree, so each node is compared only with the nearest
      ancestor whose right subtree holds it. */
  function CheckRec(t: Tree, pre: Option<int>): Verdict
  {
    match t
    case Empty => Height(0)
    case Node(c, iv, m, l, r) =>
      if c == Red && (IsRed(l) || IsRed(r)) then Violation
      else
        var lv := CheckRec(l, pre);
        if lv == Exit then Exit
        else if pre.Some? && pre.value > iv.low then Violation
        else if m != FixedMax(iv, l, r) then Exit
        else
          var rv := CheckRec(r, Some(iv.low));
          if rv == Exit then Exit
          else if lv.Height? && lv == rv then Height(lv.h + BlackOf(c))
          else Violation
  }

  /** `check()`: the root (and the sentinel) must be black. */
  function Check(t: Tree): CheckResult
  {
    if IsRed(t) then Failed
    else
      match CheckRec(t, None)
      case Height(_) => Passed
      case Violation => Failed
      case Exit => Exited
  }

  /** Intervals at or above an optional lower bound. */
  predicate AtLeast(pre: Option<int>, s: seq<Interval>)
  {
    pre.Some? ==> forall x :: x in s ==> x.low >= pre.value
  }

  /** A height from the checker as written certifies the red-black rules and
      the augmentation, and is the black height. */
  lemma {:induction false} CheckRecSound(t: Tree, pre: Option<int>)
    ensures CheckRec(t, pre).Height? ==> RB(t) && MaxOk(t) && CheckRec(t, pre).h == BH(t)
    ensures CheckRec(t, pre) == Exit ==> !MaxOk(t)
  {
    match t
    case Empty =>
    case Node(c, iv, m, l, r) =>
      CheckRecSound(l, pre);
      CheckRecSound(r, Some(iv.low));
  }

  /** Every valid subtree whose keys respect the bound passes, with its
      black height. */
  lemma {:induction false} CheckRecComplete(t: Tree, pre: Option<int>)
    requires RB(t) && MaxOk(t) && SortedByLow(Keys(t)) && AtLeast(pre, Keys(t))
    ensures CheckRec(t, pre) == Height(BH(t))
  {
    match t
    case Empty =>
    case Node(c, iv, m, l, r) =>
      SortedSplit(t);
      assert iv in Keys(t);
      CheckRecComplete(l, pre);
      CheckRecComplete(r, Some(iv.low));
  }

  /** `check()` accepts every valid tree; what it accepts obeys the
      red-black rules with a black root and the augmentation. */
  lemma CheckOfValid(t: Tree)
    ensures Valid(t) ==> Check(t) == Passed
    ensures Check(t) == Passed ==> RB(t) && !IsRed(t) && MaxOk(t)
  {
    CheckRecSound(t, None);
    if Valid(t) { CheckRecComplete(t, None); }
  }

  /** The checker as written misses ordering faults where a left child's key
      exceeds its parent's: this tree, whose in-order lows are 7, 5, 6,
      passes `check()`. */
  lemma CheckMissesLeftOrder()
    ensures var t := Node(Black, Interval(5, 5), 7,
                          Node(Red, Interval(7, 7), 7, Empty, Empty),
                          Node(Red, Interval(6, 6), 6, Empty, Empty));
      Check(t) == Passed && !SortedByLow(Keys(t))
  {
    var t := Node(Black, Interval(5, 5), 7,
                  Node(Red, Interval(7, 7), 7, Empty, Empty),
                  Node(Red, Interval(6, 6), 6, Empty, Empty));
    assert Keys(t) == [Interval(7, 7), Interval(5, 5), Interval(6, 6)];
    assert Keys(t)[0].low > Keys(t)[1].low;
  }

  /** The check with the intended in-order pass: the key of the previously
      visited node is threaded through the walk and returned, so every node
      is compared with its in-order predecessor. */
  function CheckRecInOrder(t: Tree, pre: Option<int>): (Verdict, Option<int>)
  {
    match t
    case Empty => (Height(0), pre)
    case Node(c, iv, m, l, r) =>
      if c == Red && (IsRed(l) || IsRed(r)) then (Violation, pre)
      else
        var (lv, last) := CheckRecInOrder(l, pre);
        if lv == Exit then (Exit, last)
        else if last.Some? && last.value > iv.low then (Violation, last)
        else if m != FixedMax(iv, l, r) then (Exit, last)
        else
          var (rv, last') := CheckRecInOrder(r, Some(iv.low));
          if rv == Exit then (Exit, last')
          else if lv.Height? && lv == rv then (Height(lv.h + BlackOf(c)), last')
          else (Violation, last')
  }

  function CheckInOrder(t: Tree): CheckResult
  {
    if IsRed(t) then Failed
    else
      match CheckRecInOrder(t, None).0
      case Height(_) => Passed
      case Violation => Failed
      case Exit => Exited
  }

  /** The low of the last interval visited after walking `s` from `pre`. */
  function LastLow(pre: Option<int>, s: seq<Interval>): Option<int>
  {
    if |s| == 0 then pre else Some(s[|s| - 1].low)
  }

  /** Joining two ordered runs at a key that separates them. */
  lemma SortedJoin(pre: Option<int>, a: seq<Interval>, iv: Interval, b: seq<Interval>)
    requires SortedByLow(a) && AtLeast(pre, a) && SortedByLow(b) && AtLeast(Some(iv.low), b)
    requires LastLow(pre, a).Some? ==> LastLow(pre, a).value <= iv.low
    ensures SortedByLow(a + [iv] + b) && AtLeast(pre, a + [iv] + b)
  {
    var s := a + [iv] + b;
    if |a| > 0 {
      assert forall j :: 0 <= j < |a| ==> a[j].low <= a[|a| - 1].low;
    }
    assert forall j :: 0 <= j < |a| ==> a[j].low <= iv.low;
    forall i, j | 0 <= i < j < |s| ensures s[i].low <= s[j].low {
      if j < |a| { assert s[i] == a[i] && s[j] == a[j]; }
      else if i < |a| && j == |a| { assert s[i] == a[i]; }
      else if i < |a| { assert s[i] == a[i] && s[j] == b[j - |a| - 1] && s[j] in b; }
      else if i == |a| { assert s[j] == b[j - |a| - 1] && s[j] in b; }
      else { assert s[i] == b[i - |a| - 1] && s[j] == b[j - |a| - 1]; }
    }
    if pre.Some? {
      if |a| > 0 { assert a[0] in a; }
      forall x | x in s ensures x.low >= pre.value {
        if x in b { assert x.low >= iv.low; }
      }
    }
  }

  /** The ordering tests that the in-order pass makes, split back apart. */
  lemma SortedUnjoin(pre: Option<int>, a: seq<Interval>, iv: Interval, b: seq<Interval>)
    requires SortedByLow(a + [iv] + b) && AtLeast(pre, a + [iv] + b)
    ensures SortedByLow(a) && AtLeast(pre, a) && SortedByLow(b) && AtLeast(Some(iv.low), b)
    ensures LastLow(pre, a).Some? ==> LastLow(pre, a).value <= iv.low
  {
    var s := a + [iv] + b;
    assert forall j :: 0 <= j < |a| ==> s[j] == a[j];
    assert forall j :: 0 <= j < |b| ==> s[|a| + 1 + j] == b[j];
    assert s[|a|] == iv && iv in s;
    assert forall x :: x in a ==> x in s;
    forall x | x in b ensures x.low >= iv.low {
      var j :| 0 <= j < |b| && b[j] == x;
      assert s[|a| + 1 + j] == x;
    }
    forall i, j | 0 <= i < j < |a| ensures a[i].low <= a[j].low {
      assert s[i] == a[i] && s[j] == a[j];
    }
    forall i, j | 0 <= i < j < |b| ensures b[i].low <= b[j].low {
      assert s[|a| + 1 + i] == b[i] && s[|a| + 1 + j] == b[j];
    }
  }

  /** The in-order check is exact: it returns a height precisely for
      subtrees obeying the red-black rules, the augmentation and the
      ordering (continuing from `pre`), and then the height is the black
      height and the returned key is the last one visited. */
  lemma {:induction false} CheckRecInOrderExact(t: Tree, pre: Option<int>)
    ensures var (v, last) := CheckRecInOrder(t, pre);
      (v.Height? <==> RB(t) && MaxOk(t) && SortedByLow(Keys(t)) && AtLeast(pre, Keys(t)))
      && (v.Height? ==> v.h == BH(t) && last == LastLow(pre, Keys(t)))
  {
    CheckRecInOrderSound(t, pre);
    if RB(t) && MaxOk(t) && SortedByLow(Keys(t)) && AtLeast(pre, Keys(t)) {
      CheckRecInOrderComplete(t, pre);
    }
  }

  /** A height from the in-order check certifies the subtree. */
  lemma CheckRecInOrderSound(t: Tree, pre: Option<int>)
    ensures var (v, last) := CheckRecInOrder(t, pre);
      v.Height? ==> RB(t) && MaxOk(t) && SortedByLow(Keys(t)) && AtLeast(pre, Keys(t))
                    && v.h == BH(t) && last == LastLow(pre, Keys(t))
  {
    CheckRecInOrderShape(t, pre);
    CheckRecInOrderOrder(t, pre);
  }

  /** A height certifies the red-black rules and the augmentation, and is
      the black height. */
  lemma {:induction false} CheckRecInOrderShape(t: Tree, pre: Option<int>)
    ensures var v := CheckRecInOrder(t, pre).0;
      v.Height? ==> RB(t) && MaxOk(t) && v.h == BH(t)
  {
    match t
    case Empty =>
    case Node(c, iv, m, l, r) =>
      if CheckRecInOrder(t, pre).0.Height? {
        CheckRecInOrderShape(l, pre);
        CheckRecInOrderShape(r, Some(iv.low));
      }
  }

  /** A height certifies the ordering after `pre`, and the returned key
      is the last one visited. */
  lemma {:induction false} CheckRecInOrderOrder(t: Tree, pre: Option<int>)
    ensures var (v, last) := CheckRecInOrder(t, pre);
      v.Height? ==> SortedByLow(Keys(t)) && AtLeast(pre, Keys(t)) && last == LastLow(pre, Keys(t))
  {
    match t
    case Empty =>
    case Node(c, iv, m, l, r) =>
      if CheckRecInOrder(t, pre).0.Height? {
        CheckRecInOrderParts(t, pre);
        CheckRecInOrderOrder(l, pre);
        CheckRecInOrderOrder(r, Some(iv.low));
        var kl, kr := Keys(l), Keys(r);
        assert Keys(t) == kl + [iv] + kr;
        SortedJoin(pre, kl, iv, kr);
        assert LastLow(pre, Keys(t)) == LastLow(Some(iv.low), kr);
      }
  }

  /** Every subtree obeying the rules and ordered after `pre` gets a
      height from the in-order check. */
  lemma {:induction false} CheckRecInOrderComplete(t: Tree, pre: Option<int>)
    requires RB(t) && MaxOk(t) && SortedByLow(Keys(t)) && AtLeast(pre, Keys(t))
    ensures CheckRecInOrder(t, pre).0.Height?
  {
    match t
    case Empty =>
    case Node(c, iv, m, l, r) =>
      var kl, kr := Keys(l), Keys(r);
      assert Keys(t) == kl + [iv] + kr;
      SortedUnjoin(pre, kl, iv, kr);
      CheckRecInOrderComplete(l, pre);
      CheckRecInOrderComplete(r, Some(iv.low));
      CheckRecInOrderShape(l, pre);
      CheckRecInOrderShape(r, Some(iv.low));
      CheckRecInOrderOrder(l, pre);
      CheckRecInOrderNode(t, pre);
  }

  /** A node that passes had both subtrees pass, the left one ending at
      or below the node's key, and reports the right subtree's last key. */
  lemma CheckRecInOrderParts(t: Tree, pre: Option<int>)
    requires t.Node? && CheckRecInOrder(t, pre).0.Height?
    ensures CheckRecInOrder(t.left, pre).0.Height?
    ensures CheckRecInOrder(t.right, Some(t.iv.low)).0.Height?
    ensures CheckRecInOrder(t.left, pre).1.Some? ==> CheckRecInOrder(t.left, pre).1.value <= t.iv.low
    ensures CheckRecInOrder(t, pre).1 == CheckRecInOrder(t.right, Some(t.iv.low)).1
  {
  }

  /** One node passes once both subtrees do with equal heights, the node
      keeps the colour rule and the augmentation, and the left subtree's
      last key is at most the node's. */
  lemma CheckRecInOrderNode(t: Tree, pre: Option<int>)
    requires t.Node? && !(t.color == Red && (IsRed(t.left) || IsRed(t.right)))
    requires t.max == FixedMax(t.iv, t.left, t.right)
    requires CheckRecInOrder(t.left, pre).0.Height?
    requires CheckRecInOrder(t.left, pre).0 == CheckRecInOrder(t.right, Some(t.iv.low)).0
    requires CheckRecInOrder(t.left, pre).1.Some? ==> CheckRecInOrder(t.left, pre).1.value <= t.iv.low
    ensures CheckRecInOrder(t, pre).0.Height?
  {
  }

  /** The corrected check passes exactly the valid trees. */
  lemma CheckInOrderExact(t: Tree)
    ensures CheckInOrder(t) == Passed <==> Valid(t)
  {
    CheckRecInOrderExact(t, None);
  }

  /** The driver's assertion after every step: starting from a valid tree,
      `check()` passes after `insert`, `delete` and `delete_by_index`. */
  lemma CheckPassesAfterEachStep(t: Tree, iv: Interval, k: int)
    requires Valid(t)
    ensures Check(Insert(t, iv)) == Passed
    ensures Check(Delete(t, iv)) == Passed
    ensures Check(DeleteByIndex(t, k)) == Passed
  {
    InsertValid(t, iv);
    DeleteValid(t, iv);
    DeleteByIndexValid(t, k);
    CheckOfValid(Insert(t, iv));
    CheckOfValid(Delete(t, iv));
    CheckOfValid(DeleteByIndex(t, k));
  }
}
