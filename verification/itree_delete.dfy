/** Deletion from the interval tree: `delete` (by key), `delete_by_index`,
    `delete_node` with successor-copy removal, and `delete_fixup`.  The
    fix-up loop, which walks the node `x` carrying an extra black up the
    tree, becomes a recursion that returns, with each rebuilt subtree,
    whether that subtree lost one black (`short`); the parent then applies
    the loop body with `x` as its child.  Every node on the path is rebuilt
    with its `fixMax` value, which is what `max_fixup` achieves. */
module IntervalDelete {
  import opened Common
  import opened IntervalTree

  /** A rebuilt subtree, and whether `x`'s extra black is still unresolved
      at its root (its black count is one lower than before). */
  datatype Removal = Removal(tree: Tree, short: bool)

  function ShortBy(r: Removal): nat { if r.short then 1 else 0 }

  /** Loop exit of `delete_fixup` at a red `x`, followed by
      `x.color = Black`: the red node absorbs the extra black. */
  function Absorb(x: Tree, short: bool): (r: Removal)
    ensures Keys(r.tree) == Keys(x)
    ensures MaxOk(x) ==> MaxOk(r.tree)
  {
    if short && IsRed(x) then Removal(Paint(x, Black), false) else Removal(x, short)
  }

  /** Cases 2 to 4 of `delete_fixup` for a left child `x` whose sibling `w`
      is black: case 2 (both nephews black) paints `w` red and moves the
      extra black to the parent; case 3 (far nephew black) recolours and
      rotates `w` right; case 4 recolours and rotates the parent left. */
  function FixLeftBlackSibling(c: Color, iv: Interval, x: Tree, w: Tree): (r: Removal)
    ensures Keys(r.tree) == Keys(x) + [iv] + Keys(w)
    ensures MaxOk(x) && MaxOk(w) ==> MaxOk(r.tree)
  {
    if !IsRed(LeftOf(w)) && !IsRed(RightOf(w)) then
      Absorb(Mk(c, iv, x, Paint(w, Red)), true)
    else
      var w' :=
        if !IsRed(w.right) then RotateRight(Node(Red, w.iv, w.max, Paint(w.left, Black), w.right))
        else w;
      Removal(RotateLeft(Mk(Black, iv, x, Node(c, w'.iv, w'.max, w'.left, Paint(w'.right, Black)))), false)
  }

  /** The loop body of `delete_fixup` for a left child `x`: case 1 (red
      sibling) recolours and rotates the parent left, then the cases for a
      black sibling run at the old parent, now red. */
  function FixLeft(c: Color, iv: Interval, x: Tree, w: Tree): (r: Removal)
    ensures Keys(r.tree) == Keys(x) + [iv] + Keys(w)
    ensures MaxOk(x) && MaxOk(w) ==> MaxOk(r.tree)
  {
    if IsRed(w) then
      var inner := FixLeftBlackSibling(Red, iv, x, w.left);
      Removal(Mk(Black, w.iv, inner.tree, w.right), inner.short)
    else
      FixLeftBlackSibling(c, iv, x, w)
  }

  /** Mirror image of `FixLeftBlackSibling` for a right child `x`. */
  function FixRightBlackSibling(c: Color, iv: Interval, w: Tree, x: Tree): (r: Removal)
    ensures Keys(r.tree) == Keys(w) + [iv] + Keys(x)
    ensures MaxOk(x) && MaxOk(w) ==> MaxOk(r.tree)
  {
    if !IsRed(LeftOf(w)) && !IsRed(RightOf(w)) then
      Absorb(Mk(c, iv, Paint(w, Red), x), true)
    else
      var w' :=
        if !IsRed(w.left) then RotateLeft(Node(Red, w.iv, w.max, w.left, Paint(w.right, Black)))
        else w;
      Removal(RotateRight(Mk(Black, iv, Node(c, w'.iv, w'.max, Paint(w'.left, Black), w'.right), x)), false)
  }

  /** Mirror image of `FixLeft` for a right child `x`. */
  function FixRight(c: Color, iv: Interval, w: Tree, x: Tree): (r: Removal)
    ensures Keys(r.tree) == Keys(w) + [iv] + Keys(x)
    ensures MaxOk(x) && MaxOk(w) ==> MaxOk(r.tree)
  {
    if IsRed(w) then
      var inner := FixRightBlackSibling(Red, iv, w.right, x);
      Removal(Mk(Black, w.iv, w.left, inner.tree), inner.short)
    else
      FixRightBlackSibling(c, iv, w, x)
  }

  /** Rebuild a node after its left subtree changed, running the fix-up when
      the left subtree came back short. */
  function JoinLeft(c: Color, iv: Interval, l: Removal, r: Tree): (res: Removal)
    ensures Keys(res.tree) == Keys(l.tree) + [iv] + Keys(r)
    ensures MaxOk(l.tree) && MaxOk(r) ==> MaxOk(res.tree)
  {
    if l.short then FixLeft(c, iv, l.tree, r) else Removal(Mk(c, iv, l.tree, r), false)
  }

  function JoinRight(c: Color, iv: Interval, l: Tree, r: Removal): (res: Removal)
    ensures Keys(res.tree) == Keys(l) + [iv] + Keys(r.tree)
    ensures MaxOk(l) && MaxOk(r.tree) ==> MaxOk(res.tree)
  {
    if r.short then FixRight(c, iv, l, r.tree) else Removal(Mk(c, iv, l, r.tree), false)
  }

  /** Unlinking the successor `y = min_node(z.right)`: `y` has no left
      child, so `x = y.right` takes its place.  Returns the rebuilt subtree
      and `y`'s interval, which `delete_node` copies into `z`. */
  function DelMin(t: Tree): (res: (Removal, Interval))
    requires t.Node?
    ensures Keys(res.0.tree) == Keys(t)[1..]
    ensures MinNode(t) == Some(res.1)
    ensures MaxOk(t) ==> MaxOk(res.0.tree)
  {
    if t.left.Empty? then
      (Absorb(t.right, t.color == Black), t.iv)
    else
      var (l', m) := DelMin(t.left);
      (JoinLeft(t.color, t.iv, l', t.right), m)
  }

  /** `delete_node(z)` for the root `z` of `t`: with at most one child, `z`
      itself is spliced out; otherwise the successor's interval is copied
      into `z` and the successor is unlinked.  Removing a black node leaves
      the extra black on `x`. */
  function RemoveNode(t: Tree): (r: Removal)
    requires t.Node?
    ensures Keys(r.tree) == Keys(t.left) + Keys(t.right)
    ensures MaxOk(t) ==> MaxOk(r.tree)
  {
    if t.left.Empty? || t.right.Empty? then
      Absorb(if t.left.Node? then t.left else t.right, t.color == Black)
    else ReplaceBySuccessor(t)
  }

  /** `delete_node(z)` when `z` has two children: `y = min_node(z.right)`
      is unlinked and its interval copied into `z`. */
  function ReplaceBySuccessor(t: Tree): (r: Removal)
    requires t.Node? && t.right.Node?
    ensures Keys(r.tree) == Keys(t.left) + Keys(t.right)
    ensures MaxOk(t) ==> MaxOk(r.tree)
  {
    var (r', m) := DelMin(t.right);
    assert Keys(t.right) == [m] + Keys(t.right)[1..];
    JoinRight(t.color, m, t.left, r')
  }

  /** In-order position of the node `delete` finds for low `k`: the first
      node on the search path whose key equals `k`. */
  function SearchPos(t: Tree, k: int): (p: Option<nat>)
    ensures p.Some? ==> p.value < Size(t) && Keys(t)[p.value].low == k
  {
    match t
    case Empty => None
    case Node(_, iv, _, l, r) =>
      if k == iv.low then Some(Size(l))
      else if k < iv.low then SearchPos(l, k)
      else
        match SearchPos(r, k)
        case None => None
        case Some(i) => Some(Size(l) + 1 + i)
  }

  /** Cutting out position `i` of `a + [x] + b` when `i` falls in `a`. */
  lemma CutInLeft(a: seq<Interval>, x: Interval, b: seq<Interval>, i: nat)
    requires i < |a|
    ensures (a + [x] + b)[..i] + (a + [x] + b)[i + 1..] == a[..i] + a[i + 1..] + [x] + b
  {
    var s := a + [x] + b;
    assert s[..i] == a[..i];
    assert s[i + 1..] == a[i + 1..] + [x] + b;
  }

  /** Cutting out position `|a| + 1 + i` of `a + [x] + b`. */
  lemma CutInRight(a: seq<Interval>, x: Interval, b: seq<Interval>, i: nat)
    requires i < |b|
    ensures (a + [x] + b)[..|a| + 1 + i] + (a + [x] + b)[|a| + 1 + i + 1..] == a + [x] + (b[..i] + b[i + 1..])
  {
    var s := a + [x] + b;
    assert s[..|a| + 1 + i] == a + [x] + b[..i];
    assert s[|a| + 1 + i + 1..] == b[i + 1..];
  }

  /** The search loop of `delete(interval)` on `low`, then `delete_node` on
      the node found. */
  function DelKey(t: Tree, k: int): (r: Removal)
    ensures SearchPos(t, k).None? ==> Keys(r.tree) == Keys(t)
    ensures SearchPos(t, k).Some? ==>
      var i := SearchPos(t, k).value; Keys(r.tree) == Keys(t)[..i] + Keys(t)[i + 1..]
    ensures MaxOk(t) ==> MaxOk(r.tree)
    decreases t, 1
  {
    match t
    case Empty => Removal(Empty, false)
    case Node(_, iv, _, _, _) =>
      if k == iv.low then
        assert Keys(t)[..Size(t.left)] == Keys(t.left) && Keys(t)[Size(t.left) + 1..] == Keys(t.right);
        RemoveNode(t)
      else if k < iv.low then DelKeyLeft(t, k)
      else DelKeyRight(t, k)
  }

  /** The search goes left. */
  function DelKeyLeft(t: Tree, k: int): (r: Removal)
    requires t.Node? && k < t.iv.low
    ensures SearchPos(t, k).None? ==> Keys(r.tree) == Keys(t)
    ensures SearchPos(t, k).Some? ==>
      var i := SearchPos(t, k).value; Keys(r.tree) == Keys(t)[..i] + Keys(t)[i + 1..]
    ensures MaxOk(t) ==> MaxOk(r.tree)
    decreases t, 0
  {
    var d := DelKey(t.left, k);
    assert Keys(t) == Keys(t.left) + [t.iv] + Keys(t.right);
    assert SearchPos(t, k) == SearchPos(t.left, k);
    if SearchPos(t.left, k).Some? then
      CutInLeft(Keys(t.left), t.iv, Keys(t.right), SearchPos(t.left, k).value);
      JoinLeft(t.color, t.iv, d, t.right)
    else JoinLeft(t.color, t.iv, d, t.right)
  }

  /** The search goes right. */
  function DelKeyRight(t: Tree, k: int): (r: Removal)
    requires t.Node? && k > t.iv.low
    ensures SearchPos(t, k).None? ==> Keys(r.tree) == Keys(t)
    ensures SearchPos(t, k).Some? ==>
      var i := SearchPos(t, k).value; Keys(r.tree) == Keys(t)[..i] + Keys(t)[i + 1..]
    ensures MaxOk(t) ==> MaxOk(r.tree)
    decreases t, 0
  {
    var d := DelKey(t.right, k);
    assert Keys(t) == Keys(t.left) + [t.iv] + Keys(t.right);
    match SearchPos(t.right, k)
    case Some(p) =>
      assert SearchPos(t, k) == Some(Size(t.left) + 1 + p);
      CutInRight(Keys(t.left), t.iv, Keys(t.right), p);
      JoinRight(t.color, t.iv, t.left, d)
    case None =>
      assert SearchPos(t, k) == None;
      JoinRight(t.color, t.iv, t.left, d)
  }

  /** Removal of the node at in-order rank `k` (what `delete_node` does to
      the node `find_by_index_recursive` located). */
  function DelAt(t: Tree, k: nat): (r: Removal)
    ensures k < Size(t) ==> Keys(r.tree) == Keys(t)[..k] + Keys(t)[k + 1..]
    ensures MaxOk(t) ==> MaxOk(r.tree)
    decreases t, 1
  {
    match t
    case Empty => Removal(Empty, false)
    case Node(_, _, _, l, r) =>
      if k < Size(l) then DelAtLeft(t, k)
      else if k == Size(l) then
        assert Keys(t)[..k] == Keys(l) && Keys(t)[k + 1..] == Keys(r);
        RemoveNode(t)
      else DelAtRight(t, k)
  }

  /** The rank lies in the left subtree. */
  function DelAtLeft(t: Tree, k: nat): (r: Removal)
    requires t.Node? && k < Size(t.left)
    ensures Keys(r.tree) == Keys(t)[..k] + Keys(t)[k + 1..]
    ensures MaxOk(t) ==> MaxOk(r.tree)
    decreases t, 0
  {
    var d := DelAt(t.left, k);
    CutInLeft(Keys(t.left), t.iv, Keys(t.right), k);
    JoinLeft(t.color, t.iv, d, t.right)
  }

  /** The rank lies past the node: in the right subtree, or past the end. */
  function DelAtRight(t: Tree, k: nat): (r: Removal)
    requires t.Node? && k > Size(t.left)
    ensures k < Size(t) ==> Keys(r.tree) == Keys(t)[..k] + Keys(t)[k + 1..]
    ensures MaxOk(t) ==> MaxOk(r.tree)
    decreases t, 0
  {
    var i := k - Size(t.left) - 1;
    var d := DelAt(t.right, i);
    if k < Size(t) then
      CutInRight(Keys(t.left), t.iv, Keys(t.right), i);
      JoinRight(t.color, t.iv, t.left, d)
    else
      JoinRight(t.color, t.iv, t.left, d)
  }

  /** `delete(interval)`: a no-op on the empty tree. */
  function Delete(t: Tree, iv: Interval): Tree
  {
    if t.Empty? then t else DelKey(t, iv.low).tree
  }

  /** `delete_by_index(index)`: a no-op for a negative index or when the
      rank search finds only the sentinel. */
  function DeleteByIndex(t: Tree, index: int): Tree
  {
    if index < 0 then t
    else if FindByIndex(t, index).0.None? then t
    else DelAt(t, index).tree
  }
}

/** Red-black, ordering and augmentation facts about deletion. */
module IntervalDeleteProofs {
  import opened Common
  import opened IntervalTree
  import opened IntervalDelete

  /** What a rebuilt subtree promises the node above it: the red-black
      rules inside, one black fewer exactly when `short`, a red root only
      where the old root was red, and an unresolved extra black only on a
      black root. */
  predicate Repaired(r: Removal, bh: nat, wasRed: bool)
  {
    RB(r.tree) && BH(r.tree) + ShortBy(r) == bh
    && (IsRed(r.tree) ==> wasRed) && (r.short ==> !IsRed(r.tree))
  }

  /** Case 3 (left side): the rotated sibling is black with a red far
      child and keeps its black count. */
  lemma Case3LeftRB(w: Tree)
    requires RB(w) && w.Node? && w.color == Black && IsRed(w.left) && !IsRed(w.right)
    ensures var w' := RotateRight(Node(Red, w.iv, w.max, Paint(w.left, Black), w.right));
      w'.color == Black && IsRed(w'.right) && Balanced(w') && BH(w') == BH(w)
      && NoRedRed(w'.left) && NoRedRed(w'.right)
  {
    var wl := w.left;
    var w' := RotateRight(Node(Red, w.iv, w.max, Paint(wl, Black), w.right));
    assert RB(wl) && RB(w.right) && !IsRed(wl.left) && !IsRed(wl.right);
    assert BH(wl.left) == BH(wl) && BH(wl.right) == BH(wl) && BH(w.right) == BH(wl);
    assert w'.left == wl.left && w'.right.left == wl.right && w'.right.right == w.right;
    assert RB(wl.left) && RB(wl.right);
  }

  /** Case 4 (left side): recolour and rotate the parent; the extra black
      is resolved. */
  lemma Case4LeftRB(c: Color, iv: Interval, x: Tree, w: Tree)
    requires RB(x) && !IsRed(x) && w.Node? && w.color == Black && Balanced(w)
    requires NoRedRed(w.left) && NoRedRed(w.right) && IsRed(w.right) && BH(w) == BH(x) + 1
    ensures var t := RotateLeft(Mk(Black, iv, x, Node(c, w.iv, w.max, w.left, Paint(w.right, Black))));
      RB(t) && BH(t) == BlackOf(c) + BH(w) && (IsRed(t) ==> c == Red)
  {
  }

  lemma FixLeftBlackSiblingRB(c: Color, iv: Interval, x: Tree, w: Tree)
    requires RB(x) && RB(w) && BH(w) == BH(x) + 1 && !IsRed(x) && !IsRed(w)
    ensures Repaired(FixLeftBlackSibling(c, iv, x, w), BlackOf(c) + BH(w), c == Red)
    ensures c == Red ==> !FixLeftBlackSibling(c, iv, x, w).short
  {
    if !IsRed(LeftOf(w)) && !IsRed(RightOf(w)) {
      assert RB(Paint(w, Red));
    } else if !IsRed(w.right) {
      Case3LeftRB(w);
      Case4LeftRB(c, iv, x, RotateRight(Node(Red, w.iv, w.max, Paint(w.left, Black), w.right)));
    } else {
      Case4LeftRB(c, iv, x, w);
    }
  }

  lemma Case3RightRB(w: Tree)
    requires RB(w) && w.Node? && w.color == Black && IsRed(w.right) && !IsRed(w.left)
    ensures var w' := RotateLeft(Node(Red, w.iv, w.max, w.left, Paint(w.right, Black)));
      w'.color == Black && IsRed(w'.left) && Balanced(w') && BH(w') == BH(w)
      && NoRedRed(w'.left) && NoRedRed(w'.right)
  {
    var wr := w.right;
    var w' := RotateLeft(Node(Red, w.iv, w.max, w.left, Paint(wr, Black)));
    assert RB(wr) && RB(w.left) && !IsRed(wr.left) && !IsRed(wr.right);
    assert BH(wr.left) == BH(wr) && BH(wr.right) == BH(wr) && BH(w.left) == BH(wr);
    assert w'.right == wr.right && w'.left.right == wr.left && w'.left.left == w.left;
    assert RB(wr.left) && RB(wr.right);
  }

  lemma Case4RightRB(c: Color, iv: Interval, w: Tree, x: Tree)
    requires RB(x) && !IsRed(x) && w.Node? && w.color == Black && Balanced(w)
    requires NoRedRed(w.left) && NoRedRed(w.right) && IsRed(w.left) && BH(w) == BH(x) + 1
    ensures var t := RotateRight(Mk(Black, iv, Node(c, w.iv, w.max, Paint(w.left, Black), w.right), x));
      RB(t) && BH(t) == BlackOf(c) + BH(w) && (IsRed(t) ==> c == Red)
  {
  }

  lemma FixRightBlackSiblingRB(c: Color, iv: Interval, w: Tree, x: Tree)
    requires RB(x) && RB(w) && BH(w) == BH(x) + 1 && !IsRed(x) && !IsRed(w)
    ensures Repaired(FixRightBlackSibling(c, iv, w, x), BlackOf(c) + BH(w), c == Red)
    ensures c == Red ==> !FixRightBlackSibling(c, iv, w, x).short
  {
    if !IsRed(LeftOf(w)) && !IsRed(RightOf(w)) {
      assert RB(Paint(w, Red));
    } else if !IsRed(w.left) {
      Case3RightRB(w);
      Case4RightRB(c, iv, RotateLeft(Node(Red, w.iv, w.max, w.left, Paint(w.right, Black))), x);
    } else {
      Case4RightRB(c, iv, w, x);
    }
  }

  /** One step of `delete_fixup` on a left child restores the red-black
      rules below the parent, or passes the extra black up from a black
      parent. */
  lemma FixLeftRB(c: Color, iv: Interval, x: Tree, w: Tree)
    requires RB(x) && RB(w) && BH(w) == BH(x) + 1 && !IsRed(x)
    requires c == Red ==> !IsRed(w)
    ensures Repaired(FixLeft(c, iv, x, w), BlackOf(c) + BH(w), c == Red)
  {
    if IsRed(w) {
      FixLeftBlackSiblingRB(Red, iv, x, w.left);
    } else {
      FixLeftBlackSiblingRB(c, iv, x, w);
    }
  }

  lemma FixRightRB(c: Color, iv: Interval, w: Tree, x: Tree)
    requires RB(x) && RB(w) && BH(w) == BH(x) + 1 && !IsRed(x)
    requires c == Red ==> !IsRed(w)
    ensures Repaired(FixRight(c, iv, w, x), BlackOf(c) + BH(w), c == Red)
  {
    if IsRed(w) {
      FixRightBlackSiblingRB(Red, iv, w.right, x);
    } else {
      FixRightBlackSiblingRB(c, iv, w, x);
    }
  }

  lemma JoinLeftRB(c: Color, iv: Interval, l: Removal, r: Tree, oldL: Tree)
    requires Repaired(l, BH(oldL), IsRed(oldL)) && RB(r) && BH(oldL) == BH(r)
    requires c == Red ==> !IsRed(oldL) && !IsRed(r)
    ensures Repaired(JoinLeft(c, iv, l, r), BlackOf(c) + BH(r), c == Red)
  {
    if l.short { FixLeftRB(c, iv, l.tree, r); }
  }

  lemma JoinRightRB(c: Color, iv: Interval, l: Tree, r: Removal, oldR: Tree)
    requires Repaired(r, BH(oldR), IsRed(oldR)) && RB(l) && BH(oldR) == BH(l)
    requires c == Red ==> !IsRed(oldR) && !IsRed(l)
    ensures Repaired(JoinRight(c, iv, l, r), BlackOf(c) + BH(l), c == Red)
  {
    if r.short { FixRightRB(c, iv, l, r.tree); }
  }

  /** Splicing out a node with at most one child. */
  lemma SpliceRB(t: Tree)
    requires RB(t) && t.Node? && (t.left.Empty? || t.right.Empty?)
    ensures Repaired(Absorb(if t.left.Node? then t.left else t.right, t.color == Black), BH(t), IsRed(t))
  {
    var x := if t.left.Node? then t.left else t.right;
    assert RB(x) && BH(x) == 0;
    if x.Node? {
      assert IsRed(x) && x.left.Empty? && x.right.Empty?;
    }
  }

  lemma {:induction false} DelMinRB(t: Tree)
    requires RB(t) && t.Node?
    ensures Repaired(DelMin(t).0, BH(t), IsRed(t))
  {
    if t.left.Empty? {
      SpliceRB(t);
    } else {
      DelMinRB(t.left);
      JoinLeftRB(t.color, t.iv, DelMin(t.left).0, t.right, t.left);
    }
  }

  lemma RemoveNodeRB(t: Tree)
    requires RB(t) && t.Node?
    ensures Repaired(RemoveNode(t), BH(t), IsRed(t))
  {
    if t.left.Empty? || t.right.Empty? {
      SpliceRB(t);
    } else {
      DelMinRB(t.right);
      var (r', m) := DelMin(t.right);
      JoinRightRB(t.color, m, t.left, r', t.right);
      assert RemoveNode(t) == ReplaceBySuccessor(t) == JoinRight(t.color, m, t.left, r');
    }
  }

  lemma {:induction false} DelKeyRB(t: Tree, k: int)
    requires RB(t)
    ensures Repaired(DelKey(t, k), BH(t), IsRed(t))
  {
    match t
    case Empty =>
    case Node(c, iv, _, l, r) =>
      assert RB(l) && RB(r) && BH(l) == BH(r) && BH(t) == BlackOf(c) + BH(l);
      if k == iv.low {
        RemoveNodeRB(t);
        assert DelKey(t, k) == RemoveNode(t);
      } else if k < iv.low {
        DelKeyRB(l, k);
        JoinLeftRB(c, iv, DelKey(l, k), r, l);
        assert DelKey(t, k) == DelKeyLeft(t, k) == JoinLeft(c, iv, DelKey(l, k), r);
      } else {
        DelKeyRB(r, k);
        JoinRightRB(c, iv, l, DelKey(r, k), r);
        assert DelKey(t, k) == DelKeyRight(t, k) == JoinRight(c, iv, l, DelKey(r, k));
      }
  }

  lemma {:induction false} DelAtRB(t: Tree, k: nat)
    requires RB(t)
    ensures Repaired(DelAt(t, k), BH(t), IsRed(t))
  {
    match t
    case Empty =>
    case Node(c, iv, _, l, r) =>
      assert RB(l) && RB(r) && BH(l) == BH(r) && BH(t) == BlackOf(c) + BH(l);
      if k < Size(l) {
        DelAtRB(l, k);
        JoinLeftRB(c, iv, DelAt(l, k), r, l);
        assert DelAt(t, k) == DelAtLeft(t, k) == JoinLeft(c, iv, DelAt(l, k), r);
      } else if k == Size(l) {
        RemoveNodeRB(t);
        assert DelAt(t, k) == RemoveNode(t);
      } else {
        DelAtRB(r, k - Size(l) - 1);
        JoinRightRB(c, iv, l, DelAt(r, k - Size(l) - 1), r);
        assert DelAt(t, k) == DelAtRight(t, k) == JoinRight(c, iv, l, DelAt(r, k - Size(l) - 1));
      }
  }
}

/** The public deletion operations keep the tree valid and remove what they
    promise to remove. */
module IntervalDeleteSpec {
  import opened Common
  import opened IntervalTree
  import opened IntervalDelete
  import opened IntervalDeleteProofs

  /** On an ordered tree the search of `delete` misses only when no stored
      interval has the low it looks for. */
  lemma {:induction false} SearchPosComplete(t: Tree, k: int)
    requires SortedByLow(Keys(t))
    ensures SearchPos(t, k).None? <==> forall x :: x in Keys(t) ==> x.low != k
  {
    match t
    case Empty =>
    case Node(_, iv, _, l, r) =>
      SortedSplit(t);
      SearchPosComplete(l, k);
      SearchPosComplete(r, k);
      if SearchPos(t, k).Some? {
        assert Keys(t)[SearchPos(t, k).value] in Keys(t);
      }
  }

  /** `delete(interval)` keeps the tree valid; it removes nothing when no
      stored interval has the argument's low, and otherwise exactly one
      interval with that low (whose high may differ from the argument's). */
  lemma DeleteValid(t: Tree, iv: Interval)
    requires Valid(t)
    ensures Valid(Delete(t, iv))
    ensures (forall x :: x in Keys(t) ==> x.low != iv.low) ==> Keys(Delete(t, iv)) == Keys(t)
    ensures (exists x :: x in Keys(t) && x.low == iv.low) ==>
      exists i :: 0 <= i < Size(t) && Keys(t)[i].low == iv.low
        && Keys(Delete(t, iv)) == Keys(t)[..i] + Keys(t)[i + 1..]
  {
    if t.Node? {
      DeleteKeys(t, iv.low);
      DelKeyRB(t, iv.low);
      var d := DelKey(t, iv.low).tree;
      assert Delete(t, iv) == d;
      assert RB(d) && !IsRed(d) && SortedByLow(Keys(d)) && MaxOk(d);
    }
  }

  /** What the search and splice of `delete` do to the in-order sequence,
      and that it stays ordered. */
  lemma DeleteKeys(t: Tree, k: int)
    requires SortedByLow(Keys(t))
    ensures SortedByLow(Keys(DelKey(t, k).tree))
    ensures (forall x :: x in Keys(t) ==> x.low != k) ==> Keys(DelKey(t, k).tree) == Keys(t)
    ensures (exists x :: x in Keys(t) && x.low == k) ==>
      exists i :: 0 <= i < Size(t) && Keys(t)[i].low == k
        && Keys(DelKey(t, k).tree) == Keys(t)[..i] + Keys(t)[i + 1..]
  {
    SearchPosComplete(t, k);
    match SearchPos(t, k)
    case None =>
    case Some(i) =>
      SortedCut(Keys(t), i);
      assert Keys(t)[i] in Keys(t);
      assert Keys(DelKey(t, k).tree) == Keys(t)[..i] + Keys(t)[i + 1..];
  }

  /** `delete_by_index(k)` keeps the tree valid; for `0 <= k < size` it
      removes exactly the interval the rank search finds at `k`, and is a
      no-op otherwise. */
  lemma DeleteByIndexValid(t: Tree, k: int)
    requires Valid(t)
    ensures Valid(DeleteByIndex(t, k))
    ensures 0 <= k < Size(t) ==>
      FindByIndex(t, k).0 == Some(Keys(t)[k])
      && Keys(DeleteByIndex(t, k)) == Keys(t)[..k] + Keys(t)[k + 1..]
    ensures !(0 <= k < Size(t)) ==> DeleteByIndex(t, k) == t
  {
    FindByIndexIsRank(t, k);
    if 0 <= k < Size(t) {
      DelAtRB(t, k);
      SortedCut(Keys(t), k);
    }
  }
}
