/** Bidirectional breadth-first search: one search grows from `start`
    (colours `Gray1`/`Black1`), the other from `end` (`Gray2`/`Black2`),
    alternating one whole level at a time, until a vertex being expanded on
    one side has a neighbour still gray on the other; the path is the walk
    back to `start` from that edge's near end, reversed, followed by the
    walk from its far end to `end`.  The graph is the undirected one the
    loader builds, so every edge runs both ways. */
module BfsBidirectional {
  import opened Csr
  import opened SearchTree

  function GrayOf(side: Side): Color
  {
    if side == Forward then Gray1 else Gray2
  }

  function BlackOf(side: Side): Color
  {
    if side == Forward then Black1 else Black2
  }

  function Other(side: Side): Side
  {
    if side == Forward then Backward else Forward
  }

  /** A side's queue holds exactly its gray vertices other than `cur`,
      each once. */
  predicate QueueOk(g: Graph, color: seq<Color>, X: seq<int>, gray: Color, cur: int)
  {
    (forall i :: 0 <= i < |X| ==> 0 <= X[i] < |g.rowStart| && 0 <= X[i] < |color|
                                   && color[X[i]] == gray && X[i] != cur)
    && (forall i, j :: 0 <= i < j < |X| ==> X[i] != X[j])
    && (forall v :: 0 <= v < |color| && color[v] == gray ==> v in X || v == cur)
  }

  /** Every expanded vertex of a side has all its neighbours on that
      side. */
  predicate Closure(g: Graph, color: seq<Color>, side: Side)
    requires GraphOk(g) && |color| == |g.rowStart|
  {
    forall u, k :: 0 <= u < |g.rowStart| && color[u] == BlackOf(side) && 0 <= k < |Neighbours(g, u)|
      ==> Marked(color[Neighbours(g, u)[k]], side)
  }

  /** What holds between levels, and inside the expansion of `cur`. */
  predicate BiState(g: Graph, start: int, end: int, color: seq<Color>, pre: seq<int>,
                    depth: seq<nat>, P: seq<int>, Q: seq<int>, cur: int,
                    success: bool, b1: int, b2: int)
    requires GraphOk(g)
  {
    var n := |g.rowStart|;
    Symmetric(g)
    && Links(g, Forward, start, color, pre, depth)
    && Links(g, Backward, end, color, pre, depth)
    && start != end
    && (forall v :: 0 <= v < n ==> color[v] in {White, Gray1, Black1, Gray2, Black2})
    && QueueOk(g, color, P, Gray1, cur) && QueueOk(g, color, Q, Gray2, cur)
    && (success ==> 0 <= b1 < n && 0 <= b2 < n && Marked(color[b1], Forward)
                    && Marked(color[b2], Backward) && Adjacent(g, b1, b2))
    && (!success ==> Closure(g, color, Forward) && Closure(g, color, Backward))
  }

  function Measure(color: seq<Color>, P: seq<int>, Q: seq<int>): nat
  {
    2 * WhiteCount(color) + |P| + |Q|
  }

  /** Popping the head of a queue makes it the vertex being expanded. */
  lemma QueuePop(g: Graph, color: seq<Color>, X: seq<int>, gray: Color)
    requires QueueOk(g, color, X, gray, -1) && |X| > 0
    ensures QueueOk(g, color, X[1..], gray, X[0]) && color[X[0]] == gray
  {
    forall i | 0 <= i < |X| - 1 ensures X[1..][i] != X[0] {
      assert X[1..][i] == X[i + 1];
    }
  }

  /** A queue is unaffected by expanding a vertex of another colour. */
  lemma QueueAside(g: Graph, color: seq<Color>, X: seq<int>, gray: Color, s: int)
    requires QueueOk(g, color, X, gray, -1) && 0 <= s < |color| && color[s] != gray
    ensures QueueOk(g, color, X, gray, s)
  {
  }

  /** A neighbour of a vertex on one side is never an expanded vertex of
      the other side, whose neighbours all lie on that other side. */
  lemma NotExpandedByOther(g: Graph, color: seq<Color>, side: Side, s: int, v: int)
    requires GraphOk(g) && Symmetric(g) && |color| == |g.rowStart| && side != Single
    requires Closure(g, color, Other(side))
    requires 0 <= s < |g.rowStart| && 0 <= v < |g.rowStart| && Adjacent(g, s, v)
    requires color[s] == GrayOf(side)
    ensures color[v] != BlackOf(Other(side))
  {
    assert Adjacent(g, v, s);
    var k :| 0 <= k < |Neighbours(g, v)| && Neighbours(g, v)[k] == s;
  }

  /** Meeting a vertex gray on the other side gives the meeting edge. */
  lemma MeetState(g: Graph, start: int, end: int, color: seq<Color>, pre: seq<int>,
                  depth: seq<nat>, P: seq<int>, Q: seq<int>, side: Side, s: int, v: int)
    requires GraphOk(g) && side != Single && 0 <= s < |g.rowStart| && 0 <= v < |g.rowStart|
    requires BiState(g, start, end, color, pre, depth, P, Q, s, false, -1, -1)
    requires color[s] == GrayOf(side) && color[v] == GrayOf(Other(side)) && Adjacent(g, s, v)
    ensures side == Forward ==> BiState(g, start, end, color, pre, depth, P, Q, s, true, s, v)
    ensures side == Backward ==> BiState(g, start, end, color, pre, depth, P, Q, s, true, v, s)
  {
    assert Adjacent(g, v, s);
  }

  /** Discovering an undiscovered vertex keeps a queue that it joins. */
  lemma QueueJoin(g: Graph, color: seq<Color>, X: seq<int>, gray: Color, cur: int, v: int)
    requires QueueOk(g, color, X, gray, cur) && 0 <= v < |g.rowStart| && 0 <= v < |color|
    requires color[v] == White && v != cur && gray != White
    ensures QueueOk(g, color[v := gray], X + [v], gray, cur)
  {
  }

  /** Recolouring a vertex that is not gray, and stays so, keeps a queue. */
  lemma QueueKeep(g: Graph, color: seq<Color>, X: seq<int>, gray: Color, cur: int, v: int, c: Color)
    requires QueueOk(g, color, X, gray, cur) && 0 <= v < |color|
    requires color[v] != gray && c != gray
    ensures QueueOk(g, color[v := c], X, gray, cur)
  {
  }

  /** Blackening the vertex under expansion keeps the queue without it. */
  lemma QueueRetire(g: Graph, color: seq<Color>, X: seq<int>, gray: Color, s: int, c: Color)
    requires QueueOk(g, color, X, gray, s) && 0 <= s < |color| && c != gray
    ensures QueueOk(g, color[s := c], X, gray, -1)
  {
  }

  /** A recolouring that only adds to a side keeps that side closed, as
      long as a vertex it blackens has all its neighbours on the side. */
  lemma ClosureGrow(g: Graph, color: seq<Color>, side: Side, s: int, c: Color)
    requires GraphOk(g) && |color| == |g.rowStart| && 0 <= s < |color|
    requires Closure(g, color, side)
    requires Marked(color[s], side) ==> Marked(c, side)
    requires c == BlackOf(side) && color[s] != BlackOf(side) ==>
               forall k :: 0 <= k < |Neighbours(g, s)| ==> Marked(color[Neighbours(g, s)[k]], side)
    ensures Closure(g, color[s := c], side)
  {
    var color' := color[s := c];
    forall u, k | 0 <= u < |g.rowStart| && color'[u] == BlackOf(side) && 0 <= k < |Neighbours(g, u)|
      ensures Marked(color'[Neighbours(g, u)[k]], side)
    {
      var w := Neighbours(g, u)[k];
      assert Marked(color[w], side);
    }
  }

  /** Discovering the undiscovered neighbour `v` of `s` on the side of `s`
      keeps the state, with `v` queued on that side. */
  lemma DiscoverState(g: Graph, start: int, end: int, color: seq<Color>, pre: seq<int>,
                      depth: seq<nat>, P: seq<int>, Q: seq<int>, side: Side, s: int, v: int)
    requires GraphOk(g) && side != Single && 0 <= s < |g.rowStart| && 0 <= v < |g.rowStart|
    requires BiState(g, start, end, color, pre, depth, P, Q, s, false, -1, -1)
    requires color[s] == GrayOf(side) && color[v] == White && Adjacent(g, s, v)
    ensures side == Forward ==>
      BiState(g, start, end, color[v := Gray1], pre[v := s], depth[v := depth[s] + 1], P + [v], Q, s, false, -1, -1)
    ensures side == Backward ==>
      BiState(g, start, end, color[v := Gray2], pre[v := s], depth[v := depth[s] + 1], P, Q + [v], s, false, -1, -1)
  {
    var c := GrayOf(side);
    var color', pre', depth' := color[v := c], pre[v := s], depth[v := depth[s] + 1];
    LinksDiscover(g, side, if side == Forward then start else end, color, pre, depth, v, s, c);
    LinksOther(g, Other(side), if side == Forward then end else start, color, pre, depth,
               v, c, s, depth[s] + 1);
    assert Links(g, Forward, start, color', pre', depth') && Links(g, Backward, end, color', pre', depth');
    ClosureGrow(g, color, Forward, v, c);
    ClosureGrow(g, color, Backward, v, c);
    assert forall u :: 0 <= u < |g.rowStart| ==> color'[u] in {White, Gray1, Black1, Gray2, Black2};
    if side == Forward {
      QueueJoin(g, color, P, Gray1, s, v);
      QueueKeep(g, color, Q, Gray2, s, v, c);
    } else {
      QueueKeep(g, color, P, Gray1, s, v, c);
      QueueJoin(g, color, Q, Gray2, s, v);
    }
  }

  /** Blackening `s` once its neighbour loop is done keeps the state
      between iterations. */
  lemma RetireState(g: Graph, start: int, end: int, color: seq<Color>, pre: seq<int>,
                    depth: seq<nat>, P: seq<int>, Q: seq<int>, side: Side, s: int,
                    success: bool, b1: int, b2: int)
    requires GraphOk(g) && side != Single && 0 <= s < |g.rowStart|
    requires BiState(g, start, end, color, pre, depth, P, Q, s, success, b1, b2)
    requires color[s] == GrayOf(side)
    requires !success ==> forall k :: 0 <= k < |Neighbours(g, s)| ==> Marked(color[Neighbours(g, s)[k]], side)
    ensures BiState(g, start, end, color[s := BlackOf(side)], pre, depth, P, Q, -1, success, b1, b2)
  {
    var c := BlackOf(side);
    LinksRecolour(g, side, if side == Forward then start else end, color, pre, depth, s, c);
    LinksOther(g, Other(side), if side == Forward then end else start, color, pre, depth,
               s, c, pre[s], depth[s]);
    assert pre[s := pre[s]] == pre && depth[s := depth[s]] == depth;
    QueueRetire(g, color, P, Gray1, s, c);
    QueueRetire(g, color, Q, Gray2, s, c);
    if !success {
      ClosureGrow(g, color, Forward, s, c);
      ClosureGrow(g, color, Backward, s, c);
    }
  }

  /** An undiscovered neighbour `nb[j]` of `s` joins side `side`, one level
      deeper than `s`, with `s` as predecessor, at the back of the side's
      queue. */
  method Discover(g: Graph, start: int, end: int, color0: seq<Color>, pre0: seq<int>,
                  depth0: seq<nat>, P0: seq<int>, Q0: seq<int>, side: Side, s: int,
                  nb: seq<int>, j: nat)
    returns (color: seq<Color>, pre: seq<int>, depth: seq<nat>, P: seq<int>, Q: seq<int>)
    requires GraphOk(g) && side != Single && 0 <= s < |g.rowStart|
    requires nb == Neighbours(g, s) && j < |nb|
    requires BiState(g, start, end, color0, pre0, depth0, P0, Q0, s, false, -1, -1)
    requires color0[s] == GrayOf(side) && color0[nb[j]] == White
    requires forall k :: 0 <= k < j ==> Marked(color0[nb[k]], side)
    ensures BiState(g, start, end, color, pre, depth, P, Q, s, false, -1, -1)
    ensures color[s] == GrayOf(side)
    ensures forall k :: 0 <= k <= j ==> Marked(color[nb[k]], side)
    ensures Measure(color, P, Q) < Measure(color0, P0, Q0)
    ensures side == Forward ==> P == P0 + [nb[j]] && Q == Q0
    ensures side == Backward ==> Q == Q0 + [nb[j]] && P == P0
  {
    var v := nb[j];
    DiscoverState(g, start, end, color0, pre0, depth0, P0, Q0, side, s, v);
    Recolour(color0, v, GrayOf(side));
    assert forall k :: 0 <= k < j ==> nb[k] != v;
    color := color0[v := GrayOf(side)];
    depth := depth0[v := depth0[s] + 1];
    pre := pre0[v := s];
    P, Q := P0, Q0;
    if side == Forward {
      P := P + [v];
    } else {
      Q := Q + [v];
    }
  }

  /** One pass of the neighbour loop for the vertex `s` of side `side`: a
      neighbour `v` gray on the other side is the meeting edge; an
      undiscovered one joins `side`, one level deeper than `s`, with `s` as
      predecessor. */
  method Consider(g: Graph, start: int, end: int, color0: seq<Color>, pre0: seq<int>,
                  depth0: seq<nat>, P0: seq<int>, Q0: seq<int>, side: Side, s: int,
                  nb: seq<int>, j: nat)
    returns (color: seq<Color>, pre: seq<int>, depth: seq<nat>, P: seq<int>, Q: seq<int>,
             success: bool, b1: int, b2: int)
    requires GraphOk(g) && side != Single && 0 <= s < |g.rowStart|
    requires nb == Neighbours(g, s) && j < |nb|
    requires BiState(g, start, end, color0, pre0, depth0, P0, Q0, s, false, -1, -1)
    requires color0[s] == GrayOf(side)
    requires forall k :: 0 <= k < j ==> Marked(color0[nb[k]], side)
    ensures BiState(g, start, end, color, pre, depth, P, Q, s, success, b1, b2)
    ensures color[s] == GrayOf(side)
    ensures !success ==> forall k :: 0 <= k <= j ==> Marked(color[nb[k]], side)
    ensures Measure(color, P, Q) <= Measure(color0, P0, Q0)
    ensures |P| >= |P0| && |Q| >= |Q0|
  {
    color, pre, depth, P, Q, success, b1, b2 := color0, pre0, depth0, P0, Q0, false, -1, -1;
    var v := nb[j];
    NotExpandedByOther(g, color, side, s, v);
    if color[v] == GrayOf(Other(side)) {
      if side == Forward {
        b1, b2 := s, v;
      } else {
        b1, b2 := v, s;
      }
      success := true;
      MeetState(g, start, end, color, pre, depth, P, Q, side, s, v);
    } else if color[v] == White {
      color, pre, depth, P, Q := Discover(g, start, end, color, pre, depth, P, Q, side, s, nb, j);
    } else {
      assert Marked(color[v], side);
    }
  }

  /** The neighbour loop for the vertex `s` of side `side`, stopping at the
      first meeting edge. */
  method Expand(g: Graph, start: int, end: int, color0: seq<Color>, pre0: seq<int>,
                depth0: seq<nat>, P0: seq<int>, Q0: seq<int>, side: Side, s: int)
    returns (color: seq<Color>, pre: seq<int>, depth: seq<nat>, P: seq<int>, Q: seq<int>,
             success: bool, b1: int, b2: int)
    requires GraphOk(g) && side != Single && 0 <= s < |g.rowStart|
    requires BiState(g, start, end, color0, pre0, depth0, P0, Q0, s, false, -1, -1)
    requires color0[s] == GrayOf(side)
    ensures BiState(g, start, end, color, pre, depth, P, Q, s, success, b1, b2)
    ensures color[s] == GrayOf(side)
    ensures !success ==> forall k :: 0 <= k < |Neighbours(g, s)| ==> Marked(color[Neighbours(g, s)[k]], side)
    ensures Measure(color, P, Q) <= Measure(color0, P0, Q0)
    ensures |P| >= |P0| && |Q| >= |Q0|
  {
    color, pre, depth, P, Q, success, b1, b2 := color0, pre0, depth0, P0, Q0, false, -1, -1;
    var nb := Neighbours(g, s);
    var j := 0;
    while j < |nb| && !success
      invariant 0 <= j <= |nb|
      invariant BiState(g, start, end, color, pre, depth, P, Q, s, success, b1, b2)
      invariant color[s] == GrayOf(side)
      invariant !success ==> forall k :: 0 <= k < j ==> Marked(color[nb[k]], side)
      invariant Measure(color, P, Q) <= Measure(color0, P0, Q0)
      invariant |P| >= |P0| && |Q| >= |Q0|
    {
      color, pre, depth, P, Q, success, b1, b2 :=
        Consider(g, start, end, color, pre, depth, P, Q, side, s, nb, j);
      j := j + 1;
    }
  }

  /** One iteration of a level: pop the head of the side's queue, expand
      it, and blacken it. */
  method Visit(g: Graph, start: int, end: int, color0: seq<Color>, pre0: seq<int>,
               depth0: seq<nat>, P0: seq<int>, Q0: seq<int>, side: Side)
    returns (color: seq<Color>, pre: seq<int>, depth: seq<nat>, P: seq<int>, Q: seq<int>,
             success: bool, b1: int, b2: int)
    requires GraphOk(g) && side != Single
    requires BiState(g, start, end, color0, pre0, depth0, P0, Q0, -1, false, -1, -1)
    requires side == Forward ==> |P0| > 0
    requires side == Backward ==> |Q0| > 0
    ensures BiState(g, start, end, color, pre, depth, P, Q, -1, success, b1, b2)
    ensures Measure(color, P, Q) < Measure(color0, P0, Q0)
    ensures side == Forward ==> |P| >= |P0| - 1
    ensures side == Backward ==> |Q| >= |Q0| - 1
  {
    var s;
    P, Q := P0, Q0;
    if side == Forward {
      s := P[0];
      P := P[1..];
      QueuePop(g, color0, P0, Gray1);
      QueueAside(g, color0, Q0, Gray2, s);
    } else {
      s := Q[0];
      Q := Q[1..];
      QueuePop(g, color0, Q0, Gray2);
      QueueAside(g, color0, P0, Gray1, s);
    }
    assert BiState(g, start, end, color0, pre0, depth0, P, Q, s, false, -1, -1);
    color, pre, depth, P, Q, success, b1, b2 := Expand(g, start, end, color0, pre0, depth0, P, Q, side, s);
    Recolour(color, s, BlackOf(side));
    RetireState(g, start, end, color, pre, depth, P, Q, side, s, success, b1, b2);
    color := color[s := BlackOf(side)];
  }

  /** One level of one side: `for _ in range(len(X))` visits that many
      vertices of the side's queue `X`, stopping at a meeting edge. */
  method Level(g: Graph, start: int, end: int, color0: seq<Color>, pre0: seq<int>,
               depth0: seq<nat>, P0: seq<int>, Q0: seq<int>, side: Side)
    returns (color: seq<Color>, pre: seq<int>, depth: seq<nat>, P: seq<int>, Q: seq<int>,
             success: bool, b1: int, b2: int)
    requires GraphOk(g) && side != Single
    requires BiState(g, start, end, color0, pre0, depth0, P0, Q0, -1, false, -1, -1)
    ensures BiState(g, start, end, color, pre, depth, P, Q, -1, success, b1, b2)
    ensures Measure(color, P, Q) <= Measure(color0, P0, Q0)
    ensures side == Forward && |P0| > 0 ==> Measure(color, P, Q) < Measure(color0, P0, Q0)
    ensures side == Backward && |Q0| > 0 ==> Measure(color, P, Q) < Measure(color0, P0, Q0)
    ensures side == Forward && |P0| == 0 ==> !success && Q == Q0
    ensures side == Backward && |Q0| == 0 ==> !success && P == P0
  {
    color, pre, depth, P, Q, success, b1, b2 := color0, pre0, depth0, P0, Q0, false, -1, -1;
    var count := if side == Forward then |P| else |Q|;
    var i := 0;
    while i < count && !success
      invariant 0 <= i <= count
      invariant side == Forward ==> count - i <= |P|
      invariant side == Backward ==> count - i <= |Q|
      invariant BiState(g, start, end, color, pre, depth, P, Q, -1, success, b1, b2)
      invariant Measure(color, P, Q) + i <= Measure(color0, P0, Q0)
      invariant i == 0 ==> !success && P == P0 && Q == Q0
    {
      color, pre, depth, P, Q, success, b1, b2 := Visit(g, start, end, color, pre, depth, P, Q, side);
      i := i + 1;
    }
  }

  /** When both queues run dry without a meeting edge, the side of `start`
      is closed under edges and misses `end`. */
  lemma Exhausted(g: Graph, start: int, end: int, color: seq<Color>, pre: seq<int>, depth: seq<nat>)
    requires GraphOk(g) && BiState(g, start, end, color, pre, depth, [], [], -1, false, -1, -1)
    ensures forall p :: !IsPath(g, p, start, end)
  {
    var n := |g.rowStart|;
    var S := set v | 0 <= v < n && Marked(color[v], Forward);
    forall u, k | u in S && 0 <= u < n && 0 <= k < |Neighbours(g, u)| ensures Neighbours(g, u)[k] in S {
      assert color[u] == Black1;
    }
    forall p ensures !IsPath(g, p, start, end) {
      ClosedSetSeparates(g, S, p, start, end);
    }
  }

  /** The state before the first level: each side holds its root only. */
  lemma InitialState(g: Graph, start: int, end: int, color: seq<Color>, pre: seq<int>, depth: seq<nat>)
    requires GraphOk(g) && Symmetric(g) && 0 <= start < |g.rowStart| && 0 <= end < |g.rowStart|
    requires start != end
    requires color == seq(|g.rowStart|, _ => White)[start := Gray1][end := Gray2]
    requires pre == seq(|g.rowStart|, _ => -1) && depth == seq(|g.rowStart|, _ => 0)
    ensures BiState(g, start, end, color, pre, depth, [start], [end], -1, false, -1, -1)
  {
    var n := |g.rowStart|;
    assert forall v :: 0 <= v < n ==> color[v] in {White, Gray1, Gray2};
    forall u | 0 <= u < n ensures LinkOk(g, Forward, start, color, pre, depth, u) {}
    forall u | 0 <= u < n ensures LinkOk(g, Backward, end, color, pre, depth, u) {}
    assert QueueOk(g, color, [start], Gray1, -1);
    assert QueueOk(g, color, [end], Gray2, -1);
    assert Closure(g, color, Forward) && Closure(g, color, Backward);
  }

  /** `BFS_bidirectional(start, end)`: `[start]` when the two coincide;
      otherwise a path from `start` to `end` along edges, or `[]` exactly
      when no such path exists. */
  method BfsBidirectionalPath(g: Graph, start: int, end: int) returns (path: seq<int>)
    requires GraphOk(g) && Symmetric(g)
    requires 0 <= start < |g.rowStart| && 0 <= end < |g.rowStart|
    ensures start == end ==> path == [start]
    ensures path != [] ==> IsPath(g, path, start, end)
    ensures path == [] <==> forall p :: !IsPath(g, p, start, end)
  {
    if start == end {
      assert IsPath(g, [start], start, end);
      return [start];
    }
    var n := |g.rowStart|;
    var color := seq(n, _ => White)[start := Gray1][end := Gray2];
    var pre := seq(n, _ => -1);
    var depth: seq<nat> := seq(n, _ => 0);
    var P := [start];
    var Q := [end];
    InitialState(g, start, end, color, pre, depth);
    var b1, b2 := -1, -1;
    var success := false;
    while (|P| != 0 || |Q| != 0) && !success
      invariant BiState(g, start, end, color, pre, depth, P, Q, -1, success, b1, b2)
      decreases Measure(color, P, Q)
    {
      ghost var before := Measure(color, P, Q);
      ghost var forwardEmpty := |P| == 0;
      color, pre, depth, P, Q, success, b1, b2 := Level(g, start, end, color, pre, depth, P, Q, Forward);
      assert forwardEmpty ==> !success && |Q| != 0 && Measure(color, P, Q) <= before;
      if !success {
        color, pre, depth, P, Q, success, b1, b2 := Level(g, start, end, color, pre, depth, P, Q, Backward);
      }
    }
    if success {
      var chain1 := WalkBack(g, Forward, start, color, pre, depth, b1);
      var chain2 := WalkBack(g, Backward, end, color, pre, depth, b2);
      ReverseBackChain(g, chain1, start, b1);
      BackChainForward(g, chain2);
      JoinPaths(g, Reverse(chain1), chain2, start, b1, b2, end);
      path := Reverse(chain1) + chain2;
    } else {
      Exhausted(g, start, end, color, pre, depth);
      path := [];
    }
  }
}
