/** The bookkeeping both breadth-first searches share: vertex colours, the
    predecessor links (`pre`, `-1` for none) with their depths, and the walk
    back along the links that turns them into a path. */
module SearchTree {
  import opened Csr

  /** The vertex colours: the one-sided search uses `White`, `Gray` and
      `Black`; the bidirectional one the numbered shades of its two
      sides. */
  datatype Color = White | Gray | Black | Black1 | Black2 | Gray1 | Gray2

  /** Which vertices a set of links covers: every discovered vertex of the
      one-sided search, or the vertices of one side of the bidirectional
      one. */
  datatype Side = Single | Forward | Backward

  predicate Marked(c: Color, side: Side)
  {
    match side
    case Single => c != White
    case Forward => c == Gray1 || c == Black1
    case Backward => c == Gray2 || c == Black2
  }

  /** The number of undiscovered vertices. */
  function WhiteCount(color: seq<Color>): nat
  {
    |set v | 0 <= v < |color| && color[v] == White|
  }

  /** Discovering a vertex removes it from the undiscovered ones;
      recolouring a discovered vertex changes nothing. */
  lemma Recolour(color: seq<Color>, v: int, c: Color)
    requires 0 <= v < |color| && c != White
    ensures color[v] == White ==> WhiteCount(color[v := c]) == WhiteCount(color) - 1
    ensures color[v] != White ==> WhiteCount(color[v := c]) == WhiteCount(color)
  {
    var A := set u | 0 <= u < |color| && color[u] == White;
    var color' := color[v := c];
    var B := set u | 0 <= u < |color'| && color'[u] == White;
    if color[v] == White {
      assert B == A - {v};
    } else {
      assert B == A;
    }
  }

  /** The reversal of a sequence. */
  function Reverse(s: seq<int>): (r: seq<int>)
    ensures |r| == |s|
    ensures forall k :: 0 <= k < |s| ==> r[k] == s[|s| - 1 - k]
  {
    if |s| == 0 then [] else Reverse(s[1..]) + [s[0]]
  }

  predicate StateSized(g: Graph, color: seq<Color>, pre: seq<int>, depth: seq<nat>)
  {
    |color| == |g.rowStart| && |pre| == |g.rowStart| && |depth| == |g.rowStart|
  }

  /** The link of one vertex: a marked vertex other than the root was
      discovered from a marked neighbour one level closer to the root. */
  predicate LinkOk(g: Graph, side: Side, root: int, color: seq<Color>, pre: seq<int>,
                   depth: seq<nat>, v: int)
    requires GraphOk(g) && StateSized(g, color, pre, depth) && 0 <= v < |g.rowStart|
  {
    v != root && Marked(color[v], side) ==>
      0 <= pre[v] < |g.rowStart| && Marked(color[pre[v]], side) && Adjacent(g, pre[v], v)
      && depth[v] == depth[pre[v]] + 1
  }

  /** The predecessor links of one search tree rooted at `root`; only the
      root has no predecessor. */
  predicate Links(g: Graph, side: Side, root: int, color: seq<Color>, pre: seq<int>, depth: seq<nat>)
    requires GraphOk(g)
  {
    StateSized(g, color, pre, depth) && 0 <= root < |g.rowStart|
    && Marked(color[root], side) && pre[root] == -1
    && forall v :: 0 <= v < |g.rowStart| ==> LinkOk(g, side, root, color, pre, depth, v)
  }

  /** Discovering the unmarked `v` from the marked neighbour `s` keeps the
      links. */
  lemma LinksDiscover(g: Graph, side: Side, root: int, color: seq<Color>, pre: seq<int>,
                      depth: seq<nat>, v: int, s: int, c: Color)
    requires GraphOk(g) && Links(g, side, root, color, pre, depth)
    requires 0 <= v < |g.rowStart| && !Marked(color[v], side) && Marked(c, side)
    requires 0 <= s < |g.rowStart| && Marked(color[s], side) && Adjacent(g, s, v)
    ensures Links(g, side, root, color[v := c], pre[v := s], depth[v := depth[s] + 1])
  {
    var color', pre', depth' := color[v := c], pre[v := s], depth[v := depth[s] + 1];
    forall u | 0 <= u < |g.rowStart| ensures LinkOk(g, side, root, color', pre', depth', u) {
      assert LinkOk(g, side, root, color, pre, depth, u);
    }
  }

  /** Changes to a vertex outside the tree leave the tree's links alone. */
  lemma LinksOther(g: Graph, side: Side, root: int, color: seq<Color>, pre: seq<int>,
                   depth: seq<nat>, v: int, c: Color, p: int, d: nat)
    requires GraphOk(g) && Links(g, side, root, color, pre, depth)
    requires 0 <= v < |g.rowStart| && !Marked(color[v], side) && !Marked(c, side)
    ensures Links(g, side, root, color[v := c], pre[v := p], depth[v := d])
  {
    var color', pre', depth' := color[v := c], pre[v := p], depth[v := d];
    forall u | 0 <= u < |g.rowStart| ensures LinkOk(g, side, root, color', pre', depth', u) {
      assert LinkOk(g, side, root, color, pre, depth, u);
    }
  }

  /** Recolouring a vertex within the tree keeps the links. */
  lemma LinksRecolour(g: Graph, side: Side, root: int, color: seq<Color>, pre: seq<int>,
                      depth: seq<nat>, v: int, c: Color)
    requires GraphOk(g) && Links(g, side, root, color, pre, depth)
    requires 0 <= v < |g.rowStart| && Marked(color[v], side) && Marked(c, side)
    ensures Links(g, side, root, color[v := c], pre, depth)
  {
    var color' := color[v := c];
    forall u | 0 <= u < |g.rowStart| ensures LinkOk(g, side, root, color', pre, depth, u) {
      assert LinkOk(g, side, root, color, pre, depth, u);
    }
  }

  /** A chain of vertices each reached by an edge from the next one. */
  predicate BackChain(g: Graph, chain: seq<int>)
    requires GraphOk(g)
  {
    (forall k :: 0 <= k < |chain| ==> 0 <= chain[k] < |g.rowStart|)
    && (forall k :: 0 <= k < |chain| - 1 ==> Adjacent(g, chain[k + 1], chain[k]))
  }

  lemma BackChainExtend(g: Graph, chain: seq<int>, s: int)
    requires GraphOk(g) && BackChain(g, chain) && |chain| > 0
    requires 0 <= s < |g.rowStart| && Adjacent(g, s, chain[|chain| - 1])
    ensures BackChain(g, chain + [s])
  {
    var c := chain + [s];
    forall k | 0 <= k < |c| - 1 ensures Adjacent(g, c[k + 1], c[k]) {
      if k < |chain| - 1 {
        assert c[k + 1] == chain[k + 1] && c[k] == chain[k];
      }
    }
  }

  lemma BackChainCons(g: Graph, x: int, chain: seq<int>)
    requires GraphOk(g) && BackChain(g, chain) && |chain| > 0
    requires 0 <= x < |g.rowStart| && Adjacent(g, chain[0], x)
    ensures BackChain(g, [x] + chain)
  {
    var c := [x] + chain;
    forall k | 0 <= k < |c| - 1 ensures Adjacent(g, c[k + 1], c[k]) {
      if k > 0 {
        assert c[k + 1] == chain[k] && c[k] == chain[k - 1];
      }
    }
  }

  /** Reversing a back chain from `t` to `s` gives a path from `s` to `t`. */
  lemma ReverseBackChain(g: Graph, chain: seq<int>, s: int, t: int)
    requires GraphOk(g) && BackChain(g, chain) && |chain| > 0
    requires chain[0] == t && chain[|chain| - 1] == s
    ensures IsPath(g, Reverse(chain), s, t)
  {
    var p := Reverse(chain);
    forall k | 0 <= k < |p| - 1 ensures Adjacent(g, p[k], p[k + 1]) {
      var j := |chain| - 2 - k;
      assert p[k] == chain[j + 1] && p[k + 1] == chain[j];
    }
  }

  /** The walk `while s is not None: chain.append(s); s = s.pre` from the
      marked vertex `x`: it reaches the root, each vertex reached by an
      edge from the next. */
  method WalkBack(g: Graph, side: Side, root: int, color: seq<Color>, pre: seq<int>,
                  depth: seq<nat>, x: int) returns (chain: seq<int>)
    requires GraphOk(g) && Links(g, side, root, color, pre, depth)
    requires 0 <= x < |g.rowStart| && Marked(color[x], side)
    ensures |chain| > 0 && chain[0] == x && chain[|chain| - 1] == root
    ensures BackChain(g, chain)
  {
    var n := |g.rowStart|;
    chain := [x];
    var s := pre[x];
    assert LinkOk(g, side, root, color, pre, depth, x);
    while s != -1
      invariant -1 <= s < n && |chain| > 0 && chain[0] == x
      invariant BackChain(g, chain)
      invariant s != -1 ==> Marked(color[s], side) && Adjacent(g, s, chain[|chain| - 1])
      invariant s == -1 ==> chain[|chain| - 1] == root
      decreases if s == -1 then 0 else depth[s] + 1
    {
      BackChainExtend(g, chain, s);
      chain := chain + [s];
      assert LinkOk(g, side, root, color, pre, depth, s);
      s := pre[s];
    }
  }

  /** Every edge can be walked both ways. */
  predicate Symmetric(g: Graph)
    requires GraphOk(g)
  {
    forall u, v :: 0 <= u < |g.rowStart| && 0 <= v < |g.rowStart| && Adjacent(g, u, v)
      ==> Adjacent(g, v, u)
  }

  /** In a symmetric graph a back chain is also a path in its own order. */
  lemma BackChainForward(g: Graph, chain: seq<int>)
    requires GraphOk(g) && Symmetric(g) && BackChain(g, chain) && |chain| > 0
    ensures IsPath(g, chain, chain[0], chain[|chain| - 1])
  {
  }

  /** Two paths joined by an edge. */
  lemma JoinPaths(g: Graph, p: seq<int>, q: seq<int>, s: int, b1: int, b2: int, t: int)
    requires GraphOk(g) && IsPath(g, p, s, b1) && IsPath(g, q, b2, t)
    requires Adjacent(g, b1, b2)
    ensures IsPath(g, p + q, s, t)
  {
    var r := p + q;
    forall k | 0 <= k < |r| - 1 ensures Adjacent(g, r[k], r[k + 1]) {
      if k < |p| - 1 {
        assert r[k] == p[k] && r[k + 1] == p[k + 1];
      } else if k >= |p| {
        assert r[k] == q[k - |p|] && r[k + 1] == q[k - |p| + 1];
      }
    }
  }
}
