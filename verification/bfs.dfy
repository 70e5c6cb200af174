/** Breadth-first search from `start` to `end` over the compressed graph.
    The search stops when a neighbour of the vertex being expanded is
    `end`, and the path is read back along the predecessors. */
module Bfs {
  import opened Csr
  import opened SearchTree

  /** What holds between iterations of the search loop, and inside the
      expansion of vertex `cur` (`-1` between iterations): the links, `end`
      still undiscovered, the queue holding exactly the gray vertices once
      each, and every black vertex's neighbours discovered. */
  predicate SearchState(g: Graph, start: int, end: int, color: seq<Color>, pre: seq<int>,
                        depth: seq<nat>, P: seq<int>, cur: int, success: bool)
    requires GraphOk(g)
  {
    var n := |g.rowStart|;
    Links(g, Single, start, color, pre, depth)
    && 0 <= end < n && end != start && color[end] == White
    && (success ==> 0 <= pre[end] < n && color[pre[end]] != White && Adjacent(g, pre[end], end))
    && (forall v :: 0 <= v < n ==> color[v] in {White, Gray, Black})
    && (forall i :: 0 <= i < |P| ==> 0 <= P[i] < n && color[P[i]] == Gray && P[i] != cur)
    && (forall i, j :: 0 <= i < j < |P| ==> P[i] != P[j])
    && (forall v :: 0 <= v < n && color[v] == Gray ==> v in P || v == cur)
    && (!success ==> forall u, k :: 0 <= u < n && color[u] == Black && 0 <= k < |Neighbours(g, u)|
                                    ==> color[Neighbours(g, u)[k]] != White)
  }

  /** An undiscovered neighbour `nb[j]` other than `end` turns gray, one
      level deeper than `s`, with `s` as its predecessor, and joins the
      queue; the neighbours before it stay discovered. */
  method Discover(g: Graph, start: int, end: int, color0: seq<Color>, pre0: seq<int>,
                  depth0: seq<nat>, P0: seq<int>, s: int, nb: seq<int>, j: nat)
    returns (color: seq<Color>, pre: seq<int>, depth: seq<nat>, P: seq<int>)
    requires GraphOk(g) && 0 <= s < |g.rowStart| && nb == Neighbours(g, s) && j < |nb|
    requires SearchState(g, start, end, color0, pre0, depth0, P0, s, false) && color0[s] == Gray
    requires nb[j] != end && color0[nb[j]] == White
    requires forall k :: 0 <= k < j ==> color0[nb[k]] != White
    ensures SearchState(g, start, end, color, pre, depth, P, s, false) && color[s] == Gray
    ensures forall k :: 0 <= k <= j ==> color[nb[k]] != White
    ensures P == P0 + [nb[j]]
    ensures 2 * WhiteCount(color) + |P| < 2 * WhiteCount(color0) + |P0|
  {
    var v := nb[j];
    Recolour(color0, v, Gray);
    DiscoverState(g, start, end, color0, pre0, depth0, P0, s, v);
    color := color0[v := Gray];
    assert forall k :: 0 <= k < j ==> color[nb[k]] != White;
    depth := depth0[v := depth0[s] + 1];
    pre := pre0[v := s];
    P := P0 + [v];
  }

  /** Discovering the undiscovered neighbour `v` of `s` keeps the search
      state. */
  lemma DiscoverState(g: Graph, start: int, end: int, color: seq<Color>, pre: seq<int>,
                      depth: seq<nat>, P: seq<int>, s: int, v: int)
    requires GraphOk(g) && 0 <= s < |g.rowStart| && 0 <= v < |g.rowStart| && Adjacent(g, s, v)
    requires SearchState(g, start, end, color, pre, depth, P, s, false) && color[s] == Gray
    requires v != end && color[v] == White
    ensures SearchState(g, start, end, color[v := Gray], pre[v := s], depth[v := depth[s] + 1],
                        P + [v], s, false)
  {
    var n := |g.rowStart|;
    var color', P' := color[v := Gray], P + [v];
    LinksDiscover(g, Single, start, color, pre, depth, v, s, Gray);
    assert v !in P;
    forall i | 0 <= i < |P'| ensures 0 <= P'[i] < n && color'[P'[i]] == Gray && P'[i] != s {
      if i < |P| { assert P'[i] == P[i]; }
    }
    forall i, j | 0 <= i < j < |P'| ensures P'[i] != P'[j] {
      if j < |P| { assert P'[i] == P[i] && P'[j] == P[j]; }
      else { assert P'[i] == P[i] && P'[i] in P; }
    }
    forall u | 0 <= u < n && color'[u] == Gray ensures u in P' || u == s {
      if u != v { assert color[u] == Gray; }
    }
    forall u, k | 0 <= u < n && color'[u] == Black && 0 <= k < |Neighbours(g, u)|
      ensures color'[Neighbours(g, u)[k]] != White
    {
      assert color[u] == Black;
    }
  }

  /** The neighbour loop after the pop of `s`: a neighbour that is `end`
      ends the search with `s` as its predecessor; an undiscovered one
      turns gray, one level deeper than `s`, with `s` as predecessor, and
      joins the queue. */
  method Expand(g: Graph, start: int, end: int, color0: seq<Color>, pre0: seq<int>,
                depth0: seq<nat>, P0: seq<int>, s: int)
    returns (color: seq<Color>, pre: seq<int>, depth: seq<nat>, P: seq<int>, success: bool)
    requires GraphOk(g) && 0 <= s < |g.rowStart|
    requires SearchState(g, start, end, color0, pre0, depth0, P0, s, false) && color0[s] == Gray
    ensures SearchState(g, start, end, color, pre, depth, P, s, success) && color[s] == Gray
    ensures !success ==> forall k :: 0 <= k < |Neighbours(g, s)| ==> color[Neighbours(g, s)[k]] != White
    ensures 2 * WhiteCount(color) + |P| <= 2 * WhiteCount(color0) + |P0|
  {
    color, pre, depth, P, success := color0, pre0, depth0, P0, false;
    var nb := Neighbours(g, s);
    var j := 0;
    while j < |nb| && !success
      invariant 0 <= j <= |nb|
      invariant SearchState(g, start, end, color, pre, depth, P, s, success)
      invariant color[s] == Gray
      invariant !success ==> forall k :: 0 <= k < j ==> color[nb[k]] != White
      invariant 2 * WhiteCount(color) + |P| <= 2 * WhiteCount(color0) + |P0|
    {
      var v := nb[j];
      if v == end {
        LinksOther(g, Single, start, color, pre, depth, v, color[v], s, depth[v]);
        assert color[v := color[v]] == color && depth[v := depth[v]] == depth;
        pre := pre[v := s];
        success := true;
      } else if color[v] == White {
        color, pre, depth, P := Discover(g, start, end, color, pre, depth, P, s, nb, j);
      }
      j := j + 1;
    }
  }

  /** One iteration of the search loop: pop the head of the queue, expand
      it, and blacken it. */
  method Step(g: Graph, start: int, end: int, color0: seq<Color>, pre0: seq<int>,
              depth0: seq<nat>, P0: seq<int>)
    returns (color: seq<Color>, pre: seq<int>, depth: seq<nat>, P: seq<int>, success: bool)
    requires GraphOk(g) && SearchState(g, start, end, color0, pre0, depth0, P0, -1, false) && |P0| > 0
    ensures SearchState(g, start, end, color, pre, depth, P, -1, success)
    ensures 2 * WhiteCount(color) + |P| < 2 * WhiteCount(color0) + |P0|
  {
    var s := P0[0];
    P := P0[1..];
    assert forall v :: 0 <= v < |g.rowStart| && color0[v] == Gray ==> v in P || v == s;
    color, pre, depth, P, success := Expand(g, start, end, color0, pre0, depth0, P, s);
    Recolour(color, s, Black);
    LinksRecolour(g, Single, start, color, pre, depth, s, Black);
    color := color[s := Black];
  }

  /** When the queue runs dry without reaching `end`, the discovered
      vertices are closed under edges, hold `start` and miss `end`. */
  lemma Exhausted(g: Graph, start: int, end: int, color: seq<Color>, pre: seq<int>, depth: seq<nat>)
    requires GraphOk(g) && SearchState(g, start, end, color, pre, depth, [], -1, false)
    ensures forall p :: !IsPath(g, p, start, end)
  {
    var n := |g.rowStart|;
    var S := set v | 0 <= v < n && color[v] != White;
    forall u, k | u in S && 0 <= u < n && 0 <= k < |Neighbours(g, u)| ensures Neighbours(g, u)[k] in S {
      assert color[u] == Black;
    }
    forall p ensures !IsPath(g, p, start, end) {
      ClosedSetSeparates(g, S, p, start, end);
    }
  }

  /** `BFS(start, end)`: `[start]` when the two coincide; otherwise a path
      from `start` to `end` along edges, or `[]` exactly when no such
      path exists. */
  method BfsPath(g: Graph, start: int, end: int) returns (path: seq<int>)
    requires GraphOk(g) && 0 <= start < |g.rowStart| && 0 <= end < |g.rowStart|
    ensures start == end ==> path == [start]
    ensures path != [] ==> IsPath(g, path, start, end)
    ensures path == [] <==> forall p :: !IsPath(g, p, start, end)
  {
    if start == end {
      assert IsPath(g, [start], start, end);
      return [start];
    }
    var n := |g.rowStart|;
    var color := seq(n, _ => White)[start := Gray];
    var pre := seq(n, _ => -1);
    var depth: seq<nat> := seq(n, _ => 0);
    assert Links(g, Single, start, color, pre, depth) by {
      forall u | 0 <= u < n ensures LinkOk(g, Single, start, color, pre, depth, u) {}
    }
    var P := [start];
    var success := false;
    while |P| != 0 && !success
      invariant SearchState(g, start, end, color, pre, depth, P, -1, success)
      decreases 2 * WhiteCount(color) + |P|
    {
      color, pre, depth, P, success := Step(g, start, end, color, pre, depth, P);
    }
    if success {
      var back := WalkBack(g, Single, start, color, pre, depth, pre[end]);
      BackChainCons(g, end, back);
      ReverseBackChain(g, [end] + back, start, end);
      path := Reverse([end] + back);
    } else {
      Exhausted(g, start, end, color, pre, depth);
      path := [];
    }
  }
}
