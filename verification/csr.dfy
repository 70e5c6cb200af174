/** The compressed sparse row form of the undirected graph: `rowStart[i]` is
    where vertex `i`'s neighbour list begins in `col`, and `col` holds the
    column indices of every `True` entry of the adjacency matrix, row by
    row.  Vertices are their indices `0 .. n - 1`. */
module Csr {
  import opened Common

  datatype Graph = Graph(rowStart: seq<int>, col: seq<int>)

  /** The column indices of the `True` entries of a matrix row, ascending. */
  function Ones(row: seq<bool>): (r: seq<int>)
    ensures |r| <= |row|
  {
    if |row| == 0 then []
    else Ones(row[..|row| - 1]) + (if row[|row| - 1] then [|row| - 1] else [])
  }

  /** `Ones` lists exactly the `True` columns, in strictly ascending
      order. */
  lemma {:induction false} OnesExact(row: seq<bool>)
    ensures forall k :: 0 <= k < |Ones(row)| ==> 0 <= Ones(row)[k] < |row| && row[Ones(row)[k]]
    ensures forall j :: 0 <= j < |row| ==> (row[j] <==> j in Ones(row))
    ensures forall a, b :: 0 <= a < b < |Ones(row)| ==> Ones(row)[a] < Ones(row)[b]
  {
    if |row| > 0 {
      var row' := row[..|row| - 1];
      OnesExact(row');
      assert forall j :: 0 <= j < |row'| ==> row'[j] == row[j];
    }
  }

  /** The neighbour lists of rows `0 .. i - 1`, one after another. */
  function Flatten(adj: seq<seq<bool>>, i: nat): seq<int>
    requires i <= |adj|
  {
    if i == 0 then [] else Flatten(adj, i - 1) + Ones(adj[i - 1])
  }

  lemma {:induction false} FlattenPrefix(adj: seq<seq<bool>>, i: nat, k: nat)
    requires i <= k <= |adj|
    ensures |Flatten(adj, i)| <= |Flatten(adj, k)|
    ensures Flatten(adj, k)[..|Flatten(adj, i)|] == Flatten(adj, i)
    decreases k - i
  {
    if i < k {
      FlattenPrefix(adj, i + 1, k);
      var f, g := Flatten(adj, i), Flatten(adj, i + 1);
      assert g[..|f|] == f;
      assert Flatten(adj, k)[..|f|] == Flatten(adj, k)[..|g|][..|f|];
    }
  }

  lemma {:induction false} OnesPrefix(row: seq<bool>, j: nat)
    requires j <= |row|
    ensures |Ones(row[..j])| <= |Ones(row)|
    decreases |row| - j
  {
    if j < |row| {
      OnesPrefix(row, j + 1);
      assert row[..j + 1][..j] == row[..j];
    } else {
      assert row[..j] == row;
    }
  }

  /** `g` is the compression of `adj`. */
  predicate Represents(g: Graph, adj: seq<seq<bool>>)
  {
    |g.rowStart| == |adj|
    && g.col == Flatten(adj, |adj|)
    && forall i :: 0 <= i < |adj| ==> g.rowStart[i] == |Flatten(adj, i)|
  }

  predicate Square(adj: seq<seq<bool>>)
  {
    forall i :: 0 <= i < |adj| ==> |adj[i]| == |adj|
  }

  /** The inner loop of the compression for row `i`: its `True` columns
      are written after the earlier rows' ones, and writing past the end
      of `col` fails because the matrix then has more than `edgeNum`
      `True` entries. */
  method CompressRow(adj: seq<seq<bool>>, edgeNum: nat, i: nat, col0: seq<int>, e0: nat)
    returns (col: seq<int>, e: nat, ok: bool)
    requires Square(adj) && i < |adj| && |col0| == edgeNum
    requires e0 == |Flatten(adj, i)| <= edgeNum && col0[..e0] == Flatten(adj, i)
    ensures |col| == edgeNum
    ensures ok ==> e == |Flatten(adj, i + 1)| <= edgeNum && col[..e] == Flatten(adj, i + 1)
    ensures !ok ==> |Flatten(adj, |adj|)| > edgeNum
  {
    var n := |adj|;
    col, e := col0, e0;
    for j := 0 to n
      invariant |col| == edgeNum
      invariant e == |Flatten(adj, i)| + |Ones(adj[i][..j])| <= edgeNum
      invariant col[..e] == Flatten(adj, i) + Ones(adj[i][..j])
    {
      assert adj[i][..j + 1][..j] == adj[i][..j];
      assert Ones(adj[i][..j + 1]) == Ones(adj[i][..j]) + (if adj[i][j] then [j] else []);
      if adj[i][j] {
        if e >= edgeNum {
          OnesPrefix(adj[i], j + 1);
          FlattenPrefix(adj, i + 1, n);
          return col, e, false;
        }
        assert col[e := j][..e + 1] == col[..e] + [j];
        col := col[e := j];
        e := e + 1;
      }
    }
    assert adj[i][..n] == adj[i];
    ok := true;
  }

  /** The compression loop of `load_from_file`: `col_offset` is allocated
      with `edgeNum` slots and filled row by row; writing past its end
      fails, and so does the closing check that every slot was used. */
  method Compress(adj: seq<seq<bool>>, edgeNum: nat) returns (r: Option<Graph>)
    requires Square(adj)
    ensures r.Some? <==> |Flatten(adj, |adj|)| == edgeNum
    ensures r.Some? ==> Represents(r.value, adj)
  {
    var n := |adj|;
    var rowStart := seq(n, _ => -1);
    var col := seq(edgeNum, _ => -1);
    var e := 0;
    for i := 0 to n
      invariant |rowStart| == n && |col| == edgeNum
      invariant e == |Flatten(adj, i)| <= edgeNum
      invariant col[..e] == Flatten(adj, i)
      invariant forall k :: 0 <= k < i ==> rowStart[k] == |Flatten(adj, k)|
    {
      rowStart := rowStart[i := e];
      var ok;
      col, e, ok := CompressRow(adj, edgeNum, i, col, e);
      if !ok {
        return None;
      }
    }
    if e != edgeNum {
      return None;
    }
    assert col == col[..e];
    return Some(Graph(rowStart, col));
  }

  /** The offsets are usable: within `col` and non-decreasing. */
  predicate OffsetsOk(g: Graph)
  {
    (forall i :: 0 <= i < |g.rowStart| ==> 0 <= g.rowStart[i] <= |g.col|)
    && (forall i, j :: 0 <= i < j < |g.rowStart| ==> g.rowStart[i] <= g.rowStart[j])
  }

  /** `get_adj_vertexes(v)`: the slice of `col` between the vertex's offset
      and the next one's; for the last vertex the slice runs to the end. */
  function Neighbours(g: Graph, v: nat): seq<int>
    requires OffsetsOk(g) && v < |g.rowStart|
  {
    if v == |g.rowStart| - 1 then g.col[g.rowStart[v]..]
    else g.col[g.rowStart[v]..g.rowStart[v + 1]]
  }

  /** A compression has usable offsets, and each vertex's neighbour slice
      is exactly its matrix row's `True` columns in ascending order. */
  lemma NeighboursAreRow(g: Graph, adj: seq<seq<bool>>, v: nat)
    requires Represents(g, adj) && v < |adj|
    ensures OffsetsOk(g)
    ensures Neighbours(g, v) == Ones(adj[v])
  {
    var n := |adj|;
    forall i | 0 <= i < n ensures 0 <= g.rowStart[i] <= |g.col| {
      FlattenPrefix(adj, i, n);
    }
    forall i, j | 0 <= i < j < n ensures g.rowStart[i] <= g.rowStart[j] {
      FlattenPrefix(adj, i, j);
    }
    FlattenPrefix(adj, v + 1, n);
    var f := Flatten(adj, v + 1);
    assert f == Flatten(adj, v) + Ones(adj[v]);
    assert f[|Flatten(adj, v)|..] == Ones(adj[v]);
    if v < n - 1 {
      assert g.col[g.rowStart[v]..g.rowStart[v + 1]] == g.col[..|f|][|Flatten(adj, v)|..];
    } else {
      assert g.col == f;
    }
  }

  /** Every vertex's neighbours are vertices. */
  predicate Closed(g: Graph)
    requires OffsetsOk(g)
  {
    forall v, k :: 0 <= v < |g.rowStart| && 0 <= k < |Neighbours(g, v)|
      ==> 0 <= Neighbours(g, v)[k] < |g.rowStart|
  }

  /** A usable graph: offsets within bounds, neighbours within the vertex
      range. */
  predicate GraphOk(g: Graph)
  {
    OffsetsOk(g) && Closed(g)
  }

  predicate Adjacent(g: Graph, u: nat, v: nat)
    requires GraphOk(g) && u < |g.rowStart|
  {
    v in Neighbours(g, u)
  }

  /** The graph a square adjacency matrix compresses to is usable, and its
      adjacency is the matrix's. */
  lemma CompressedGraphOk(g: Graph, adj: seq<seq<bool>>)
    requires Represents(g, adj) && Square(adj)
    ensures GraphOk(g)
    ensures forall u, v :: 0 <= u < |adj| && 0 <= v < |adj| ==> (Adjacent(g, u, v) <==> adj[u][v])
  {
    if |adj| > 0 { NeighboursAreRow(g, adj, 0); }
    forall v | 0 <= v < |adj|
      ensures Neighbours(g, v) == Ones(adj[v])
      ensures forall k :: 0 <= k < |Ones(adj[v])| ==> 0 <= Ones(adj[v])[k] < |adj|
      ensures forall j :: 0 <= j < |adj| ==> (adj[v][j] <==> j in Ones(adj[v]))
    {
      NeighboursAreRow(g, adj, v);
      OnesExact(adj[v]);
    }
  }

  /** `p` is a walk from `s` to `t` along edges. */
  predicate IsPath(g: Graph, p: seq<int>, s: int, t: int)
    requires GraphOk(g)
  {
    |p| > 0 && p[0] == s && p[|p| - 1] == t
    && (forall k :: 0 <= k < |p| ==> 0 <= p[k] < |g.rowStart|)
    && (forall k :: 0 <= k < |p| - 1 ==> Adjacent(g, p[k], p[k + 1]))
  }

  /** A set of vertices that holds `s`, is closed under edges and misses `t`
      separates them: no walk leads from `s` to `t`. */
  lemma {:induction false} ClosedSetSeparates(g: Graph, S: set<int>, p: seq<int>, s: int, t: int)
    requires GraphOk(g) && s in S && t !in S
    requires forall u, k :: u in S && 0 <= u < |g.rowStart| && 0 <= k < |Neighbours(g, u)| ==> Neighbours(g, u)[k] in S
    ensures !IsPath(g, p, s, t)
  {
    if IsPath(g, p, s, t) {
      var k := 0;
      while k < |p| - 1
        invariant 0 <= k < |p| && p[k] in S
      {
        var u := p[k];
        var i :| 0 <= i < |Neighbours(g, u)| && Neighbours(g, u)[i] == p[k + 1];
        k := k + 1;
      }
    }
  }
}
