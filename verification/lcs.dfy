/** Longest common subsequence by dynamic programming: the length table `c`
    and the direction table `b`, filled row by row, and the recursive
    traceback `get_LCS` that reads one longest common subsequence back out
    of `b`. */
module Lcs {
  import opened Common

  /** The arrows stored in `b`. */
  datatype Direction = Left | Up | LeftUp

  /** `c[i][j]`: the recurrence over the prefixes `a[..i]` and `b[..j]`;
      on a tie between the cell above and the cell to the left the cell
      above is taken. */
  function C(a: string, b: string, i: nat, j: nat): nat
    requires i <= |a| && j <= |b|
    decreases i + j
  {
    if i == 0 || j == 0 then 0
    else if a[i - 1] == b[j - 1] then C(a, b, i - 1, j - 1) + 1
    else if C(a, b, i - 1, j) >= C(a, b, i, j - 1) then C(a, b, i - 1, j)
    else C(a, b, i, j - 1)
  }

  /** `b[i][j]`: unset (`None`) in row 0 and column 0, otherwise the arrow
      the fill loop records. */
  function Cell(a: string, b: string, i: nat, j: nat): Option<Direction>
    requires i <= |a| && j <= |b|
  {
    if i == 0 || j == 0 then None
    else if a[i - 1] == b[j - 1] then Some(LeftUp)
    else if C(a, b, i - 1, j) >= C(a, b, i, j - 1) then Some(Up)
    else Some(Left)
  }

  /** Rows `0..rows` of both tables hold the recurrence's values. */
  predicate TablesUpTo(s1: string, s2: string, c: seq<seq<int>>, b: seq<seq<Option<Direction>>>, rows: nat)
    requires rows <= |s1| + 1
  {
    |c| == rows && |b| == rows
    && (forall i :: 0 <= i < rows ==> |c[i]| == |s2| + 1 && |b[i]| == |s2| + 1)
    && (forall i, j :: 0 <= i < rows && 0 <= j <= |s2| ==> c[i][j] == C(s1, s2, i, j))
    && (forall i, j :: 0 <= i < rows && 0 <= j <= |s2| ==> b[i][j] == Cell(s1, s2, i, j))
  }

  /** Row `i >= 1` of both tables from row `i - 1` of `c`: column 0 is
      zero, a match extends the diagonal, otherwise the larger of the cells
      above and to the left is copied (ties to `Up`). */
  method FillRow(s1: string, s2: string, above: seq<int>, i: nat)
    returns (crow: seq<int>, brow: seq<Option<Direction>>)
    requires 1 <= i <= |s1| && |above| == |s2| + 1
    requires forall j :: 0 <= j <= |s2| ==> above[j] == C(s1, s2, i - 1, j)
    ensures |crow| == |s2| + 1 && |brow| == |s2| + 1
    ensures forall j :: 0 <= j <= |s2| ==> crow[j] == C(s1, s2, i, j)
    ensures forall j :: 0 <= j <= |s2| ==> brow[j] == Cell(s1, s2, i, j)
  {
    crow := [0];
    brow := [None];
    for j := 1 to |s2| + 1
      invariant |crow| == j && |brow| == j
      invariant forall j' :: 0 <= j' < j ==> crow[j'] == C(s1, s2, i, j')
      invariant forall j' :: 0 <= j' < j ==> brow[j'] == Cell(s1, s2, i, j')
    {
      var cv, bv;
      if s1[i - 1] == s2[j - 1] {
        cv, bv := above[j - 1] + 1, Some(LeftUp);
      } else if above[j] >= crow[j - 1] {
        cv, bv := above[j], Some(Up);
      } else {
        cv, bv := crow[j - 1], Some(Left);
      }
      assert cv == C(s1, s2, i, j) && bv == Cell(s1, s2, i, j);
      crow := crow + [cv];
      brow := brow + [bv];
    }
  }

  /** The table fill of `longest_common_subsequence`: row 0 is zero, and
      each further row is filled from the one above. */
  method FillTables(s1: string, s2: string) returns (c: seq<seq<int>>, b: seq<seq<Option<Direction>>>)
    ensures TablesUpTo(s1, s2, c, b, |s1| + 1)
  {
    c := [seq(|s2| + 1, _ => 0)];
    b := [seq(|s2| + 1, _ => None)];
    for i := 1 to |s1| + 1
      invariant TablesUpTo(s1, s2, c, b, i)
    {
      var crow, brow := FillRow(s1, s2, c[i - 1], i);
      c := c + [crow];
      b := b + [brow];
    }
  }

  /** `x` is a subsequence of `s`, matched greedily from the end. */
  predicate IsSubseq(x: string, s: string)
    decreases |s|
  {
    if |x| == 0 then true
    else if |s| == 0 then false
    else if x[|x| - 1] == s[|s| - 1] then IsSubseq(x[..|x| - 1], s[..|s| - 1])
    else IsSubseq(x, s[..|s| - 1])
  }

  /** A subsequence stays one when the sequence grows at the end. */
  lemma {:induction false} SubseqExtend(x: string, s: string, ch: char)
    requires IsSubseq(x, s)
    ensures IsSubseq(x, s + [ch])
    decreases 2 * |s| + 1
  {
    assert (s + [ch])[..|s|] == s;
    if |x| > 0 && x[|x| - 1] == ch {
      assert x == x[..|x| - 1] + [ch];
      SubseqDropLast(x[..|x| - 1], ch, s);
    }
  }

  /** Dropping the last element of a subsequence leaves a subsequence. */
  lemma {:induction false} SubseqDropLast(y: string, e: char, t: string)
    requires IsSubseq(y + [e], t)
    ensures IsSubseq(y, t)
    decreases 2 * |t|
  {
    var t' := t[..|t| - 1];
    assert (y + [e])[..|y|] == y;
    if t[|t| - 1] == e {
      assert IsSubseq(y, t');
    } else {
      SubseqDropLast(y, e, t');
    }
    assert t == t' + [t[|t| - 1]];
    SubseqExtend(y, t', t[|t| - 1]);
  }

  /** Along both axes the table entries grow, by at most one per step. */
  lemma {:induction false} CMonotone(a: string, b: string, i: nat, j: nat)
    requires i <= |a| && j <= |b|
    ensures i > 0 ==> C(a, b, i - 1, j) <= C(a, b, i, j) <= C(a, b, i - 1, j) + 1
    ensures j > 0 ==> C(a, b, i, j - 1) <= C(a, b, i, j) <= C(a, b, i, j - 1) + 1
    decreases i + j
  {
    if i > 0 && j > 0 {
      CMonotone(a, b, i - 1, j);
      CMonotone(a, b, i, j - 1);
    }
  }

  /** No common subsequence of the prefixes is longer than `c[i][j]`. */
  lemma {:induction false} CIsUpperBound(a: string, b: string, i: nat, j: nat, x: string)
    requires i <= |a| && j <= |b|
    requires IsSubseq(x, a[..i]) && IsSubseq(x, b[..j])
    ensures |x| <= C(a, b, i, j)
    decreases i + j
  {
    if |x| > 0 {
      var x', e := x[..|x| - 1], x[|x| - 1];
      assert x == x' + [e];
      assert a[..i][..i - 1] == a[..i - 1] && b[..j][..j - 1] == b[..j - 1];
      CMonotone(a, b, i, j);
      if e != a[i - 1] {
        CIsUpperBound(a, b, i - 1, j, x);
      } else if e != b[j - 1] {
        CIsUpperBound(a, b, i, j - 1, x);
      } else {
        CIsUpperBound(a, b, i - 1, j - 1, x');
      }
    }
  }

  /** `get_LCS` with the emitted character corrected to `s1[i - 1]`, the
      character the `LeftUp` arrow matched. */
  function GetLcs(b: seq<seq<Option<Direction>>>, s1: string, i: nat, j: nat): string
    requires i < |b| && i <= |s1| && forall k :: 0 <= k < |b| ==> j < |b[k]|
    decreases i + j
  {
    if i == 0 || j == 0 then []
    else if b[i][j] == Some(LeftUp) then GetLcs(b, s1, i - 1, j - 1) + [s1[i - 1]]
    else if b[i][j] == Some(Up) then GetLcs(b, s1, i - 1, j)
    else GetLcs(b, s1, i, j - 1)
  }

  /** On the filled table the corrected traceback yields a common
      subsequence of the prefixes of length `c[i][j]`. */
  lemma {:induction false} GetLcsIsCommon(s1: string, s2: string, c: seq<seq<int>>,
                                          b: seq<seq<Option<Direction>>>, i: nat, j: nat)
    requires TablesUpTo(s1, s2, c, b, |s1| + 1) && i <= |s1| && j <= |s2|
    ensures |GetLcs(b, s1, i, j)| == C(s1, s2, i, j)
    ensures IsSubseq(GetLcs(b, s1, i, j), s1[..i]) && IsSubseq(GetLcs(b, s1, i, j), s2[..j])
    decreases i + j
  {
    if i > 0 && j > 0 {
      assert s1[..i] == s1[..i - 1] + [s1[i - 1]] && s2[..j] == s2[..j - 1] + [s2[j - 1]];
      var r := GetLcs(b, s1, i, j);
      if b[i][j] == Some(LeftUp) {
        GetLcsIsCommon(s1, s2, c, b, i - 1, j - 1);
        var r' := GetLcs(b, s1, i - 1, j - 1);
        assert r[..|r| - 1] == r';
      } else if b[i][j] == Some(Up) {
        GetLcsIsCommon(s1, s2, c, b, i - 1, j);
        SubseqExtend(r, s1[..i - 1], s1[i - 1]);
      } else {
        GetLcsIsCommon(s1, s2, c, b, i, j - 1);
        SubseqExtend(r, s2[..j - 1], s2[j - 1]);
      }
    }
  }

  /** `longest_common_subsequence(s1, s2)` with the corrected traceback: a
      common subsequence that no common subsequence is longer than. */
  method LongestCommonSubsequence(s1: string, s2: string) returns (r: string)
    ensures IsSubseq(r, s1) && IsSubseq(r, s2)
    ensures forall x :: IsSubseq(x, s1) && IsSubseq(x, s2) ==> |x| <= |r|
  {
    var c, b := FillTables(s1, s2);
    r := GetLcs(b, s1, |s1|, |s2|);
    GetLcsIsCommon(s1, s2, c, b, |s1|, |s2|);
    assert s1[..|s1|] == s1 && s2[..|s2|] == s2;
    forall x | IsSubseq(x, s1) && IsSubseq(x, s2) ensures |x| <= |r| {
      CIsUpperBound(s1, s2, |s1|, |s2|, x);
    }
  }

  /** `get_LCS` as written: a `LeftUp` step at row `i` appends `s1[i]`,
      the character after the matched one; at `i == |s1|` that index is out
      of range and the call fails (`None`). */
  function GetLcsAsWritten(b: seq<seq<Option<Direction>>>, s1: string, i: nat, j: nat): Option<string>
    requires i < |b| && i <= |s1| && forall k :: 0 <= k < |b| ==> j < |b[k]|
    decreases i + j
  {
    if i == 0 || j == 0 then Some([])
    else if b[i][j] == Some(LeftUp) then
      match GetLcsAsWritten(b, s1, i - 1, j - 1)
      case None => None
      case Some(out) => if i < |s1| then Some(out + [s1[i]]) else None
    else if b[i][j] == Some(Up) then GetLcsAsWritten(b, s1, i - 1, j)
    else GetLcsAsWritten(b, s1, i, j - 1)
  }

  /** When the traceback as written does not fail, it has the right length
      and differs from the corrected one only in which characters it
      emits. */
  lemma {:induction false} AsWrittenLength(s1: string, s2: string, c: seq<seq<int>>,
                                           b: seq<seq<Option<Direction>>>, i: nat, j: nat)
    requires TablesUpTo(s1, s2, c, b, |s1| + 1) && i <= |s1| && j <= |s2|
    ensures GetLcsAsWritten(b, s1, i, j).Some? ==> |GetLcsAsWritten(b, s1, i, j).value| == C(s1, s2, i, j)
    decreases i + j
  {
    if i > 0 && j > 0 {
      if b[i][j] == Some(LeftUp) {
        AsWrittenLength(s1, s2, c, b, i - 1, j - 1);
      } else if b[i][j] == Some(Up) {
        AsWrittenLength(s1, s2, c, b, i - 1, j);
      } else {
        AsWrittenLength(s1, s2, c, b, i, j - 1);
      }
    }
  }

  /** `longest_common_subsequence(s1, s2)` as written: the traceback's
      result, or `None` where it raises an index error.  When it returns,
      the result has the length of a longest common subsequence, but its
      characters are shifted by one place in `s1`. */
  method LongestCommonSubsequenceAsWritten(s1: string, s2: string) returns (r: Option<string>)
    ensures r.Some? ==> |r.value| == C(s1, s2, |s1|, |s2|)
    ensures r.Some? ==> forall x :: IsSubseq(x, s1) && IsSubseq(x, s2) ==> |x| <= |r.value|
  {
    var c, b := FillTables(s1, s2);
    r := GetLcsAsWritten(b, s1, |s1|, |s2|);
    AsWrittenLength(s1, s2, c, b, |s1|, |s2|);
    assert s1[..|s1|] == s1 && s2[..|s2|] == s2;
    forall x | IsSubseq(x, s1) && IsSubseq(x, s2) ensures |x| <= C(s1, s2, |s1|, |s2|) {
      CIsUpperBound(s1, s2, |s1|, |s2|, x);
    }
  }

  /** The off-by-one as written: for "a" and "a" the only match sits in
      the last row and the traceback indexes past the end; for "ab" and
      "a" it returns "b", which is not a subsequence of "a". */
  lemma AsWrittenCounterexamples()
    ensures forall c, b :: TablesUpTo("a", "a", c, b, 2) ==> GetLcsAsWritten(b, "a", 1, 1) == None
    ensures forall c, b :: TablesUpTo("ab", "a", c, b, 3) ==>
              GetLcsAsWritten(b, "ab", 2, 1) == Some("b") && !IsSubseq("b", "a")
  {
    forall c, b | TablesUpTo("a", "a", c, b, 2) ensures GetLcsAsWritten(b, "a", 1, 1) == None {
      assert b[1][1] == Cell("a", "a", 1, 1) == Some(LeftUp);
    }
    forall c, b | TablesUpTo("ab", "a", c, b, 3)
      ensures GetLcsAsWritten(b, "ab", 2, 1) == Some("b") && !IsSubseq("b", "a")
    {
      assert C("ab", "a", 1, 1) == 1;
      assert b[2][1] == Cell("ab", "a", 2, 1) == Some(Up);
      assert b[1][1] == Cell("ab", "a", 1, 1) == Some(LeftUp);
      assert GetLcsAsWritten(b, "ab", 0, 0) == Some([]);
      assert "ab"[1] == 'b' && [] + ['b'] == "b";
      assert GetLcsAsWritten(b, "ab", 1, 1) == Some("b");
      assert IsSubseq("b", "a") == IsSubseq("b", "");
    }
  }
}
