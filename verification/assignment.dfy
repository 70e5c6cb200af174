/** Branch-and-bound assignment of `n` tasks to `n` persons, one task each,
    minimising the total cost, where `c[i][p]` is the cost of task `i` done
    by person `p`.  An arrangement maps each task to its person, `-1` for a
    task not yet given out; persons are handed a task in the order
    `0, 1, ..`.  The number of tasks `n` is the side of the cost matrix. */
module Assignment {
  import opened Common

  predicate Square(c: seq<seq<int>>)
  {
    forall i :: 0 <= i < |c| ==> |c[i]| == |c|
  }

  predicate NonNegative(c: seq<seq<int>>)
  {
    forall i, p :: 0 <= i < |c| && 0 <= p < |c[i]| ==> c[i][p] >= 0
  }

  /** Every entry of the arrangement is `-1` or a person. */
  predicate InRange(c: seq<seq<int>>, arr: seq<int>)
  {
    |arr| <= |c| && forall i :: 0 <= i < |arr| ==> -1 <= arr[i] < |c|
  }

  /** What task `i` costs when given to `p`; nothing while unassigned. */
  function Entry(c: seq<seq<int>>, i: int, p: int): int
    requires Square(c) && 0 <= i < |c| && -1 <= p < |c|
  {
    if p == -1 then 0 else c[i][p]
  }

  /** `now_cost`: the total cost of the assigned tasks of `arr`. */
  function Cost(c: seq<seq<int>>, arr: seq<int>): int
    requires Square(c) && InRange(c, arr)
  {
    if |arr| == 0 then 0 else Cost(c, arr[..|arr| - 1]) + Entry(c, |arr| - 1, arr[|arr| - 1])
  }

  /** The number of assigned tasks. */
  function Count(arr: seq<int>): nat
  {
    if |arr| == 0 then 0 else Count(arr[..|arr| - 1]) + (if arr[|arr| - 1] != -1 then 1 else 0)
  }

  /** A one-to-one correspondence between the `n` tasks and the `n`
      persons. */
  predicate IsPermutation(full: seq<int>, n: nat)
  {
    |full| == n
    && (forall i :: 0 <= i < n ==> 0 <= full[i] < n)
    && (forall i, j :: 0 <= i < j < n ==> full[i] != full[j])
    && (forall p :: 0 <= p < n ==> p in full)
  }

  /** The arrangement after persons `0 .. m - 1` got their tasks: each of
      them holds exactly one task, and no one else holds any. */
  predicate Partial(arr: seq<int>, m: nat, n: nat)
  {
    |arr| == n
    && (forall i :: 0 <= i < n ==> -1 <= arr[i] < m)
    && (forall i, j :: 0 <= i < n && 0 <= j < n && i != j && arr[i] != -1 ==> arr[i] != arr[j])
    && (forall p :: 0 <= p < m ==> p in arr)
    && Count(arr) == m
  }

  /** `full` gives every task a person, keeping the tasks `arr` already
      gave out and handing the others to persons from `m` on. */
  predicate Completes(arr: seq<int>, m: nat, full: seq<int>)
  {
    IsPermutation(full, |arr|)
    && forall i :: 0 <= i < |arr| ==>
         (arr[i] != -1 ==> full[i] == arr[i]) && (arr[i] == -1 ==> full[i] >= m)
  }

  /** Giving out one more task adds that task's cost. */
  lemma {:induction false} CostAssign(c: seq<seq<int>>, arr: seq<int>, i: nat, p: int)
    requires Square(c) && InRange(c, arr) && i < |arr| && arr[i] == -1 && 0 <= p < |c|
    ensures Count(arr[i := p]) == Count(arr) + 1
    ensures Cost(c, arr[i := p]) == Cost(c, arr) + c[i][p]
    decreases |arr|
  {
    var a' := arr[i := p];
    if i < |arr| - 1 {
      CostAssign(c, arr[..|arr| - 1], i, p);
      assert a'[..|arr| - 1] == arr[..|arr| - 1][i := p];
    } else {
      assert a'[..|arr| - 1] == arr[..|arr| - 1];
    }
  }

  /** An arrangement with as many assigned tasks as tasks has no gap. */
  lemma {:induction false} CountFull(arr: seq<int>)
    requires Count(arr) == |arr|
    ensures forall i :: 0 <= i < |arr| ==> arr[i] != -1
  {
    if |arr| > 0 {
      var a' := arr[..|arr| - 1];
      assert Count(a') <= |a'| by { CountAtMostLength(a'); }
      CountFull(a');
      assert forall i :: 0 <= i < |a'| ==> a'[i] == arr[i];
    }
  }

  lemma {:induction false} CountAtMostLength(arr: seq<int>)
    ensures Count(arr) <= |arr|
  {
    if |arr| > 0 {
      CountAtMostLength(arr[..|arr| - 1]);
    }
  }

  /** With non-negative costs, giving out more tasks never lowers the
      cost: the pruning test is safe. */
  lemma {:induction false} CostGrows(c: seq<seq<int>>, arr: seq<int>, full: seq<int>)
    requires Square(c) && NonNegative(c) && InRange(c, arr) && InRange(c, full) && |arr| == |full|
    requires forall i :: 0 <= i < |arr| && arr[i] != -1 ==> full[i] == arr[i]
    ensures Cost(c, arr) <= Cost(c, full)
  {
    if |arr| > 0 {
      var a', f' := arr[..|arr| - 1], full[..|full| - 1];
      CostGrows(c, a', f');
    }
  }

  /** Handing the unassigned task `i` to the next person `m` keeps the
      arrangement partial, one person further on. */
  lemma PartialStep(c: seq<seq<int>>, arr: seq<int>, m: nat, i: nat)
    requires Square(c) && m < |c| && Partial(arr, m, |c|) && i < |arr| && arr[i] == -1
    ensures Partial(arr[i := m], m + 1, |c|)
  {
    var n := |c|;
    var next := arr[i := m];
    CostAssign(c, arr, i, m);
    forall p | 0 <= p < m + 1 ensures p in next {
      if p < m {
        assert p in arr;
        var j :| 0 <= j < n && arr[j] == p;
        assert next[j] == p;
      } else {
        assert next[i] == m;
      }
    }
  }

  /** For an unassigned task `i`, the completions of the arrangement that
      gives `i` to person `m` are exactly the completions that give `i` to
      `m`. */
  lemma CompletesStep(arr: seq<int>, m: nat, i: nat, full: seq<int>)
    requires i < |arr| && arr[i] == -1
    ensures Completes(arr[i := m], m + 1, full) <==> Completes(arr, m, full) && full[i] == m
  {
  }

  /** Once every person has a task, the arrangement is a permutation and
      its own only completion. */
  lemma CompleteArrangement(arr: seq<int>, n: nat)
    requires Partial(arr, n, n)
    ensures Completes(arr, n, arr)
    ensures forall full :: Completes(arr, n, full) ==> full == arr
  {
    CountFull(arr);
  }

  /** `work_arrange_recursive(arranged_num)` for `m = arranged_num`: give
      persons `m ..` their tasks in every way under the bound `minCost0`,
      pruning any partial arrangement whose cost already reaches the
      bound.  The arrangement and its cost are restored after each try, so
      they are inputs here.  The bound only ever falls; it falls only to
      the cost of a completion of `now`, which is then copied; and with
      non-negative costs the result is at most the cost of every
      completion of `now`. */
  method WorkArrange(c: seq<seq<int>>, m: nat, now: seq<int>, nowCost: int,
                     minCost0: int, best0: seq<int>)
    returns (minCost: int, best: seq<int>)
    requires Square(c) && m <= |c| && Partial(now, m, |c|) && nowCost == Cost(c, now)
    ensures minCost <= minCost0
    ensures minCost == minCost0 ==> best == best0
    ensures minCost < minCost0 ==> Completes(now, m, best) && InRange(c, best) && minCost == Cost(c, best)
    ensures NonNegative(c) ==> forall full :: Completes(now, m, full) ==> minCost <= Cost(c, full)
    decreases |c| - m, 1
  {
    var n := |c|;
    if m >= n && nowCost < minCost0 {
      CompleteArrangement(now, n);
      return nowCost, now;
    }
    if nowCost >= minCost0 {
      if NonNegative(c) {
        forall full | Completes(now, m, full) ensures minCost0 <= Cost(c, full) {
          CostGrows(c, now, full);
        }
      }
      return minCost0, best0;
    }
    minCost, best := minCost0, best0;
    var arr, cost := now, nowCost;
    for i := 0 to n
      invariant arr == now && cost == nowCost
      invariant minCost <= minCost0
      invariant minCost == minCost0 ==> best == best0
      invariant minCost < minCost0 ==> Completes(now, m, best) && InRange(c, best) && minCost == Cost(c, best)
      invariant NonNegative(c) ==> forall full, j :: Completes(now, m, full) && 0 <= j < i && full[j] == m
                                                    ==> minCost <= Cost(c, full)
    {
      arr, cost, minCost, best := TryTask(c, m, arr, cost, i, minCost, best);
    }
    if NonNegative(c) {
      forall full | Completes(now, m, full) ensures minCost <= Cost(c, full) {
        assert m in full;
        var j :| 0 <= j < n && full[j] == m;
      }
    }
  }

  /** One pass of the loop over the tasks: an unassigned task `i` goes to
      person `m`, the remaining persons are searched, and the task is taken
      back, restoring the arrangement and its cost.  The completions it
      covers are those giving task `i` to person `m`. */
  method TryTask(c: seq<seq<int>>, m: nat, now: seq<int>, nowCost: int, i: nat,
                 minCost0: int, best0: seq<int>)
    returns (arr: seq<int>, cost: int, minCost: int, best: seq<int>)
    requires Square(c) && m < |c| && Partial(now, m, |c|) && nowCost == Cost(c, now) && i < |c|
    ensures arr == now && cost == nowCost
    ensures minCost <= minCost0
    ensures minCost == minCost0 ==> best == best0
    ensures minCost < minCost0 ==> Completes(now, m, best) && InRange(c, best) && minCost == Cost(c, best)
    ensures NonNegative(c) ==> forall full :: Completes(now, m, full) && full[i] == m ==> minCost <= Cost(c, full)
    decreases |c| - m, 0
  {
    arr, cost, minCost, best := now, nowCost, minCost0, best0;
    if arr[i] == -1 {
      CostAssign(c, arr, i, m);
      PartialStep(c, now, m, i);
      arr := arr[i := m];
      cost := cost + c[i][m];
      minCost, best := WorkArrange(c, m + 1, arr, cost, minCost0, best0);
      if minCost < minCost0 {
        CompletesStep(now, m, i, best);
      }
      if NonNegative(c) {
        forall full | Completes(now, m, full) && full[i] == m ensures minCost <= Cost(c, full) {
          CompletesStep(now, m, i, full);
        }
      }
      arr := arr[i := -1];
      cost := cost - c[i][m];
    }
  }

  /** The total of the costs of every row, up to row `r`. */
  function RowsSum(c: seq<seq<int>>, r: nat): int
    requires r <= |c|
  {
    if r == 0 then 0 else RowsSum(c, r - 1) + Sum(c[r - 1])
  }

  lemma {:induction false} EntryAtMostRow(row: seq<int>, p: nat)
    requires p < |row| && forall q :: 0 <= q < |row| ==> row[q] >= 0
    ensures row[p] <= Sum(row)
  {
    var r' := row[..|row| - 1];
    if p < |row| - 1 {
      EntryAtMostRow(r', p);
    }
    NonNegativeSum(r');
  }

  lemma {:induction false} NonNegativeSum(row: seq<int>)
    requires forall q :: 0 <= q < |row| ==> row[q] >= 0
    ensures Sum(row) >= 0
  {
    if |row| > 0 {
      NonNegativeSum(row[..|row| - 1]);
    }
  }

  /** With non-negative costs, no arrangement costs more than all entries
      together. */
  lemma {:induction false} CostAtMostTotal(c: seq<seq<int>>, arr: seq<int>)
    requires Square(c) && NonNegative(c) && InRange(c, arr)
    ensures Cost(c, arr) <= RowsSum(c, |arr|)
  {
    if |arr| > 0 {
      var i := |arr| - 1;
      CostAtMostTotal(c, arr[..i]);
      if arr[i] != -1 {
        EntryAtMostRow(c[i], arr[i]);
      } else {
        NonNegativeSum(c[i]);
      }
    }
  }

  /** The driver: from the bound `sum(sum(row) for row in c) + 1` and no
      task given out, the search with non-negative costs finds a
      permutation whose cost is the least over all permutations. */
  method Arrange(c: seq<seq<int>>) returns (minCost: int, best: seq<int>)
    requires Square(c)
    ensures NonNegative(c) ==> IsPermutation(best, |c|) && InRange(c, best) && minCost == Cost(c, best)
    ensures NonNegative(c) ==> forall full :: IsPermutation(full, |c|) ==> minCost <= Cost(c, full)
  {
    var n := |c|;
    var now := seq(n, _ => -1);
    assert Count(now) == 0 by {
      assert forall i :: 0 <= i < n ==> now[i] == -1;
      NoneAssigned(now);
    }
    assert Cost(c, now) == 0 by { NoCost(c, now); }
    minCost, best := WorkArrange(c, 0, now, 0, RowsSum(c, n) + 1, []);
    if NonNegative(c) {
      var identity := seq(n, i => i);
      assert Completes(now, 0, identity) by {
        forall p | 0 <= p < n ensures p in identity {
          assert identity[p] == p;
        }
      }
      CostAtMostTotal(c, identity);
      forall full | IsPermutation(full, n) ensures Completes(now, 0, full) {}
    }
  }

  lemma {:induction false} NoneAssigned(arr: seq<int>)
    requires forall i :: 0 <= i < |arr| ==> arr[i] == -1
    ensures Count(arr) == 0
  {
    if |arr| > 0 {
      NoneAssigned(arr[..|arr| - 1]);
    }
  }

  lemma {:induction false} NoCost(c: seq<seq<int>>, arr: seq<int>)
    requires Square(c) && InRange(c, arr) && forall i :: 0 <= i < |arr| ==> arr[i] == -1
    ensures Cost(c, arr) == 0
  {
    if |arr| > 0 {
      NoCost(c, arr[..|arr| - 1]);
    }
  }
}
