/** Branch-and-bound scheduling of `n` jobs with running times `t` on `k`
    identical machines, minimising the makespan: the latest finish time
    over the machines.  A partial schedule of jobs `0 .. |a| - 1` is the
    sequence `a` of their machines; the search state kept alongside it is
    the job lists of the machines (`now_arr`) and their finish times
    (`finished_time`). */
module Makespan {
  import opened Common

  /** The finish time of machine `i` when job `j` runs on machine `a[j]`:
      the total time of its jobs. */
  function Load(t: seq<int>, a: seq<nat>, i: int): int
    requires |a| <= |t|
  {
    if |a| == 0 then 0
    else Load(t, a[..|a| - 1], i) + (if a[|a| - 1] == i then t[|a| - 1] else 0)
  }

  /** `finished_time`: the finish times of all `k` machines. */
  function Loads(t: seq<int>, a: seq<nat>, k: nat): seq<int>
    requires |a| <= |t|
  {
    seq(k, i => Load(t, a, i))
  }

  /** The jobs on machine `i`, in the order they were appended. */
  function Group(a: seq<nat>, i: int): seq<int>
  {
    if |a| == 0 then []
    else Group(a[..|a| - 1], i) + (if a[|a| - 1] == i then [|a| - 1] else [])
  }

  /** `now_arr`: the job lists of all `k` machines. */
  function Groups(a: seq<nat>, k: nat): seq<seq<int>>
  {
    seq(k, i => Group(a, i))
  }

  /** The latest finish time over the machines. */
  function Makespan(t: seq<int>, a: seq<nat>, k: nat): int
    requires |a| <= |t| && k > 0
  {
    MaxOf(Loads(t, a, k))
  }

  /** The running times of the jobs `js`. */
  function TimesOf(t: seq<int>, js: seq<int>): seq<int>
    requires forall q :: 0 <= q < |js| ==> 0 <= js[q] < |t|
  {
    seq(|js|, q requires 0 <= q < |js| => t[js[q]])
  }

  predicate NonNegative(t: seq<int>)
  {
    forall j :: 0 <= j < |t| ==> t[j] >= 0
  }

  /** `full` is a complete schedule of all jobs on the `k` machines that
      agrees with the partial schedule `a` on its jobs. */
  predicate Completes(t: seq<int>, k: nat, a: seq<nat>, full: seq<nat>)
  {
    |full| == |t| && (forall j :: 0 <= j < |full| ==> full[j] < k)
    && |a| <= |full| && full[..|a|] == a
  }

  /** Python's `list.remove`: drop the first occurrence of `x`. */
  function RemoveFirst(s: seq<int>, x: int): (r: seq<int>)
    requires x in s
    ensures |r| == |s| - 1
  {
    if s[0] == x then s[1..] else [s[0]] + RemoveFirst(s[1..], x)
  }

  /** Removing what was just appended, and occurs nowhere before, gives
      back the list. */
  lemma {:induction false} RemoveAppended(s: seq<int>, x: int)
    requires x !in s
    ensures RemoveFirst(s + [x], x) == s
  {
    if |s| > 0 {
      assert (s + [x])[1..] == s[1..] + [x];
      RemoveAppended(s[1..], x);
    }
  }

  /** The job lists hold every scheduled job exactly in the list of its
      machine, in ascending order. */
  lemma GroupMembers(a: seq<nat>, i: int)
    ensures forall q :: 0 <= q < |Group(a, i)| ==> 0 <= Group(a, i)[q] < |a| && a[Group(a, i)[q]] == i
    ensures forall j :: 0 <= j < |a| ==> (j in Group(a, i) <==> a[j] == i)
    ensures forall p, q :: 0 <= p < q < |Group(a, i)| ==> Group(a, i)[p] < Group(a, i)[q]
  {
    GroupSound(a, i);
    GroupComplete(a, i);
    GroupAscending(a, i);
  }

  /** Every entry of a machine's job list is a job scheduled on it. */
  lemma {:induction false} GroupSound(a: seq<nat>, i: int)
    ensures forall q :: 0 <= q < |Group(a, i)| ==> 0 <= Group(a, i)[q] < |a| && a[Group(a, i)[q]] == i
  {
    if |a| > 0 {
      var a', g := a[..|a| - 1], Group(a, i);
      GroupSound(a', i);
      var g' := Group(a', i);
      forall q | 0 <= q < |g| ensures 0 <= g[q] < |a| && a[g[q]] == i {
        if q < |g'| {
          assert g[q] == g'[q] && a[g[q]] == a'[g[q]];
        } else {
          assert a[|a| - 1] == i && g[q] == |a| - 1;
        }
      }
    }
  }

  /** Every job scheduled on a machine is in its job list. */
  lemma {:induction false} GroupComplete(a: seq<nat>, i: int)
    ensures forall j :: 0 <= j < |a| ==> (j in Group(a, i) <==> a[j] == i)
  {
    if |a| > 0 {
      var a', g := a[..|a| - 1], Group(a, i);
      GroupSound(a, i);
      GroupComplete(a', i);
      var g' := Group(a', i);
      forall j | 0 <= j < |a| && a[j] == i ensures j in g {
        if j < |a'| {
          assert a'[j] == a[j] && j in g';
        } else {
          assert g == g' + [j];
        }
      }
    }
  }

  /** A machine's job list is strictly ascending. */
  lemma {:induction false} GroupAscending(a: seq<nat>, i: int)
    ensures forall p, q :: 0 <= p < q < |Group(a, i)| ==> Group(a, i)[p] < Group(a, i)[q]
  {
    if |a| > 0 {
      var a', g := a[..|a| - 1], Group(a, i);
      GroupSound(a', i);
      GroupAscending(a', i);
      var g' := Group(a', i);
      forall p, q | 0 <= p < q < |g| ensures g[p] < g[q] {
        assert g[p] == g'[p];
        if q < |g'| {
          assert g[q] == g'[q];
        } else {
          assert g[q] == |a| - 1 && g'[p] < |a'|;
        }
      }
    }
  }

  /** The finish time of a machine is the total time of its job list. */
  lemma {:induction false} LoadIsGroupTime(t: seq<int>, a: seq<nat>, i: int)
    requires |a| <= |t|
    ensures forall q :: 0 <= q < |Group(a, i)| ==> 0 <= Group(a, i)[q] < |t|
    ensures Load(t, a, i) == Sum(TimesOf(t, Group(a, i)))
  {
    GroupMembers(a, i);
    if |a| > 0 {
      var a' := a[..|a| - 1];
      LoadIsGroupTime(t, a', i);
      var g', g := Group(a', i), Group(a, i);
      if a[|a| - 1] == i {
        assert TimesOf(t, g)[..|g'|] == TimesOf(t, g');
      } else {
        assert TimesOf(t, g) == TimesOf(t, g');
      }
    }
  }

  /** Scheduling job `|a|` on machine `i` appends it to that machine's
      list and adds its time to that machine's finish time only. */
  lemma Assign(t: seq<int>, k: nat, a: seq<nat>, i: nat)
    requires |a| < |t| && i < k
    ensures Loads(t, a + [i], k) == Loads(t, a, k)[i := Loads(t, a, k)[i] + t[|a|]]
    ensures Groups(a + [i], k) == Groups(a, k)[i := Groups(a, k)[i] + [|a|]]
    ensures |a| !in Groups(a, k)[i]
  {
    assert (a + [i])[..|a|] == a;
    GroupMembers(a, i);
    forall j | 0 <= j < k
      ensures Groups(a + [i], k)[j] == Groups(a, k)[i := Groups(a, k)[i] + [|a|]][j]
    {
    }
  }

  /** With non-negative times, finish times only grow as more jobs are
      scheduled. */
  lemma {:induction false} LoadGrows(t: seq<int>, a: seq<nat>, full: seq<nat>, i: int)
    requires NonNegative(t) && |a| <= |full| <= |t| && full[..|a|] == a
    ensures Load(t, a, i) <= Load(t, full, i)
    decreases |full|
  {
    if |a| < |full| {
      var f' := full[..|full| - 1];
      assert f'[..|a|] == a;
      LoadGrows(t, a, f', i);
    } else {
      assert full == a;
    }
  }

  /** With non-negative times, no completion of `a` has a smaller makespan
      than `a` already has: the pruning test is safe. */
  lemma MakespanGrows(t: seq<int>, k: nat, a: seq<nat>, full: seq<nat>)
    requires NonNegative(t) && k > 0 && |a| <= |t| && Completes(t, k, a, full)
    ensures Makespan(t, a, k) <= Makespan(t, full, k)
  {
    var w :| 0 <= w < k && Loads(t, a, k)[w] == Makespan(t, a, k);
    LoadGrows(t, a, full, w);
    assert Loads(t, full, k)[w] <= Makespan(t, full, k);
  }

  /** With non-negative times, a machine never finishes later than the
      total time of all jobs. */
  lemma {:induction false} LoadAtMostSum(t: seq<int>, a: seq<nat>, i: int)
    requires NonNegative(t) && |a| <= |t|
    ensures Load(t, a, i) <= Sum(t[..|a|])
  {
    if |a| > 0 {
      LoadAtMostSum(t, a[..|a| - 1], i);
      assert t[..|a|][..|a| - 1] == t[..|a| - 1];
    }
  }

  /** A completion of `a + [i]` is a completion of `a`, and a completion of
      `a` that puts job `|a|` on machine `i` completes `a + [i]`. */
  lemma CompletesStep(t: seq<int>, k: nat, a: seq<nat>, i: nat, full: seq<nat>)
    requires |a| < |t|
    ensures Completes(t, k, a + [i], full) <==> Completes(t, k, a, full) && full[|a|] == i
  {
    if Completes(t, k, a + [i], full) {
      assert full[..|a|] == full[..|a| + 1][..|a|];
    }
    if Completes(t, k, a, full) && full[|a|] == i {
      assert full[..|a| + 1] == full[..|a|] + [full[|a|]];
    }
  }

  /** A complete schedule is its own only completion. */
  lemma CompletesItself(t: seq<int>, k: nat, a: seq<nat>, full: seq<nat>)
    requires |a| == |t| && Completes(t, k, a, full)
    ensures full == a
  {
    assert full == full[..|a|];
  }

  /** `get_arr(num)`: schedule jobs `num ..` in every way under the bound
      `best0`, pruning any partial schedule whose makespan already reaches
      the bound.  The job lists and finish times are restored after each
      try, so the search state is an input here.  The bound only ever
      falls; it falls only to the makespan of a completion of `a`, whose
      job lists are then copied; and with non-negative times the result is
      at most the makespan of every completion of `a`. */
  method GetArr(t: seq<int>, k: nat, num: nat, ghost a: seq<nat>, nowArr: seq<seq<int>>,
                finished: seq<int>, best0: int, bestArr0: seq<seq<int>>)
    returns (best: int, bestArr: seq<seq<int>>)
    requires k > 0 && num == |a| <= |t| && forall j :: 0 <= j < |a| ==> a[j] < k
    requires finished == Loads(t, a, k) && nowArr == Groups(a, k)
    ensures best <= best0
    ensures best == best0 ==> bestArr == bestArr0
    ensures best < best0 ==> exists full :: Completes(t, k, a, full) && best == Makespan(t, full, k)
                                            && bestArr == Groups(full, k)
    ensures NonNegative(t) ==> forall full :: Completes(t, k, a, full) ==> best <= Makespan(t, full, k)
    decreases |t| - num, 1
  {
    if num >= |t| && MaxOf(finished) < best0 {
      assert Completes(t, k, a, a);
      forall full | Completes(t, k, a, full) ensures MaxOf(finished) <= Makespan(t, full, k) {
        CompletesItself(t, k, a, full);
      }
      return MaxOf(finished), nowArr;
    }
    if MaxOf(finished) >= best0 {
      if NonNegative(t) {
        forall full | Completes(t, k, a, full) ensures best0 <= Makespan(t, full, k) {
          MakespanGrows(t, k, a, full);
        }
      }
      return best0, bestArr0;
    }
    best, bestArr := best0, bestArr0;
    var arr, fin := nowArr, finished;
    for i := 0 to k
      invariant arr == nowArr && fin == finished
      invariant best <= best0
      invariant best == best0 ==> bestArr == bestArr0
      invariant best < best0 ==> exists full :: Completes(t, k, a, full) && best == Makespan(t, full, k)
                                                && bestArr == Groups(full, k)
      invariant NonNegative(t) ==> forall full :: Completes(t, k, a, full) && full[num] < i
                                                  ==> best <= Makespan(t, full, k)
    {
      var b, ba;
      b, ba, arr, fin := TryMachine(t, k, num, a, arr, fin, i, best, bestArr);
      best, bestArr := b, ba;
    }
    if NonNegative(t) {
      forall full | Completes(t, k, a, full) ensures best <= Makespan(t, full, k) {
        assert full[num] < k;
      }
    }
  }

  /** One pass of the loop in `get_arr`: put job `num` on machine `i`,
      search on, then take it back off.  The job lists and finish times
      come back as they were; the bound moves as in `GetArr`, and with
      non-negative times it is at most the makespan of every completion of
      `a` that puts job `num` on machine `i`. */
  method TryMachine(t: seq<int>, k: nat, num: nat, ghost a: seq<nat>, nowArr: seq<seq<int>>,
                    finished: seq<int>, i: nat, best0: int, bestArr0: seq<seq<int>>)
    returns (best: int, bestArr: seq<seq<int>>, arr: seq<seq<int>>, fin: seq<int>)
    requires k > 0 && num == |a| < |t| && i < k && forall j :: 0 <= j < |a| ==> a[j] < k
    requires finished == Loads(t, a, k) && nowArr == Groups(a, k)
    ensures arr == nowArr && fin == finished
    ensures best <= best0
    ensures best == best0 ==> bestArr == bestArr0
    ensures best < best0 ==> exists full :: Completes(t, k, a, full) && best == Makespan(t, full, k)
                                            && bestArr == Groups(full, k)
    ensures NonNegative(t) ==> forall full :: Completes(t, k, a, full) && full[num] == i
                                              ==> best <= Makespan(t, full, k)
    decreases |t| - num, 0
  {
    Assign(t, k, a, i);
    arr := nowArr[i := nowArr[i] + [num]];
    fin := finished[i := finished[i] + t[num]];
    best, bestArr := GetArr(t, k, num + 1, a + [i], arr, fin, best0, bestArr0);
    if best < best0 {
      ghost var full :| Completes(t, k, a + [i], full) && best == Makespan(t, full, k) && bestArr == Groups(full, k);
      CompletesStep(t, k, a, i, full);
    }
    if NonNegative(t) {
      forall full | Completes(t, k, a, full) && full[num] == i ensures best <= Makespan(t, full, k) {
        CompletesStep(t, k, a, i, full);
      }
    }
    RemoveAppended(nowArr[i], num);
    arr := arr[i := RemoveFirst(arr[i], num)];
    fin := fin[i := fin[i] - t[num]];
  }

  /** The driver: from the bound `sum(t) + 1` and empty machines, the
      search with non-negative times finds a schedule of all jobs whose
      makespan is the least over all schedules. */
  method Schedule(t: seq<int>, k: nat) returns (best: int, bestArr: seq<seq<int>>)
    requires k > 0
    ensures NonNegative(t) ==> exists full :: Completes(t, k, [], full) && best == Makespan(t, full, k)
                                              && bestArr == Groups(full, k)
    ensures NonNegative(t) ==> forall full :: Completes(t, k, [], full) ==> best <= Makespan(t, full, k)
  {
    var nowArr := seq(k, _ => []);
    var finished := seq(k, _ => 0);
    assert Groups([], k) == nowArr && Loads(t, [], k) == finished;
    best, bestArr := GetArr(t, k, 0, [], nowArr, finished, Sum(t) + 1, []);
    if NonNegative(t) {
      var zeros: seq<nat> := seq(|t|, _ => 0);
      assert Completes(t, k, [], zeros);
      var w :| 0 <= w < k && Loads(t, zeros, k)[w] == Makespan(t, zeros, k);
      LoadAtMostSum(t, zeros, w);
      assert t[..|zeros|] == t;
    }
  }
}
