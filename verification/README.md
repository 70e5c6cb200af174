# Algorithms course exercises, modelled in Dafny

This project models the algorithmic core of a university algorithms course
repository written in Python, and proves what each algorithm promises.

- **Interval tree** (`IntervalTree.py`). A red-black tree of intervals keyed
  by their `low` end. Every node carries `max`, the largest `high` in its
  subtree. Modelled operations:
  - insertion with `insert_fixup`;
  - deletion by key with `delete_fixup`;
  - rank lookup and deletion by rank;
  - `min_node`, the rotations with their `max` repair;
  - the self-check `check` / `check_recursive`.

  The tree is an immutable datatype with an `Empty` leaf in place of the
  shared sentinel. The parent-pointer loops of the fix-ups are written as
  the equivalent bottom-up recursion.
- **Rabin–Karp matching** (`exp-3-Karp-Rabin.py`). Residues modulo
  999983, the rolling update, and the character-by-character confirmation
  of each hash hit.
- **Longest common subsequence** (`exp-3-longest-common-subsequence.py`).
  The table fill of `c` and `b`, and the traceback `get_LCS`.
- **Compressed sparse row graph** (`CSR_Matrix.py`). Covers:
  - the compression of the adjacency matrix into `row_start_offset` and
    `col_offset`;
  - `get_adj_vertexes`;
  - breadth-first search `BFS`;
  - the two-sided search `BFS_bidirectional`.

  Vertices are their indices. The per-vertex fields `color`, `pre` and
  `depth` are sequences indexed by vertex, with `-1` for a missing
  predecessor.
- **Makespan scheduling** (`sch2-2.py`). `get_arr`, the branch-and-bound
  search that assigns jobs to `k` machines.
- **Task assignment** (`sch2-1.py`). `work_arrange_recursive`, the
  branch-and-bound search for a cheapest one-to-one assignment of tasks to
  persons.

Files:

- `common.dfy`: `Option`, `Sum`, `MaxOf`.
- Interval tree: `itree.dfy`, `itree_insert.dfy`, `itree_delete.dfy`,
  `itree_check.dfy`.
- `karp_rabin.dfy`.
- `lcs.dfy`.
- Graphs:
  - `csr.dfy`;
  - `search_tree.dfy`, the colour and predecessor bookkeeping both
    searches share;
  - `bfs.dfy`;
  - `bfs_bidir.dfy`.
- `makespan.dfy`.
- `assignment.dfy`.

The backtracking searches mutate global state and undo each change after
the recursive call. Here that state is an input, and each try returns it
restored. The incumbent best (`best_finished_time`/`best_arr`,
`min_cost`/`best_arrangement`) is threaded in and out.

## Model

| member | source | states |
|---|---|---|
| IntervalTree.Mk | IntervalTree.py:133-134 | a node rebuilt with `fixMax` has the right `max` whenever its children do |
| IntervalTree.MaxIsSubtreeMax | IntervalTree.py:133-134 | on a tree whose `max` fields are all right, a node's `max` is the largest `high` stored in its subtree, and some stored interval attains it |
| IntervalTree.RotateLeft | IntervalTree.py:167-184 | a left rotation keeps the in-order interval sequence and the subtree's `max`, and keeps every `max` right; the right child becomes the root, holding the old root as its left child |
| IntervalTree.RotateRight | IntervalTree.py:186-203 | the mirror image of the left rotation, with the same guarantees |
| IntervalTree.MinNode | IntervalTree.py:370-376 | `min_node` finds nothing exactly on the sentinel, and otherwise the first interval in order |
| IntervalTree.FindByIndexIsRank | IntervalTree.py:349-361 | for `0 <= k < size` the in-order walk returns the `k`-th interval with the counter run down to 0; otherwise it returns the sentinel with `k - size` |
| IntervalInsert.InsPosIsUpperBound | IntervalTree.py:248-255 | the descent of `insert_node` stops at the upper-bound position: after every interval whose low is at most the new low, before every larger one |
| IntervalInsert.InsRec | IntervalTree.py:244-269 | insertion puts the new interval into the in-order sequence exactly at the descent's position, and keeps every `max` right |
| IntervalInsert.InsLeft | IntervalTree.py:250-262 | when the new low is below the node's, the interval goes into the left subtree's in-order sequence at the descent's position, and every `max` stays right |
| IntervalInsert.InsRight | IntervalTree.py:250-264 | when the new low is at least the node's, the interval goes into the right subtree at the descent's position; equal lows go after the node |
| IntervalInsert.FixLeft | IntervalTree.py:213-227 | cases 1 to 3 of `insert_fixup` keep the in-order sequence and every `max` |
| IntervalInsert.FixRight | IntervalTree.py:228-241 | cases 4 to 6 keep the in-order sequence and every `max` |
| IntervalInsert.FixLeftRB | IntervalTree.py:213-227 | cases 1 to 3 repair a red-red conflict below the grandparent: the result is balanced, has no red-red pair, and its black height is one more than the uncle's |
| IntervalInsert.FixRightRB | IntervalTree.py:228-241 | the mirror image for cases 4 to 6 |
| IntervalInsert.InsRecRB | IntervalTree.py:210-242 | insertion keeps the black height and balance; below a black node it leaves no red-red pair, below a red one at most the single conflict the grandparent repairs |
| IntervalInsert.InsertValid | IntervalTree.py:205-207 | `insert` keeps the tree valid (red-black rules, black root, ordered by low, `max` right), grows it by one, and puts the new interval after every interval whose low is at most its own and before every larger one |
| IntervalDelete.Absorb | IntervalTree.py:330 | the loop exit of `delete_fixup`, which paints `x` black, keeps the in-order sequence and `max` |
| IntervalDelete.FixLeftBlackSibling | IntervalTree.py:295-308 | cases 2 to 4 for a left `x` keep the in-order sequence and `max` |
| IntervalDelete.FixLeft | IntervalTree.py:288-308 | one step of `delete_fixup` on a left child, case 1 included, keeps the in-order sequence and `max` |
| IntervalDelete.FixRightBlackSibling | IntervalTree.py:316-329 | the mirror cases for a right `x` keep the in-order sequence and `max` |
| IntervalDelete.FixRight | IntervalTree.py:309-329 | one step on a right child keeps the in-order sequence and `max` |
| IntervalDelete.JoinLeft | IntervalTree.py:285-308 | rebuilding a parent over a changed left subtree, with the fix-up when that subtree came back one black short, keeps the in-order sequence and `max` |
| IntervalDelete.JoinRight | IntervalTree.py:309-329 | the mirror image for a changed right subtree |
| IntervalDelete.DelMin | IntervalTree.py:337-342 | unlinking the successor `min_node(z.right)` drops the first interval in order, returns exactly `min_node`'s interval, and keeps `max` |
| IntervalDelete.RemoveNode | IntervalTree.py:332-347 | `delete_node` on a subtree root leaves the in-order sequence of its two subtrees, with the successor's interval copied in, and keeps `max` |
| IntervalDelete.ReplaceBySuccessor | IntervalTree.py:336-347 | with two children, moving the successor into the node leaves the in-order sequence of the two subtrees and keeps `max` |
| IntervalDelete.SearchPos | IntervalTree.py:275-283 | a position found by the search of `delete` holds an interval with the searched low |
| IntervalDelete.DelKey | IntervalTree.py:271-283 | deletion by low removes exactly the interval at the search's position, or nothing when the search misses, and keeps `max` |
| IntervalDelete.DelKeyLeft | IntervalTree.py:280-281 | a low below the node's is searched and deleted in the left subtree, removing the interval at the search's position or nothing |
| IntervalDelete.DelKeyRight | IntervalTree.py:282-283 | a low above the node's is searched and deleted in the right subtree, with the same guarantee |
| IntervalDeleteSpec.DeleteKeys | IntervalTree.py:271-283 | on an ordered tree, deletion by low keeps the order, removes nothing when no interval has that low, and otherwise removes exactly one interval with that low |
| IntervalDelete.DelAt | IntervalTree.py:363-368 | deleting rank `k` removes exactly the `k`-th interval in order and keeps `max` |
| IntervalDelete.DelAtLeft | IntervalTree.py:349-368 | a rank below the left subtree's size is deleted in the left subtree, removing exactly that interval |
| IntervalDelete.DelAtRight | IntervalTree.py:349-368 | a rank above the left subtree's size is deleted in the right subtree at the shifted rank, removing exactly that interval when the rank is below the size |
| IntervalDeleteProofs.Case3LeftRB | IntervalTree.py:299-303 | case 3 (left side) turns the sibling into a black node with a red far child, keeping its black height |
| IntervalDeleteProofs.Case4LeftRB | IntervalTree.py:304-308 | case 4 (left side) resolves the extra black and restores the parent's black height |
| IntervalDeleteProofs.FixLeftBlackSiblingRB | IntervalTree.py:295-308 | cases 2 to 4 on a left child restore the red-black rules at the parent's black height; below a red parent the extra black is always resolved |
| IntervalDeleteProofs.Case3RightRB | IntervalTree.py:320-324 | the mirror of case 3 |
| IntervalDeleteProofs.Case4RightRB | IntervalTree.py:325-329 | the mirror of case 4 |
| IntervalDeleteProofs.FixRightBlackSiblingRB | IntervalTree.py:316-329 | the mirror of cases 2 to 4 |
| IntervalDeleteProofs.FixLeftRB | IntervalTree.py:288-308 | a whole step on a left child, case 1 included, restores the red-black rules or passes the extra black up |
| IntervalDeleteProofs.FixRightRB | IntervalTree.py:309-329 | the same on a right child |
| IntervalDeleteProofs.JoinLeftRB | IntervalTree.py:285-308 | rebuilding over a left subtree that came back short or whole restores the red-black rules at the old black height |
| IntervalDeleteProofs.JoinRightRB | IntervalTree.py:309-329 | the mirror image |
| IntervalDeleteProofs.SpliceRB | IntervalTree.py:338-347 | splicing out a node with at most one child and fixing up `x` when the node was black leaves the subtree repaired |
| IntervalDeleteProofs.DelMinRB | IntervalTree.py:337-347 | unlinking the successor leaves its subtree repaired |
| IntervalDeleteProofs.RemoveNodeRB | IntervalTree.py:332-347 | `delete_node` leaves the subtree repaired |
| IntervalDeleteProofs.DelKeyRB | IntervalTree.py:271-283 | deletion by low leaves the tree repaired |
| IntervalDeleteProofs.DelAtRB | IntervalTree.py:363-368 | deletion by rank leaves the tree repaired |
| IntervalDeleteSpec.SearchPosComplete | IntervalTree.py:275-283 | on an ordered tree the search of `delete` misses exactly when no stored interval has the low it looks for |
| IntervalDeleteSpec.DeleteValid | IntervalTree.py:271-283 | `delete` keeps the tree valid; it removes nothing when no interval has the low, and otherwise removes exactly one interval with that low |
| IntervalDeleteSpec.DeleteByIndexValid | IntervalTree.py:363-368 | `delete_by_index(k)` keeps the tree valid; for `0 <= k < size` it removes exactly the `k`-th interval in order, and otherwise changes nothing |
| IntervalCheck.CheckRecSound | IntervalTree.py:379-401 | a height returned by `check_recursive` certifies the red-black rules and `max`, and equals the black height; the process exit happens only on a wrong `max` |
| IntervalCheck.CheckRecComplete | IntervalTree.py:379-401 | every valid subtree whose lows respect the bound passes with its black height |
| IntervalCheck.CheckOfValid | IntervalTree.py:404-407 | `check()` passes every valid tree; what it passes obeys the red-black rules with a black root and `max` right |
| IntervalCheck.CheckMissesLeftOrder | IntervalTree.py:384-385 | the checker as written passes a tree whose in-order lows are 7, 5, 6 |
| IntervalCheck.CheckRecInOrderExact | IntervalTree.py:379-401 | the check with the in-order predecessor threaded through returns a height exactly for valid subtrees above the bound, and returns the last low it visited |
| IntervalCheck.CheckRecInOrderSound | IntervalTree.py:379-401 | a height from the check with the predecessor threaded through certifies the red-black rules, `max` and the order after the bound, and is the black height |
| IntervalCheck.CheckRecInOrderShape | IntervalTree.py:379-401 | that height certifies the red-black rules and `max`, and equals the black height |
| IntervalCheck.CheckRecInOrderOrder | IntervalTree.py:379-401 | that height certifies that the lows ascend after the bound, and the key returned is the last one in order |
| IntervalCheck.CheckRecInOrderComplete | IntervalTree.py:379-401 | every valid subtree whose lows ascend after the bound passes |
| IntervalCheck.CheckInOrderExact | IntervalTree.py:404-407 | the corrected `check()` passes exactly the valid trees |
| IntervalCheck.CheckPassesAfterEachStep | IntervalTree.py:426-439 | starting from a valid tree, the driver's `assert tree.check()` holds after `insert`, `delete` and `delete_by_index` |
| KarpRabin.CodingIsCoding | exp-3-Karp-Rabin.py:10-12 | numbering the distinct characters gives a legal `rune_to_int`: exactly the characters present, distinct codes below the alphabet size |
| KarpRabin.HashCons | exp-3-Karp-Rabin.py:14-20 | the leading digit of a base-`d` numeral carries weight `d^(m-1)` |
| KarpRabin.HashRoll | exp-3-Karp-Rabin.py:26-28 | the numeral of the next window is the current one minus the leading digit's weight, times `d`, plus the new digit |
| KarpRabin.ModStep | exp-3-Karp-Rabin.py:19-20 | reducing modulo 999983 at every step of the prefix loop gives the residue of the whole numeral |
| KarpRabin.ModRoll | exp-3-Karp-Rabin.py:27-28 | the rolling update on residues gives the residue of the rolled numeral, with Python's non-negative remainder |
| KarpRabin.ShiftsBelowExact | exp-3-Karp-Rabin.py:21-25 | the reference list holds exactly the shifts below the bound at which `P` occurs in `T`, in strictly ascending order |
| KarpRabin.InitialResidues | exp-3-Karp-Rabin.py:18-20 | the first loop leaves the residues of `P` and of `T`'s first window |
| KarpRabin.Confirm | exp-3-Karp-Rabin.py:23 | the spurious-hit test is true exactly when the window equals `P` |
| KarpRabin.Roll | exp-3-Karp-Rabin.py:26-28 | the update yields the residue of the next window |
| KarpRabin.Hit | exp-3-Karp-Rabin.py:22-25 | the test at one shift adds the shift to the list exactly when `P` occurs there |
| KarpRabin.Scan | exp-3-Karp-Rabin.py:21-28 | the main loop leaves exactly the list of shifts at which `P` occurs |
| KarpRabin.AllShifts | exp-3-Karp-Rabin.py:21-29 | the returned list holds a shift exactly when `P` occurs there, in strictly ascending order |
| KarpRabin.MatchKarpRabin | exp-3-Karp-Rabin.py:6-29 | for any legal `rune_to_int`, the result is the reference list: a shift is reported exactly when `P` occurs there, each once, ascending, whatever the hash collisions |
| KarpRabin.MatchKarpRabinDefault | exp-3-Karp-Rabin.py:6-29 | with one particular legal `rune_to_int`, the result lists exactly the occurring shifts, ascending |
| Lcs.FillTables | exp-3-longest-common-subsequence.py:29-46 | the fill leaves `c[i][j]` equal to the recurrence on the prefixes and `b[i][j]` holding the arrow it chose, with ties going up |
| Lcs.FillRow | exp-3-longest-common-subsequence.py:33-46 | filling row `i` from row `i - 1` gives the recurrence's values and arrows for the whole row |
| Lcs.SubseqExtend | exp-3-longest-common-subsequence.py:35-46 | a subsequence stays one when the sequence grows at the end |
| Lcs.CMonotone | exp-3-longest-common-subsequence.py:35-46 | table entries grow along both axes, by at most one per step |
| Lcs.CIsUpperBound | exp-3-longest-common-subsequence.py:35-46 | no common subsequence of the prefixes is longer than `c[i][j]` |
| Lcs.GetLcsIsCommon | exp-3-longest-common-subsequence.py:16-25 | the corrected traceback yields a common subsequence of the prefixes whose length is `c[i][j]` |
| Lcs.LongestCommonSubsequence | exp-3-longest-common-subsequence.py:28-49 | with the corrected traceback the result is a common subsequence that no common subsequence is longer than |
| Lcs.AsWrittenLength | exp-3-longest-common-subsequence.py:16-25 | when the traceback as written does not fail, its length is `c[i][j]` |
| Lcs.LongestCommonSubsequenceAsWritten | exp-3-longest-common-subsequence.py:28-49 | as written, a result that exists has the optimal length |
| Lcs.AsWrittenCounterexamples | exp-3-longest-common-subsequence.py:21 | as written, `("a", "a")` indexes past the end of `s1`, and `("ab", "a")` returns `"b"`, which is not a subsequence of `"a"` |
| Csr.OnesExact | CSR_Matrix.py:112-115 | the inner loop's column list holds exactly the `True` columns of the row, strictly ascending |
| Csr.Compress | CSR_Matrix.py:104-116 | compression succeeds exactly when the matrix has `edge_num` `True` entries; it then yields the row offsets and the concatenated column lists of the matrix |
| Csr.CompressRow | CSR_Matrix.py:112-115 | one row's loop writes the row's `True` columns after the earlier rows' ones, or fails only when the matrix has more than `edge_num` `True` entries |
| Csr.NeighboursAreRow | CSR_Matrix.py:120-130 | on a compression, the offsets are usable, and each vertex's neighbour slice is its row's `True` columns, the last vertex's slice running to the end |
| Csr.CompressedGraphOk | CSR_Matrix.py:104-130 | a compressed square matrix is a usable graph whose adjacency is exactly the matrix |
| Csr.ClosedSetSeparates | CSR_Matrix.py:144-158 | a vertex set that holds `start`, is closed under edges and misses `end` admits no walk from `start` to `end` |
| SearchTree.LinksDiscover | CSR_Matrix.py:151-155 | discovering a white neighbour, with `depth = pre.depth + 1` and `pre` set, keeps every discovered vertex linked to a discovered neighbour one level closer to the root |
| SearchTree.WalkBack | CSR_Matrix.py:160-164 | the walk along `pre` ends at the root, each vertex reached by an edge from the next |
| SearchTree.ReverseBackChain | CSR_Matrix.py:165-166 | the reversed chain is a walk from the root to the vertex the chain started at |
| SearchTree.JoinPaths | CSR_Matrix.py:241-242 | two walks joined by an edge between their ends form one walk |
| Bfs.Expand | CSR_Matrix.py:146-155 | the neighbour loop keeps the search state; without success it leaves every neighbour discovered, and the count of undiscovered vertices never grows |
| Bfs.Discover | CSR_Matrix.py:151-155 | discovering a white neighbour keeps the search state, appends it to the queue, and lowers the measure |
| Bfs.DiscoverState | CSR_Matrix.py:151-155 | discovering a white neighbour other than `end` keeps the links, the queue's contents and the closure of the black vertices |
| Bfs.Step | CSR_Matrix.py:145-158 | one iteration keeps the search state and strictly lowers twice the undiscovered count plus the queue length |
| Bfs.Exhausted | CSR_Matrix.py:144-168 | an empty queue without success means no walk leads from `start` to `end` |
| Bfs.BfsPath | CSR_Matrix.py:132-168 | `BFS` returns `[start]` when the two coincide, otherwise a walk from `start` to `end`, and `[]` exactly when no such walk exists |
| BfsBidirectional.NotExpandedByOther | CSR_Matrix.py:194-214 | a neighbour of a vertex on one side is never black on the other side |
| BfsBidirectional.DiscoverState | CSR_Matrix.py:200-224 | discovering a white neighbour on one side keeps both sides' links, queues and closures |
| BfsBidirectional.MeetState | CSR_Matrix.py:195-218 | a neighbour gray on the other side gives a bridge: one end on each side, joined by an edge |
| BfsBidirectional.RetireState | CSR_Matrix.py:205-225 | blackening the expanded vertex keeps the state |
| BfsBidirectional.Expand | CSR_Matrix.py:193-224 | the neighbour loop of either side keeps the state; without a bridge it leaves every neighbour on its side |
| BfsBidirectional.Discover | CSR_Matrix.py:200-224 | discovering a white neighbour on one side appends it to that side's queue only, keeps the state and lowers the measure |
| BfsBidirectional.Consider | CSR_Matrix.py:193-224 | one neighbour either gives a bridge or ends on the side; the measure never rises and no queue shrinks |
| BfsBidirectional.QueuePop | CSR_Matrix.py:192 | popping a queue's head makes it the vertex being expanded, and the rest still holds the side's other gray vertices |
| BfsBidirectional.Visit | CSR_Matrix.py:192-225 | one pop, expansion and blackening strictly lowers twice the undiscovered count plus both queue lengths |
| BfsBidirectional.Level | CSR_Matrix.py:191-229 | a level visits the side's queue length of vertices and stops at a bridge; a non-empty level makes progress, and an empty one changes nothing |
| BfsBidirectional.InitialState | CSR_Matrix.py:173-188 | after the set-up, `start` gray on the forward side and `end` gray on the backward side, each alone in its queue, form a legal two-sided search state |
| BfsBidirectional.Exhausted | CSR_Matrix.py:189-244 | both queues empty without a bridge means no walk leads from `start` to `end` |
| BfsBidirectional.BfsBidirectionalPath | CSR_Matrix.py:170-244 | `BFS_bidirectional` returns `[start]` when the two coincide, otherwise a walk from `start` to `end`, and `[]` exactly when no such walk exists |
| Makespan.RemoveAppended | sch2-2.py:24-27 | `remove(num)` after `append(num)` gives the job list back |
| Makespan.GroupMembers | sch2-2.py:23-26 | at depth `num`, each job below `num` is in exactly the job list of its machine, and each list is ascending |
| Makespan.GroupSound | sch2-2.py:23-26 | every entry of a machine's job list is a job scheduled on it |
| Makespan.GroupComplete | sch2-2.py:23-26 | a job is in a machine's list exactly when it is scheduled on that machine |
| Makespan.GroupAscending | sch2-2.py:23-26 | a machine's job list is strictly ascending |
| Makespan.LoadIsGroupTime | sch2-2.py:24-28 | each machine's finish time is the total time of its job list |
| Makespan.Assign | sch2-2.py:24-25 | trying machine `i` appends the job to that machine's list and adds its time to that machine's finish time only |
| Makespan.LoadGrows | sch2-2.py:21-25 | with non-negative times a machine's finish time never falls as more jobs are scheduled |
| Makespan.CompletesStep | sch2-2.py:23-26 | the complete schedules searched after placing job `num` on machine `i` are exactly the completions that put `num` on `i` |
| Makespan.MakespanGrows | sch2-2.py:21-22 | with non-negative times no completion of a partial schedule has a smaller makespan, so pruning loses nothing |
| Makespan.GetArr | sch2-2.py:15-28 | the bound never rises; when it falls, the new value is the makespan of a complete schedule extending the current one, and `best_arr` is that schedule's job lists; with non-negative times the result is at most the makespan of every completion |
| Makespan.TryMachine | sch2-2.py:23-28 | one try restores the job lists and finish times, moves the bound as `get_arr` does, and covers every completion that puts the job on that machine |
| Makespan.Schedule | sch2-2.py:36-39 | with non-negative times the search from `sum(t) + 1` ends with the least makespan over all schedules, together with a schedule that attains it |
| Assignment.CostAssign | sch2-1.py:23-24 | giving an unassigned task to a person adds that entry's cost and one assigned task |
| Assignment.CostGrows | sch2-1.py:19-20 | with non-negative costs no completion of a partial arrangement costs less, so pruning loses nothing |
| Assignment.PartialStep | sch2-1.py:21-23 | handing the unassigned task `i` to person `m` keeps each person below `m + 1` holding exactly one task |
| Assignment.CompletesStep | sch2-1.py:22-25 | the completions searched after handing task `i` to person `m` are exactly the completions that give `i` to `m` |
| Assignment.CompleteArrangement | sch2-1.py:15-17 | once every person has a task, the arrangement is a permutation and its own only completion |
| Assignment.TryTask | sch2-1.py:22-27 | one try restores the arrangement and its cost, and covers every completion giving task `i` to person `m` |
| Assignment.WorkArrange | sch2-1.py:13-27 | the bound never rises; when it falls, it is the cost of a permutation extending the current arrangement, which is copied; with non-negative costs the result is at most the cost of every completion |
| Assignment.CostAtMostTotal | sch2-1.py:38 | with non-negative costs no arrangement costs more than all entries together |
| Assignment.Arrange | sch2-1.py:36-39 | with non-negative costs the search from the sum of all costs plus one ends with the least cost over all permutations, together with a permutation that attains it |

## Left out

- Interval tree:
  - the sentinel node with its self-pointers and parent pointers, and
    `transplant`'s write to `nil.parent`: the tree is an immutable
    datatype with an `Empty` leaf;
  - the runtime `isinstance` checks in the property setters: Dafny's
    types already enforce them;
  - string rendering.
- Floating-point sentinels: the sentinel's `max` of minus infinity is the
  `NegInf` bound.
- The process exit at IntervalTree.py:392 is the `Exit` verdict.
- `check` compares the root's parent pointer with the sentinel, and each
  child's parent pointer with the node. Both hold by construction here.
- `match_Karp_Rabin` builds `rune_to_int` from a Python set, whose
  iteration order is unspecified.
  - `MatchKarpRabin` is stated for every injective numbering of the
    characters, which covers any set order.
  - The `print` of each hit is left out.
- Integer widths: Python integers are unbounded, as are Dafny's. No
  wrap-around needs modelling.
- CSR_Matrix.load_from_file:
  - reading the file, parsing the lines, and allocating the numpy matrix
    are left out; the model starts from the square `bool` matrix.
  - `edge_num` is an input: the file's line count times two.
- Per-vertex `Vertex` and `Edge` objects are not modelled. Vertices are
  indices into the colour, predecessor and depth sequences.
- Stale fields between searches are not modelled: the searches reset only
  `color` and `pre`, so `depth` keeps old values, but the model starts
  each search with fresh depths.
- Shortest paths are not modelled. Depths are recorded but the minimality
  of the returned paths is not proved. The driver's comparison of the
  lengths of the two searches' paths (CSR_Matrix.py:262-271) is therefore
  not stated.
- BfsBidirectional.BfsBidirectionalPath: requires every edge to run both
  ways, as the loader guarantees by setting both `adj_matrix[a, b]` and
  `adj_matrix[b, a]`. Without that the meeting edge found by the backward
  side need not point forward.
- Makespan.GetArr: requires `k > 0`, because Python's `max` of an empty
  list raises.
- Makespan.GetArr, Makespan.Schedule: the optimality promise is stated
  only for non-negative times. With a negative time the pruning is unsound
  and the search may never update the bound.
- Assignment.WorkArrange, Assignment.Arrange: the optimality promise is
  stated only for non-negative costs, for the same reason.
- `work_arrange_recursive` reads a global `n` that is never assigned. Only
  `task_num` is set, so the function as written raises `NameError` on its
  first line. The model takes `n` to be the number of tasks, the side of
  the square cost matrix.
- `best_arr` and `best_arrangement` are never initialised by the drivers.
  The model starts them empty; they are replaced whenever the bound falls.
- The `__main__` drivers are left out: random generation, timing, `gc`
  control and printing.
- `exp-1-nearest-points-in-plane.py` and `exp-1.py` are left out: they are
  floating-point geometry.
- `RedBlackTree.py` is left out: it is unfinished.

## Findings

| source | as written | input that shows it | evidently intended | confidence | as-written member | corrected member |
|---|---|---|---|---|---|---|
| IntervalTree.py:384-385 | `check_recursive` passes its own `pre_node` unchanged into the left recursion. Each node is compared only with the nearest ancestor whose right subtree holds it, so a left child whose low exceeds its parent's is never reported | the black root `[5, 5]` with red children `[7, 7]` (left) and `[6, 6]` (right): in-order lows 7, 5, 6, and `check()` returns true | compare each node with its in-order predecessor, so that `check()` also certifies the ordering | high, not executed | IntervalCheck.CheckMissesLeftOrder | IntervalCheck.CheckInOrderExact |
| exp-3-longest-common-subsequence.py:21 | on a `Left_Up` arrow at `(i, j)`, `get_LCS` appends `s1[i]`. The characters that matched are `s1[i - 1] == s2[j - 1]` | `("a", "a")`: `s1[1]` is out of range and the call raises. `("ab", "a")`: returns `"b"`, not a subsequence of `"a"` | append `s1[i - 1]` | high, not executed | Lcs.AsWrittenCounterexamples | Lcs.LongestCommonSubsequence |
