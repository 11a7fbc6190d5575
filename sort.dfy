/** The rank-based sorts of the task list.

    The component sorts with the host's `Array.prototype.sort` and a comparator that subtracts ranks.
    Since the 2019 edition of ECMA-262 (section 22.1.3.27) that sort must be stable, so its result is
    determined by three facts: it is a permutation of the input, it is non-decreasing in rank, and tasks
    of equal rank keep their relative order. `RankSort` below is one stable sort (insertion sort); the
    lemmas prove it has the three facts and that any sequence with the three facts is `RankSort`'s
    result, so the choice of algorithm does not matter. */
module TaskSort {
  import opened Tasks

  /** Which rank map a sort uses. */
  datatype Order = ByPriority | ByStatus

  /** The component's priority rank map: high first. */
  function PriorityRank(p: Priority): nat {
    match p
    case High => 1
    case Medium => 2
    case Low => 3
  }

  /** The keys of the component's status rank map. */
  predicate KnownStatus(status: string) {
    status == "to-do" || status == "in-progress" || status == "completed"
  }

  /** The component's status rank map: to-do first, completed last. */
  function StatusRank(status: string): nat
    requires KnownStatus(status)
  {
    if status == "to-do" then 1
    else if status == "in-progress" then 2
    else 3
  }

  /** A task has a rank under `o`; statuses outside the status map have none. */
  predicate Ranked(o: Order, t: Task) {
    o == ByPriority || KnownStatus(t.status)
  }

  predicate AllRanked(o: Order, s: seq<Task>) {
    forall i :: 0 <= i < |s| ==> Ranked(o, s[i])
  }

  /** The rank of a task: the value its comparator subtracts. */
  function Rank(o: Order, t: Task): (k: nat)
    requires Ranked(o, t)
    ensures 1 <= k <= 3
  {
    match o
    case ByPriority => PriorityRank(t.priority)
    case ByStatus => StatusRank(t.status)
  }

  /** Non-decreasing in rank. */
  predicate SortedByRank(o: Order, s: seq<Task>)
    requires AllRanked(o, s)
  {
    forall i, j :: 0 <= i < j < |s| ==> Rank(o, s[i]) <= Rank(o, s[j])
  }

  /** The task has a rank under `o`, and that rank is `k`. */
  predicate HasRank(o: Order, t: Task, k: nat) {
    Ranked(o, t) && Rank(o, t) == k
  }

  /** The subsequence of the tasks of rank `k`, in their order in `s`. */
  function OfRank(o: Order, s: seq<Task>, k: nat): seq<Task> {
    if s == [] then []
    else (if HasRank(o, s[0], k) then [s[0]] else []) + OfRank(o, s[1..], k)
  }

  /** What ECMA-262 demands of a stable sort of `s` with a rank-subtracting comparator:
      `r` is a permutation of `s`, `r` is sorted by rank, and for every rank the tasks of that rank
      appear in `r` in the same order as in `s`. */
  predicate IsStableSortOf(o: Order, r: seq<Task>, s: seq<Task>)
    requires AllRanked(o, r) && AllRanked(o, s)
  {
    && multiset(r) == multiset(s)
    && SortedByRank(o, r)
    && forall k :: 1 <= k <= 3 ==> OfRank(o, r, k) == OfRank(o, s, k)
  }

  /** Insert `x` before the first task whose rank is not smaller than its own. */
  function Insert(o: Order, x: Task, s: seq<Task>): (r: seq<Task>)
    requires Ranked(o, x) && AllRanked(o, s)
    ensures AllRanked(o, r)
  {
    if s == [] || Rank(o, x) <= Rank(o, s[0]) then [x] + s
    else
      assert s == [s[0]] + s[1..];
      [s[0]] + Insert(o, x, s[1..])
  }

  /** Insertion sort: the stable sort the model uses for `Array.prototype.sort`. */
  function RankSort(o: Order, s: seq<Task>): (r: seq<Task>)
    requires AllRanked(o, s)
    ensures AllRanked(o, r)
  {
    if s == [] then []
    else
      assert s == [s[0]] + s[1..];
      Insert(o, s[0], RankSort(o, s[1..]))
  }

  /** Insertion adds exactly `x`. */
  lemma {:induction false} InsertPermutes(o: Order, x: Task, s: seq<Task>)
    requires Ranked(o, x) && AllRanked(o, s)
    ensures multiset(Insert(o, x, s)) == multiset(s) + multiset{x}
  {
    if s != [] && Rank(o, s[0]) < Rank(o, x) {
      assert s == [s[0]] + s[1..];
      InsertPermutes(o, x, s[1..]);
    }
  }

  /** The insertion sort only reorders: its result is a permutation of its input. */
  lemma {:induction false} RankSortPermutes(o: Order, s: seq<Task>)
    requires AllRanked(o, s)
    ensures multiset(RankSort(o, s)) == multiset(s)
  {
    if s != [] {
      assert s == [s[0]] + s[1..];
      RankSortPermutes(o, s[1..]);
      InsertPermutes(o, s[0], RankSort(o, s[1..]));
    }
  }

  /** The first task after an insertion is the inserted task or the old first task. */
  lemma InsertHead(o: Order, x: Task, s: seq<Task>)
    requires Ranked(o, x) && AllRanked(o, s)
    ensures |Insert(o, x, s)| == |s| + 1
    ensures Insert(o, x, s)[0] == x || (s != [] && Insert(o, x, s)[0] == s[0])
  {
  }

  /** Inserting into a sorted list keeps it sorted. */
  lemma {:induction false} InsertSorted(o: Order, x: Task, s: seq<Task>)
    requires Ranked(o, x) && AllRanked(o, s) && SortedByRank(o, s)
    ensures SortedByRank(o, Insert(o, x, s))
  {
    if s == [] || Rank(o, x) <= Rank(o, s[0]) {
    } else {
      var tail := s[1..];
      assert SortedByRank(o, tail);
      InsertSorted(o, x, tail);
      InsertHead(o, x, tail);
      var r' := Insert(o, x, tail);
      assert Rank(o, s[0]) <= Rank(o, r'[0]);
      var r := [s[0]] + r';
      forall i, j | 0 <= i < j < |r| ensures Rank(o, r[i]) <= Rank(o, r[j]) {
        if i > 0 {
          assert r[i] == r'[i - 1] && r[j] == r'[j - 1];
        } else if j > 1 {
          assert r[j] == r'[j - 1];
          assert Rank(o, r'[0]) <= Rank(o, r'[j - 1]);
        }
      }
    }
  }

  /** The insertion sort sorts. */
  lemma {:induction false} RankSortSorted(o: Order, s: seq<Task>)
    requires AllRanked(o, s)
    ensures SortedByRank(o, RankSort(o, s))
  {
    if s != [] {
      RankSortSorted(o, s[1..]);
      InsertSorted(o, s[0], RankSort(o, s[1..]));
    }
  }

  /** Taking the rank-`k` subsequence distributes over concatenation. */
  lemma {:induction false} OfRankAppend(o: Order, a: seq<Task>, b: seq<Task>, k: nat)
    ensures OfRank(o, a + b, k) == OfRank(o, a, k) + OfRank(o, b, k)
  {
    if a == [] {
      assert a + b == b;
    } else {
      assert (a + b)[0] == a[0] && (a + b)[1..] == a[1..] + b;
      OfRankAppend(o, a[1..], b, k);
    }
  }

  /** The rank-`k` subsequence of a single task. */
  lemma OfRankSingle(o: Order, x: Task, k: nat)
    ensures OfRank(o, [x], k) == if HasRank(o, x, k) then [x] else []
  {
    assert [x][1..] == [];
  }

  /** Inserting `x` adds it in front of the tasks of its own rank and moves nothing else. */
  lemma {:induction false} InsertOfRank(o: Order, x: Task, s: seq<Task>, k: nat)
    requires Ranked(o, x) && AllRanked(o, s)
    ensures OfRank(o, Insert(o, x, s), k) == OfRank(o, [x], k) + OfRank(o, s, k)
  {
    if s == [] || Rank(o, x) <= Rank(o, s[0]) {
      OfRankAppend(o, [x], s, k);
    } else {
      InsertOfRank(o, x, s[1..], k);
      InsertPastOfRank(o, x, s, k);
    }
  }

  /** The step of `InsertOfRank` where `x` moves past the first task, whose rank is smaller. */
  lemma InsertPastOfRank(o: Order, x: Task, s: seq<Task>, k: nat)
    requires Ranked(o, x) && AllRanked(o, s) && s != [] && Rank(o, s[0]) < Rank(o, x)
    requires OfRank(o, Insert(o, x, s[1..]), k) == OfRank(o, [x], k) + OfRank(o, s[1..], k)
    ensures OfRank(o, Insert(o, x, s), k) == OfRank(o, [x], k) + OfRank(o, s, k)
  {
    var y, tail := s[0], s[1..];
    var ins := Insert(o, x, tail);
    assert s == [y] + tail;
    assert Insert(o, x, s) == [y] + ins;
    OfRankAppend(o, [y], ins, k);
    OfRankAppend(o, [y], tail, k);
    OfRankSingle(o, x, k);
    OfRankSingle(o, y, k);
    // x and y have different ranks, so at most one of them is kept
    SwapKept(OfRank(o, Insert(o, x, s), k), OfRank(o, ins, k), OfRank(o, s, k),
      OfRank(o, [y], k), OfRank(o, [x], k), OfRank(o, tail, k));
  }

  /** Two pieces of which at most one is non-empty may trade places. */
  lemma SwapKept<T>(a: seq<T>, b: seq<T>, c: seq<T>, hd: seq<T>, xs: seq<T>, rest: seq<T>)
    requires hd == [] || xs == []
    requires a == hd + b && b == xs + rest && c == hd + rest
    ensures a == xs + c
  {
    if hd == [] {
      assert a == b && c == rest;
    } else {
      assert b == rest;
    }
  }

  /** The insertion sort is stable: each rank's subsequence is unchanged. */
  lemma {:induction false} RankSortOfRank(o: Order, s: seq<Task>, k: nat)
    requires AllRanked(o, s)
    ensures OfRank(o, RankSort(o, s), k) == OfRank(o, s, k)
  {
    if s != [] {
      var tail := s[1..];
      RankSortOfRank(o, tail, k);
      InsertOfRank(o, s[0], RankSort(o, tail), k);
      OfRankSingle(o, s[0], k);
    }
  }

  /** `RankSort` meets the stable-sort contract: permutation, sorted by rank, stable. */
  lemma RankSortIsStableSort(o: Order, s: seq<Task>)
    requires AllRanked(o, s)
    ensures IsStableSortOf(o, RankSort(o, s), s)
  {
    RankSortPermutes(o, s);
    RankSortSorted(o, s);
    forall k: nat ensures OfRank(o, RankSort(o, s), k) == OfRank(o, s, k) {
      RankSortOfRank(o, s, k);
    }
  }

  /** A list none of whose tasks has rank `k` has an empty rank-`k` subsequence. */
  lemma {:induction false} OfRankNone(o: Order, s: seq<Task>, k: nat)
    requires AllRanked(o, s)
    requires forall t :: t in s ==> Rank(o, t) != k
    ensures OfRank(o, s, k) == []
  {
    if s != [] {
      assert forall t :: t in s[1..] ==> t in s;
      OfRankNone(o, s[1..], k);
    }
  }

  /** The tail of a sorted list is sorted, and its first task's rank bounds the rest from below. */
  lemma SortedTail(o: Order, s: seq<Task>)
    requires AllRanked(o, s) && SortedByRank(o, s) && s != []
    ensures AllRanked(o, s[1..]) && SortedByRank(o, s[1..])
    ensures forall t :: t in s[1..] ==> Rank(o, s[0]) <= Rank(o, t)
  {
    var tail := s[1..];
    forall i, j | 0 <= i < j < |tail| ensures Rank(o, tail[i]) <= Rank(o, tail[j]) {
      assert tail[i] == s[i + 1] && tail[j] == s[j + 1];
    }
    forall t | t in tail ensures Rank(o, s[0]) <= Rank(o, t) {
      var j :| 0 <= j < |tail| && tail[j] == t;
      assert s[j + 1] == t;
    }
  }

  /** A list sorted by rank is its rank-1 tasks, then its rank-2 tasks, then its rank-3 tasks. */
  lemma {:induction false} SortedIsRankBlocks(o: Order, s: seq<Task>)
    requires AllRanked(o, s) && SortedByRank(o, s)
    ensures s == OfRank(o, s, 1) + OfRank(o, s, 2) + OfRank(o, s, 3)
  {
    if s != [] {
      var tail := s[1..];
      SortedTail(o, s);
      SortedIsRankBlocks(o, tail);
      if Rank(o, s[0]) >= 2 {
        OfRankNone(o, tail, 1);
      }
      if Rank(o, s[0]) == 3 {
        OfRankNone(o, tail, 2);
      }
      ConsRankBlocks(o, s);
    }
  }

  /** The step of `SortedIsRankBlocks`: a first task no greater in rank than the rest joins the
      front of its own block. */
  lemma ConsRankBlocks(o: Order, s: seq<Task>)
    requires AllRanked(o, s) && s != []
    requires Rank(o, s[0]) >= 2 ==> OfRank(o, s[1..], 1) == []
    requires Rank(o, s[0]) == 3 ==> OfRank(o, s[1..], 2) == []
    requires s[1..] == OfRank(o, s[1..], 1) + OfRank(o, s[1..], 2) + OfRank(o, s[1..], 3)
    ensures s == OfRank(o, s, 1) + OfRank(o, s, 2) + OfRank(o, s, 3)
  {
    var x, tail := s[0], s[1..];
    assert s == [x] + tail;
    PrependToBlock(s, x, Rank(o, x),
      OfRank(o, tail, 1), OfRank(o, tail, 2), OfRank(o, tail, 3),
      OfRank(o, s, 1), OfRank(o, s, 2), OfRank(o, s, 3));
  }

  /** Where a new first element lands among three consecutive blocks `a + b + c`: in front of the
      block numbered `k`, the blocks before it being empty. */
  lemma PrependToBlock<T>(s: seq<T>, x: T, k: nat, a: seq<T>, b: seq<T>, c: seq<T>,
                          a': seq<T>, b': seq<T>, c': seq<T>)
    requires 1 <= k <= 3
    requires s == [x] + (a + b + c)
    requires k >= 2 ==> a == []
    requires k == 3 ==> b == []
    requires a' == (if k == 1 then [x] else []) + a
    requires b' == (if k == 2 then [x] else []) + b
    requires c' == (if k == 3 then [x] else []) + c
    ensures s == a' + b' + c'
  {
    if k == 1 {
      assert [x] + (a + b + c) == ([x] + a) + b + c;
    } else if k == 2 {
      assert [] + b == b;
    }
  }

  /** The stable-sort contract determines the result: any permutation of `s` that is sorted by rank
      and keeps equal-rank tasks in order is exactly `RankSort(o, s)`. */
  lemma StableSortIsUnique(o: Order, r: seq<Task>, s: seq<Task>)
    requires AllRanked(o, r) && AllRanked(o, s)
    requires IsStableSortOf(o, r, s)
    ensures r == RankSort(o, s)
  {
    RankSortIsStableSort(o, s);
    var q := RankSort(o, s);
    SortedIsRankBlocks(o, r);
    SortedIsRankBlocks(o, q);
    assert OfRank(o, r, 1) == OfRank(o, s, 1) == OfRank(o, q, 1);
    assert OfRank(o, r, 2) == OfRank(o, s, 2) == OfRank(o, q, 2);
    assert OfRank(o, r, 3) == OfRank(o, s, 3) == OfRank(o, q, 3);
  }
}
