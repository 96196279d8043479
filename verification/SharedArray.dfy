/** The lock-light growing array shared by all threads: an index is taken by fetch-and-add, and
    a page is opened under a lock after an unlocked check. Every step below is atomic. */
module SharedArray {

  /** Where a thread is inside `get_next_object`, and with which index. */
  datatype Phase =
    | Outside
    | Claimed(index: nat)   // after the fetch-and-add
    | Waiting(index: nat)   // the unlocked check found the index not covered
    | Ready(index: nat)     // about to dereference the page of the index

  datatype Status = Running | MaxExit | FullError | Stray

  /** `pages` pages are open; `returned` are the indices handed out by finished calls. */
  datatype Array = Array(pageSize: nat, maxPages: nat, next: nat, pages: nat, threads: seq<Phase>,
                         returned: seq<nat>, status: Status)

  function Init(pageSize: nat, maxPages: nat, threads: nat): Array {
    Array(pageSize, maxPages, 0, 1, seq(threads, _ => Outside), [], Running)
  }

  function CurMaxIndex(a: Array): int {
    a.pages * a.pageSize - 1
  }

  function MaxIndex(a: Array): int {
    a.maxPages * a.pageSize - 1
  }

  /** The page that `get_object_by_index` dereferences is open. */
  predicate Covered(a: Array, index: nat) {
    index < a.pages * a.pageSize
  }

  function Move(a: Array, t: nat, p: Phase): Array
    requires t < |a.threads|
  {
    a.(threads := a.threads[t := p])
  }

  /** The next atomic step of thread `t`. A dereference of an unopened page is `Stray`. */
  function Advance(a: Array, t: nat): Array
    requires t < |a.threads|
  {
    if a.status != Running then a else
    match a.threads[t]
    case Outside => Move(a, t, Claimed(a.next)).(next := a.next + 1)
    case Claimed(i) =>
      if i == MaxIndex(a) then a.(status := MaxExit)
      else if i >= CurMaxIndex(a) then Move(a, t, Waiting(i))
      else Move(a, t, Ready(i))
    case Waiting(i) =>
      if i < CurMaxIndex(a) then Move(a, t, Ready(i))
      else if a.pages >= a.maxPages then a.(status := FullError)
      else Move(a, t, Ready(i)).(pages := a.pages + 1)
    case Ready(i) =>
      if Covered(a, i) then Move(a, t, Outside).(returned := a.returned + [i])
      else a.(status := Stray)
  }

  function Run(a: Array, schedule: seq<nat>): Array
    requires forall i :: 0 <= i < |schedule| ==> schedule[i] < |a.threads|
    ensures |Run(a, schedule).threads| == |a.threads|
  {
    if schedule == [] then a else
    Advance(Run(a, schedule[..|schedule| - 1]), schedule[|schedule| - 1])
  }

  // ---- safety ----

  predicate Holds(p: Phase, index: nat) {
    !p.Outside? && p.index == index
  }

  /** Not yet past the check: the page that this index may have to open is still to come. */
  predicate Unchecked(p: Phase) {
    p.Claimed? || p.Waiting?
  }

  ghost predicate Accounted(a: Array) {
    && (forall t :: 0 <= t < |a.threads| && !a.threads[t].Outside? ==> a.threads[t].index < a.next)
    && (forall t, u :: 0 <= t < u < |a.threads| && !a.threads[t].Outside? && !a.threads[u].Outside? ==>
          a.threads[t].index != a.threads[u].index)
    && (forall k :: 0 <= k < |a.returned| ==> a.returned[k] < a.next)
    && (forall k, l :: 0 <= k < l < |a.returned| ==> a.returned[k] != a.returned[l])
    && (forall k, t :: 0 <= k < |a.returned| && 0 <= t < |a.threads| && !a.threads[t].Outside? ==>
          a.returned[k] != a.threads[t].index)
  }

  ghost predicate Pending(a: Array, j: nat) {
    exists t :: 0 <= t < |a.threads| && Unchecked(a.threads[t]) && a.threads[t].index == j
  }

  /** The heart of the argument: every index at or past the open pages' limit belongs to a
      thread that has not passed the check yet. */
  ghost predicate LatePending(a: Array) {
    forall j: nat :: CurMaxIndex(a) <= j < a.next ==> Pending(a, j)
  }

  ghost predicate Inv(a: Array) {
    && a.pageSize >= 1 && 1 <= a.pages <= a.maxPages && |a.threads| <= a.pageSize
    && Accounted(a) && LatePending(a)
    && (forall t :: 0 <= t < |a.threads| && a.threads[t].Waiting? ==> a.threads[t].index != MaxIndex(a))
    && (forall t :: 0 <= t < |a.threads| && a.threads[t].Ready? ==> Covered(a, a.threads[t].index))
    && (forall k :: 0 <= k < |a.returned| ==> Covered(a, a.returned[k]))
    && a.status != Stray
    && (a.status == MaxExit || a.status == FullError ==> a.next > MaxIndex(a))
  }

  function Indices(threads: seq<Phase>): set<nat> {
    if threads == [] then {} else
    var last := threads[|threads| - 1];
    Indices(threads[..|threads| - 1]) + if last.Outside? then {} else {last.index}
  }

  lemma {:induction false} IndicesSize(threads: seq<Phase>)
    ensures |Indices(threads)| <= |threads|
    ensures forall t :: 0 <= t < |threads| && !threads[t].Outside? ==> threads[t].index in Indices(threads)
  {
    if threads != [] {
      IndicesSize(threads[..|threads| - 1]);
    }
  }

  lemma {:induction false} IntervalSize(lo: nat, hi: nat, s: set<nat>)
    requires forall j :: lo <= j < hi ==> j in s
    ensures hi - lo <= |s|
    decreases hi
  {
    if lo < hi {
      IntervalSize(lo, hi - 1, s - {hi - 1});
    }
  }

  /** With no more threads than objects in a page, no index is further than one page past the
      open ones: opening a single page covers it. */
  lemma OnePageSuffices(a: Array)
    requires Inv(a)
    ensures a.next <= CurMaxIndex(a) + |a.threads|
  {
    IndicesSize(a.threads);
    if CurMaxIndex(a) < a.next {
      forall j | CurMaxIndex(a) <= j < a.next ensures j in Indices(a.threads) {
        assert Pending(a, j);
      }
      IntervalSize(CurMaxIndex(a), a.next, Indices(a.threads));
    }
  }

  lemma OtherPending(a: Array, t: nat, p: Phase, j: nat)
    requires t < |a.threads| && Pending(a, j)
    requires Unchecked(a.threads[t]) && a.threads[t].index == j ==> Unchecked(p) && p.index == j
    ensures Pending(Move(a, t, p), j)
  {
    var u :| 0 <= u < |a.threads| && Unchecked(a.threads[u]) && a.threads[u].index == j;
    assert Move(a, t, p).threads[u] == if u == t then p else a.threads[u];
  }

  lemma EnterKeeps(a: Array, t: nat)
    requires Inv(a) && t < |a.threads| && a.threads[t].Outside?
    ensures Inv(Move(a, t, Claimed(a.next)).(next := a.next + 1))
  {
    var a' := Move(a, t, Claimed(a.next)).(next := a.next + 1);
    forall j: nat | CurMaxIndex(a') <= j < a'.next ensures Pending(a', j) {
      if j < a.next {
        OtherPending(a, t, Claimed(a.next), j);
        var u :| 0 <= u < |a'.threads| && Unchecked(Move(a, t, Claimed(a.next)).threads[u])
                 && Move(a, t, Claimed(a.next)).threads[u].index == j;
      } else {
        assert a'.threads[t].index == j;
      }
    }
  }

  /** A check that opens nothing. */
  lemma CheckKeeps(a: Array, t: nat, p: Phase)
    requires Inv(a) && t < |a.threads| && Unchecked(a.threads[t])
    requires (p.Waiting? || (p.Ready? && p.index < CurMaxIndex(a))) && p.index == a.threads[t].index
    requires p.Waiting? ==> p.index != MaxIndex(a)
    ensures Inv(Move(a, t, p))
  {
    var a' := Move(a, t, p);
    forall j: nat | CurMaxIndex(a') <= j < a'.next ensures Pending(a', j) {
      OtherPending(a, t, p, j);
    }
  }

  lemma OpenKeeps(a: Array, t: nat)
    requires Inv(a) && t < |a.threads| && a.threads[t].Waiting? && a.pages < a.maxPages
    ensures Inv(Move(a, t, Ready(a.threads[t].index)).(pages := a.pages + 1))
  {
    OnePageSuffices(a);
    var a' := Move(a, t, Ready(a.threads[t].index)).(pages := a.pages + 1);
    assert CurMaxIndex(a') == CurMaxIndex(a) + a.pageSize && MaxIndex(a') == MaxIndex(a);
    assert forall i :: Covered(a, i) ==> Covered(a', i);
    assert Accounted(a');
    assert Covered(a', a.threads[t].index);
  }

  lemma ReturnKeeps(a: Array, t: nat)
    requires Inv(a) && t < |a.threads| && a.threads[t].Ready?
    ensures Inv(Move(a, t, Outside).(returned := a.returned + [a.threads[t].index]))
  {
    var a' := Move(a, t, Outside).(returned := a.returned + [a.threads[t].index]);
    forall j: nat | CurMaxIndex(a') <= j < a'.next ensures Pending(a', j) {
      OtherPending(a, t, Outside, j);
      var u :| 0 <= u < |a'.threads| && Unchecked(Move(a, t, Outside).threads[u]) && Move(a, t, Outside).threads[u].index == j;
    }
  }

  lemma AdvanceKeeps(a: Array, t: nat)
    requires Inv(a) && t < |a.threads|
    ensures Inv(Advance(a, t))
  {
    if a.status == Running {
      match a.threads[t]
      case Outside => EnterKeeps(a, t);
      case Claimed(i) =>
        if i == MaxIndex(a) {
          ExitKeeps(a, MaxExit);
        } else {
          CheckKeeps(a, t, if i >= CurMaxIndex(a) then Waiting(i) else Ready(i));
        }
      case Waiting(i) =>
        if i < CurMaxIndex(a) {
          CheckKeeps(a, t, Ready(i));
        } else if a.pages >= a.maxPages {
          assert a.pages == a.maxPages;
          ExitKeeps(a, FullError);
        } else {
          OpenKeeps(a, t);
        }
      case Ready(i) => ReturnKeeps(a, t);
    }
  }

  lemma ExitKeeps(a: Array, status: Status)
    requires Inv(a) && status != Stray && a.next > MaxIndex(a)
    ensures Inv(a.(status := status))
  {
    forall j: nat | CurMaxIndex(a) <= j < a.next ensures Pending(a.(status := status), j) {
      assert Pending(a, j);
    }
  }

  /** Under every interleaving of at most `pageSize` threads: every dereference hits an open
      page, no index is handed out twice, and the full-array exit is taken only after the
      largest index has been claimed. */
  lemma {:induction false} RunIsSafe(pageSize: nat, maxPages: nat, threads: nat, schedule: seq<nat>)
    requires 1 <= pageSize && 1 <= maxPages && threads <= pageSize
    requires forall i :: 0 <= i < |schedule| ==> schedule[i] < threads
    ensures var a := Run(Init(pageSize, maxPages, threads), schedule);
            && Inv(a)
            && a.status != Stray
            && (a.status == FullError ==> a.next > MaxIndex(a))
            && (forall k, l :: 0 <= k < l < |a.returned| ==> a.returned[k] != a.returned[l])
            && (forall k :: 0 <= k < |a.returned| ==> a.returned[k] / pageSize < a.pages)
            && a.pageSize == pageSize && a.maxPages == maxPages
  {
    if schedule == [] {
      assert LatePending(Init(pageSize, maxPages, threads));
    } else {
      RunIsSafe(pageSize, maxPages, threads, schedule[..|schedule| - 1]);
      AdvanceKeeps(Run(Init(pageSize, maxPages, threads), schedule[..|schedule| - 1]), schedule[|schedule| - 1]);
    }
    var a := Run(Init(pageSize, maxPages, threads), schedule);
    forall k | 0 <= k < |a.returned| ensures a.returned[k] / pageSize < a.pages {
      PageOf(a.returned[k], pageSize, a.pages);
    }
  }

  lemma PageOf(i: nat, p: nat, pages: nat)
    requires p >= 1 && i < pages * p
    ensures i / p < pages
  {
    if i / p >= pages {
      TimesMonotone(pages, i / p, p);
    }
  }

  lemma TimesMonotone(a: nat, b: nat, p: nat)
    requires a <= b
    ensures a * p <= b * p
  {
  }

  // ---- every call returns its own index ----

  /** The index was handed out, or a call is on its way with it. */
  ghost predicate Somewhere(a: Array, j: nat) {
    j in a.returned || exists t :: 0 <= t < |a.threads| && Holds(a.threads[t], j)
  }

  lemma StaysSomewhere(a: Array, t: nat, j: nat)
    requires t < |a.threads| && (Somewhere(a, j) || (j == a.next && a.status == Running && a.threads[t].Outside?))
    ensures Somewhere(Advance(a, t), j)
  {
    var a' := Advance(a, t);
    if j in a.returned {
      var k :| 0 <= k < |a.returned| && a.returned[k] == j;
      assert a'.returned[k] == j;
    } else if u :| 0 <= u < |a.threads| && Holds(a.threads[u], j) {
      if u == t && a.status == Running && a.threads[t].Ready? && Covered(a, j) {
        assert a'.returned[|a.returned|] == j;
      } else {
        assert Holds(a'.threads[u], j);
      }
    } else {
      assert Holds(a'.threads[t], j);
    }
  }

  /** No index is lost: each one claimed so far was handed out or is still with its call. */
  lemma {:induction false} NoIndexLost(pageSize: nat, maxPages: nat, threads: nat, schedule: seq<nat>, j: nat)
    requires Valid(Init(pageSize, maxPages, threads), schedule)
    requires j < Run(Init(pageSize, maxPages, threads), schedule).next
    ensures Somewhere(Run(Init(pageSize, maxPages, threads), schedule), j)
  {
    if schedule != [] {
      var front, t := schedule[..|schedule| - 1], schedule[|schedule| - 1];
      var a := Run(Init(pageSize, maxPages, threads), front);
      if j < a.next {
        NoIndexLost(pageSize, maxPages, threads, front, j);
      }
      StaysSomewhere(a, t, j);
    }
  }

  /** The most steps a call can still take. */
  function Rank(p: Phase): nat {
    match p
    case Outside => 0
    case Claimed(_) => 3
    case Waiting(_) => 2
    case Ready(_) => 1
  }

  function OwnSteps(schedule: seq<nat>, t: nat): nat {
    if schedule == [] then 0
    else OwnSteps(schedule[..|schedule| - 1], t) + if schedule[|schedule| - 1] == t then 1 else 0
  }

  /** A call with an index, from any state on and under any schedule, either has handed it out, or still
      has it and is nearer to its return by each of its own steps; unless the process exits. */
  lemma {:induction false} CallReturns(a: Array, t: nat, i: nat, schedule: seq<nat>)
    requires Valid(a, schedule) && t < |a.threads| && Holds(a.threads[t], i)
    ensures var a' := Run(a, schedule);
            || a'.status != Running || i in a'.returned
            || (Holds(a'.threads[t], i) && Rank(a'.threads[t]) + OwnSteps(schedule, t) <= Rank(a.threads[t]))
    ensures OwnSteps(schedule, t) >= 3 ==> Run(a, schedule).status != Running || i in Run(a, schedule).returned
  {
    if schedule != [] {
      var front, u := schedule[..|schedule| - 1], schedule[|schedule| - 1];
      CallReturns(a, t, i, front);
      CallStep(Run(a, front), t, i, u);
    }
  }

  lemma CallStep(a: Array, t: nat, i: nat, u: nat)
    requires t < |a.threads| && u < |a.threads|
    ensures i in a.returned ==> i in Advance(a, u).returned
    ensures var a' := Advance(a, u);
            Holds(a.threads[t], i) && a'.status == Running ==>
              if u != t then a'.threads[t] == a.threads[t]
              else i in a'.returned || (Holds(a'.threads[t], i) && Rank(a'.threads[t]) < Rank(a.threads[t]))
  {
    var a' := Advance(a, u);
    if i in a.returned {
      var k :| 0 <= k < |a.returned| && a.returned[k] == i;
      assert a'.returned[k] == i;
    }
    if |a'.returned| > |a.returned| {
      assert a'.returned[|a.returned|] == a.threads[u].index;
    }
  }

  // ---- the bound on the threads is exact ----

  predicate Valid(a: Array, schedule: seq<nat>) {
    forall i :: 0 <= i < |schedule| ==> schedule[i] < |a.threads|
  }

  lemma RunSnoc(a: Array, schedule: seq<nat>, t: nat)
    requires Valid(a, schedule) && t < |a.threads|
    ensures Valid(a, schedule + [t]) && Run(a, schedule + [t]) == Advance(Run(a, schedule), t)
  {
    assert (schedule + [t])[..|schedule|] == schedule;
  }

  /** The first `n` threads hold consecutive indices from `from`, all claimed or all waiting;
      the others are outside. */
  predicate Batch(a: Array, n: nat, from: nat, waiting: bool) {
    n <= |a.threads| && forall k :: 0 <= k < |a.threads| ==>
      a.threads[k] == if k >= n then Outside else if waiting then Waiting(from + k) else Claimed(from + k)
  }

  predicate Quiet(a: Array) {
    a.status == Running && forall k :: 0 <= k < |a.threads| ==> a.threads[k] == Outside
  }

  /** One thread calls alone until the next index is `target`, all of them covered. */
  lemma {:induction false} SoloCalls(a0: Array, s0: seq<nat>, target: nat) returns (s: seq<nat>)
    requires Valid(a0, s0) && |a0.threads| > 0
    requires var a := Run(a0, s0); Quiet(a) && a.next <= target <= CurMaxIndex(a) && target <= MaxIndex(a)
    ensures Valid(a0, s)
    ensures var a, a' := Run(a0, s0), Run(a0, s);
            Quiet(a') && a' == a.(next := target, returned := a'.returned, threads := a'.threads)
    decreases target - Run(a0, s0).next
  {
    var a := Run(a0, s0);
    if a.next == target {
      return s0;
    }
    RunSnoc(a0, s0, 0);
    RunSnoc(a0, s0 + [0], 0);
    RunSnoc(a0, s0 + [0] + [0], 0);
    var a3 := Run(a0, s0 + [0] + [0] + [0]);
    s := SoloCalls(a0, s0 + [0] + [0] + [0], target);
  }

  /** The first `n` threads take the next `n` indices. */
  lemma {:induction false} AllClaim(a0: Array, s0: seq<nat>, n: nat) returns (s: seq<nat>)
    requires Valid(a0, s0) && n <= |a0.threads| && Quiet(Run(a0, s0))
    ensures Valid(a0, s)
    ensures var a, a' := Run(a0, s0), Run(a0, s);
            && a' == a.(next := a.next + n, threads := a'.threads)
            && Batch(a', n, a.next, false)
  {
    if n == 0 {
      return s0;
    }
    s := AllClaim(a0, s0, n - 1);
    RunSnoc(a0, s, n - 1);
    s := s + [n - 1];
  }

  /** All of them find their index not covered. */
  lemma {:induction false} AllWait(a0: Array, s0: seq<nat>, n: nat, m: nat, from: nat) returns (s: seq<nat>)
    requires Valid(a0, s0) && m <= n
    requires var a := Run(a0, s0);
             a.status == Running && Batch(a, n, from, false) && CurMaxIndex(a) <= from && from + n <= MaxIndex(a)
    ensures Valid(a0, s)
    ensures var a, a' := Run(a0, s0), Run(a0, s);
            && a' == a.(threads := a'.threads)
            && forall k :: 0 <= k < |a.threads| ==> a'.threads[k] == if k < m then Waiting(from + k) else a.threads[k]
  {
    if m == 0 {
      return s0;
    }
    s := AllWait(a0, s0, n, m - 1, from);
    RunSnoc(a0, s, m - 1);
    s := s + [m - 1];
  }

  /** Waiting threads whose indices got covered leave without opening a page. */
  lemma {:induction false} AllLeave(a0: Array, s0: seq<nat>, n: nat, m: nat, from: nat) returns (s: seq<nat>)
    requires Valid(a0, s0) && m <= n
    requires var a := Run(a0, s0);
             a.status == Running && Batch(a, n, from, true) && from + n <= CurMaxIndex(a)
    ensures Valid(a0, s)
    ensures var a, a' := Run(a0, s0), Run(a0, s);
            && a' == a.(threads := a'.threads, returned := a'.returned)
            && forall k :: 0 <= k < |a.threads| ==> a'.threads[k] == if k < m then Outside else a.threads[k]
  {
    if m == 0 {
      return s0;
    }
    s := AllLeave(a0, s0, n, m - 1, from);
    RunSnoc(a0, s, m - 1);
    RunSnoc(a0, s + [m - 1], m - 1);
    s := s + [m - 1] + [m - 1];
  }

  /** `n` threads claim together, and the last one opens a page first. */
  lemma LastOpens(a0: Array, s0: seq<nat>, n: nat) returns (s: seq<nat>)
    requires Valid(a0, s0) && 1 <= n <= |a0.threads| && Quiet(Run(a0, s0))
    requires var a := Run(a0, s0); CurMaxIndex(a) <= a.next && a.next + n <= MaxIndex(a) && a.pages < a.maxPages
    ensures Valid(a0, s)
    ensures var a, a' := Run(a0, s0), Run(a0, s);
            && a' == a.(next := a.next + n, pages := a.pages + 1, threads := a'.threads)
            && forall k :: 0 <= k < |a.threads| ==>
                 a'.threads[k] == if k < n - 1 then Waiting(a.next + k) else if k == n - 1 then Ready(a.next + k) else Outside
  {
    var from := Run(a0, s0).next;
    s := AllClaim(a0, s0, n);
    s := AllWait(a0, s, n, n, from);
    RunSnoc(a0, s, n - 1);
    s := s + [n - 1];
  }

  /** A round of one thread too many leaves the open pages one index short. */
  lemma ShortRound(pageSize: nat, maxPages: nat, threads: nat) returns (s: seq<nat>)
    requires 1 <= pageSize < threads && maxPages * pageSize >= 5 * pageSize && maxPages >= 5
    ensures Valid(Init(pageSize, maxPages, threads), s)
    ensures var a := Run(Init(pageSize, maxPages, threads), s);
            && Quiet(a) && a.pageSize == pageSize && a.maxPages == maxPages
            && a.pages == 2 && a.next == 2 * pageSize && |a.threads| == threads
  {
    var a0, n := Init(pageSize, maxPages, threads), pageSize + 1;
    s := SoloCalls(a0, [], pageSize - 1);
    s := LastOpens(a0, s, n);
    assert Run(a0, s).pages == 2;
    RunSnoc(a0, s, n - 1);
    s := s + [n - 1];
    s := AllLeave(a0, s, n - 1, n - 1, pageSize - 1);
  }

  /** With one thread more than objects in a page, some interleaving dereferences a page that
      is not open. */
  lemma TooManyThreadsStray(pageSize: nat, maxPages: nat, threads: nat) returns (s: seq<nat>)
    requires 1 <= pageSize < threads && maxPages >= 5
    ensures Valid(Init(pageSize, maxPages, threads), s)
    ensures Run(Init(pageSize, maxPages, threads), s).status == Stray
  {
    TimesMonotone(5, maxPages, pageSize);
    var a0, n := Init(pageSize, maxPages, threads), pageSize + 1;
    s := ShortRound(pageSize, maxPages, threads);
    s := LastOpens(a0, s, n);
    assert Run(a0, s).pages == 3;
    RunSnoc(a0, s, n - 1);
    s := s + [n - 1];
  }

  /** The condition on the threads is exact: all runs are safe iff a page holds at least as
      many objects as there are threads. */
  lemma SafeIffThreadsFit(pageSize: nat, maxPages: nat, threads: nat)
    requires 1 <= pageSize && maxPages >= 5
    ensures threads <= pageSize
            <==> forall s :: Valid(Init(pageSize, maxPages, threads), s)
                             ==> Run(Init(pageSize, maxPages, threads), s).status != Stray
  {
    if threads <= pageSize {
      forall s | Valid(Init(pageSize, maxPages, threads), s)
        ensures Run(Init(pageSize, maxPages, threads), s).status != Stray
      {
        RunIsSafe(pageSize, maxPages, threads, s);
      }
    } else {
      var s := TooManyThreadsStray(pageSize, maxPages, threads);
    }
  }
}
