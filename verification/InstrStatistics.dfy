/** The instruction-statistics client: per-handle execution counts from the block-end
    callbacks, and the selection of the largest counts at exit. */
module InstrStatistics {
  import opened Cct
  import opened CctHandles
  import opened BlockBuffer

  // ---- counting ----

  predicate Covers(call: Callback, h: nat) {
    call.start <= h < call.start + call.slots
  }

  function TimesCovered(log: seq<Callback>, h: nat): nat {
    if log == [] then 0 else
    TimesCovered(log[..|log| - 1], h) + if Covers(log[|log| - 1], h) then 1 else 0
  }

  /** `InstrumentPerBBCache`: every handle of the block is counted once. */
  method CountBlock(counts: array<nat>, call: Callback)
    requires call.start + call.slots <= counts.Length
    modifies counts
    ensures forall h :: 0 <= h < counts.Length ==> counts[h] == old(counts[h]) + if Covers(call, h) then 1 else 0
  {
    for i := 0 to call.slots
      invariant forall h :: 0 <= h < counts.Length ==>
                  counts[h] == old(counts[h]) + if call.start <= h < call.start + i then 1 else 0
    {
      counts[call.start + i] := counts[call.start + i] + 1;
    }
  }

  /** The counts once a whole log has been delivered to an initially zero buffer. */
  method CountLog(log: seq<Callback>, size: nat) returns (counts: array<nat>)
    requires forall i :: 0 <= i < |log| ==> log[i].start + log[i].slots <= size
    ensures fresh(counts) && counts.Length == size
    ensures forall h :: 0 <= h < size ==> counts[h] == TimesCovered(log, h)
  {
    counts := new nat[size](_ => 0);
    for i := 0 to |log|
      invariant forall h :: 0 <= h < size ==> counts[h] == TimesCovered(log[..i], h)
    {
      assert log[..i + 1][..i] == log[..i];
      CountBlock(counts, log[i]);
    }
    assert log[..|log|] == log;
  }

  /** How often a thread stood on `node` during its first `n` blocks, the root included. */
  ghost function Visits(shadows: seq<Shadow>, b: State, keys: seq<nat>, node: nat, n: nat): nat
    requires n <= |keys| + 1
  {
    if n == 0 then 0 else
    Visits(shadows, b, keys, node, n - 1) + if Visited(shadows, b, keys, n - 1) == node then 1 else 0
  }

  lemma {:induction false} CoveredIsVisited(shadows: seq<Shadow>, b: State, keys: seq<nat>, s: Store, log: seq<Callback>,
                                            h: nat, n: nat)
    requires Inv(shadows, s) && LogsVisits(shadows, b, keys, s, log) && FIRST_HANDLE <= h < s.idle && n <= |log|
    ensures TimesCovered(log[..n], h) == Visits(shadows, b, keys, s.owners[h].value, n)
  {
    if n > 0 {
      CoveredIsVisited(shadows, b, keys, s, log, h, n - 1);
      assert log[..n][..n - 1] == log[..n - 1];
      var node := Visited(shadows, b, keys, n - 1);
      assert AtNode(s, node, log[n - 1]);
      assert Owns(s, s.owners[h].value, h);
      if Covers(log[n - 1], h) {
        OwnerOfHandle(s, node, h);
      }
    }
  }

  /** The count of a handle is the number of times its block node was executed, so the counts
      do not depend on when the buffer was flushed. */
  lemma CountsAreExecutions(shadows: seq<Shadow>, b: State, keys: seq<nat>, s: Store, log: seq<Callback>, h: nat)
    requires Inv(shadows, s) && LogsVisits(shadows, b, keys, s, log) && FIRST_HANDLE <= h < s.idle
    ensures TimesCovered(log, h) == Visits(shadows, b, keys, s.owners[h].value, |keys| + 1)
  {
    CoveredIsVisited(shadows, b, keys, s, log, h, |log|);
    assert log[..|log|] == log;
  }

  // ---- the N largest counts ----

  datatype Row = Row(handle: nat, count: nat)

  /** Each non-zero row is a handle with its count, and no handle has two rows; the other rows
      are blank. */
  ghost predicate Rows(counts: seq<nat>, list: seq<Row>) {
    && (forall k :: 0 <= k < |list| && list[k].count == 0 ==> list[k].handle == 0)
    && (forall k :: 0 <= k < |list| && list[k].count > 0 ==>
          list[k].handle < |counts| && counts[list[k].handle] == list[k].count)
    && (forall k, l :: 0 <= k < |list| && 0 <= l < |list| && list[k].count > 0 && list[l].count > 0 && k != l ==>
          list[k].handle != list[l].handle)
  }

  ghost predicate Listed(list: seq<Row>, h: nat) {
    exists k :: 0 <= k < |list| && list[k].count > 0 && list[k].handle == h
  }

  /** No omitted count exceeds a kept one. */
  ghost predicate KeepsLargest(counts: seq<nat>, list: seq<Row>) {
    forall h, k :: 0 <= h < |counts| && 0 <= k < |list| && !Listed(list, h) ==> counts[h] <= list[k].count
  }

  ghost predicate IsTop(counts: seq<nat>, list: seq<Row>) {
    Rows(counts, list) && KeepsLargest(counts, list)
  }

  predicate Descending(list: seq<Row>) {
    forall k, l :: 0 <= k < l < |list| ==> list[k].count >= list[l].count
  }

  /** The list after `count` replaced the smallest row, which `low` is, at the cost of the row
      `m` moving to the front. */
  function Replaced(list: seq<Row>, m: nat, row: Row): seq<Row>
    requires m < |list|
  {
    list[0 := list[m]][m := row]
  }

  lemma ReplacedListed(list: seq<Row>, m: nat, row: Row, h: nat)
    requires m < |list| && row.count > 0
    ensures Listed(Replaced(list, m, row), h) ==> Listed(list, h) || h == row.handle
    ensures Listed(list, h) && !(list[0].count > 0 && list[0].handle == h) ==> Listed(Replaced(list, m, row), h)
    ensures Listed(Replaced(list, m, row), row.handle)
  {
    var after := Replaced(list, m, row);
    assert after[m] == row;
    if k :| 0 <= k < |list| && list[k].count > 0 && list[k].handle == h && k != 0 {
      if k == m { assert after[0] == list[k]; } else { assert after[k] == list[k]; }
    }
    if k :| 0 <= k < |list| && after[k].count > 0 && after[k].handle == h {
      assert k == m || after[k] == list[if k == 0 then m else k];
    }
  }

  /** What the scan knows when it replaces: row 0 is a smallest one, and `m` is where the
      smallest of the other rows is, or 0 if none of them is below the new count. */
  ghost predicate Chosen(list: seq<Row>, m: nat, count: nat) {
    && m < |list| && count > list[0].count
    && (forall k :: 0 <= k < |list| ==> list[0].count <= list[k].count)
    && (forall k :: 0 < k < |list| ==> (if m == 0 then count else list[m].count) <= list[k].count)
    && (m == 0 || list[m].count < count)
  }

  lemma ReplacedMinimum(list: seq<Row>, m: nat, row: Row)
    requires Chosen(list, m, row.count)
    ensures var after := Replaced(list, m, row);
            forall k :: 0 <= k < |after| ==> list[0].count <= after[0].count <= after[k].count
  {
  }

  lemma ReplacedRows(counts: seq<nat>, list: seq<Row>, m: nat, count: nat)
    requires Rows(counts, list) && m < |list| && count > 0
    ensures Rows(counts + [count], Replaced(list, m, Row(|counts|, count)))
  {
  }

  /** One count of the scan: it enters the list iff it exceeds the smallest kept one. */
  lemma ReplacedIsTop(counts: seq<nat>, list: seq<Row>, m: nat, count: nat)
    requires Chosen(list, m, count) && IsTop(counts, list)
    ensures var after := Replaced(list, m, Row(|counts|, count));
            && IsTop(counts + [count], after)
            && forall k :: 0 <= k < |after| ==> after[0].count <= after[k].count
  {
    var after := Replaced(list, m, Row(|counts|, count));
    ReplacedMinimum(list, m, Row(|counts|, count));
    ReplacedRows(counts, list, m, count);
    forall h, k | 0 <= h < |counts| + 1 && 0 <= k < |after| && !Listed(after, h)
      ensures (counts + [count])[h] <= after[k].count
    {
      ReplacedListed(list, m, Row(|counts|, count), h);
      if !Listed(list, h) {
        assert counts[h] <= list[0].count;
      }
    }
  }

  lemma SkippedIsTop(counts: seq<nat>, list: seq<Row>, count: nat)
    requires |list| > 0 && IsTop(counts, list) && count <= list[0].count
    requires forall k :: 0 <= k < |list| ==> list[0].count <= list[k].count
    ensures IsTop(counts + [count], list)
  {
  }

  /** The inner scan: where the smallest of the other rows is, if one is below the new count. */
  method FindSmallest(list: array<Row>, count: nat) returns (minCount: nat, minIdx: nat)
    requires list.Length > 0 && count > list[0].count
    requires forall k :: 0 <= k < list.Length ==> list[0].count <= list[k].count
    ensures Chosen(list[..], minIdx, count)
    ensures minCount == if minIdx == 0 then count else list[minIdx].count
  {
    minCount, minIdx := count, 0;
    for j := 1 to list.Length
      invariant minIdx < j && minCount == (if minIdx == 0 then count else list[minIdx].count) <= count
      invariant minIdx != 0 ==> minCount < count
      invariant forall k :: 0 < k < j ==> minCount <= list[k].count
    {
      if list[j].count < minCount {
        minCount, minIdx := list[j].count, j;
      }
    }
  }

  predicate SmallestFirst(list: seq<Row>) {
    forall k :: 0 <= k < |list| ==> list[0].count <= list[k].count
  }

  /** One handle of the scan. */
  method ScanHandle(counts: seq<nat>, count: nat, list: array<Row>)
    requires list.Length > 0 && IsTop(counts, list[..]) && SmallestFirst(list[..])
    modifies list
    ensures IsTop(counts + [count], list[..]) && SmallestFirst(list[..])
  {
    ghost var before := list[..];
    if count > 0 && count > list[0].count {
      assert forall k :: 0 <= k < list.Length ==> list[k] == before[k];
      var minCount, minIdx := FindSmallest(list, count);
      ReplacedIsTop(counts, before, minIdx, count);
      list[0] := Row(list[minIdx].handle, minCount);
      list[minIdx] := Row(|counts|, count);
      assert list[..] == Replaced(before, minIdx, Row(|counts|, count));
    } else {
      SkippedIsTop(counts, before, count);
    }
  }

  /** The scan over all handles in `ClientExit`. */
  method SelectTop(counts: seq<nat>, list: array<Row>)
    requires list.Length > 0 && forall k :: 0 <= k < list.Length ==> list[k] == Row(0, 0)
    modifies list
    ensures IsTop(counts, list[..])
  {
    for i := 0 to |counts|
      invariant IsTop(counts[..i], list[..]) && SmallestFirst(list[..])
    {
      assert counts[..i + 1] == counts[..i] + [counts[i]];
      ScanHandle(counts[..i], counts[i], list);
    }
    assert counts[..|counts|] == counts;
  }

  // ---- the exchange sort ----

  function Swapped(list: seq<Row>, i: nat, j: nat): seq<Row>
    requires i < |list| && j < |list|
  {
    list[i := list[j]][j := list[i]]
  }

  lemma SwapKeepsListed(list: seq<Row>, i: nat, j: nat, h: nat)
    requires i < |list| && j < |list| && Listed(list, h)
    ensures Listed(Swapped(list, i, j), h)
  {
    var k :| 0 <= k < |list| && list[k].count > 0 && list[k].handle == h;
    assert Swapped(list, i, j)[if k == i then j else if k == j then i else k] == list[k];
  }

  lemma SwapKeepsRows(counts: seq<nat>, list: seq<Row>, i: nat, j: nat)
    requires i < |list| && j < |list| && Rows(counts, list)
    ensures Rows(counts, Swapped(list, i, j))
  {
  }

  lemma SwapKeepsTop(counts: seq<nat>, list: seq<Row>, i: nat, j: nat)
    requires i < |list| && j < |list| && IsTop(counts, list)
    ensures IsTop(counts, Swapped(list, i, j))
  {
    var after := Swapped(list, i, j);
    SwapKeepsRows(counts, list, i, j);
    forall h, k | 0 <= h < |counts| && 0 <= k < |after| && !Listed(after, h) ensures counts[h] <= after[k].count {
      if Listed(list, h) {
        SwapKeepsListed(list, i, j, h);
      } else {
        assert counts[h] <= list[if k == i then j else if k == j then i else k].count;
      }
    }
  }

  /** Rows before `i` are in place: sorted, and no smaller than any row from `i` on. */
  predicate Settled(list: seq<Row>, i: nat) {
    forall k, l :: 0 <= k < i && k < l < |list| ==> list[k].count >= list[l].count
  }

  /** Row `i` is the largest of rows `i` to `j - 1`. */
  predicate Leads(list: seq<Row>, i: nat, j: nat)
    requires i < |list| && j <= |list|
  {
    forall l :: i <= l < j ==> list[i].count >= list[l].count
  }

  lemma SwapSettles(list: seq<Row>, i: nat, j: nat)
    requires i <= j < |list| && Settled(list, i) && Leads(list, i, j) && list[i].count < list[j].count
    ensures Settled(Swapped(list, i, j), i) && Leads(Swapped(list, i, j), i, j + 1)
  {
  }

  /** The sort of `ClientExit`: row i is exchanged with every later larger row. */
  method SortRows(list: array<Row>, ghost counts: seq<nat>)
    requires IsTop(counts, list[..])
    modifies list
    ensures IsTop(counts, list[..]) && Descending(list[..])
  {
    for i := 0 to list.Length
      invariant IsTop(counts, list[..]) && Settled(list[..], i)
    {
      for j := i to list.Length
        invariant IsTop(counts, list[..]) && Settled(list[..], i) && Leads(list[..], i, j)
      {
        ghost var before := list[..];
        if list[i].count < list[j].count {
          SwapKeepsTop(counts, before, i, j);
          SwapSettles(before, i, j);
          list[i], list[j] := list[j], list[i];
          assert list[..] == Swapped(before, i, j);
        } else {
          assert before[i].count >= before[j].count;
        }
      }
      LeadingSettles(list[..], i);
    }
  }

  lemma LeadingSettles(list: seq<Row>, i: nat)
    requires i < |list| && Settled(list, i) && Leads(list, i, |list|)
    ensures Settled(list, i + 1)
  {
  }

  // ---- what being the top list means ----

  /** The handles of the rows before `n`. */
  function Handles(list: seq<Row>, n: nat): set<nat>
    requires n <= |list|
  {
    if n == 0 then {} else Handles(list, n - 1) + {list[n - 1].handle}
  }

  lemma {:induction false} HandlesMember(list: seq<Row>, n: nat, h: nat)
    requires n <= |list|
    ensures h in Handles(list, n) <==> exists k :: 0 <= k < n && list[k].handle == h
  {
    if n > 0 {
      HandlesMember(list, n - 1, h);
    }
  }

  lemma {:induction false} HandlesCount(counts: seq<nat>, list: seq<Row>, n: nat)
    requires Rows(counts, list) && n <= |list|
    ensures |Handles(list, n)| <= n
    ensures (forall k :: 0 <= k < n ==> list[k].count > 0) ==> |Handles(list, n)| == n
  {
    if n > 0 {
      HandlesCount(counts, list, n - 1);
      HandlesMember(list, n - 1, list[n - 1].handle);
    }
  }

  lemma SubsetSize<T>(a: set<T>, b: set<T>)
    requires a <= b
    ensures |a| <= |b|
  {
    if a != {} {
      var x :| x in a;
      SubsetSize(a - {x}, b - {x});
    }
  }

  /** A handle with a larger count than a row of a sorted top list has an earlier row there. */
  lemma LargerIsEarlier(counts: seq<nat>, top: seq<Row>, k: nat, h: nat)
    requires IsTop(counts, top) && Descending(top) && k < |top| && h < |counts| && counts[h] > top[k].count
    ensures h in Handles(top, k)
  {
    HandlesMember(top, k, h);
    assert Listed(top, h);
    var i :| 0 <= i < |top| && top[i].count > 0 && top[i].handle == h;
    assert i < k;
  }

  /** The k-th count of a sorted top list is at least that of any other list of rows. */
  lemma TopDominates(counts: seq<nat>, top: seq<Row>, other: seq<Row>, k: nat)
    requires IsTop(counts, top) && Descending(top) && Rows(counts, other) && Descending(other)
    requires k < |top| && k < |other|
    ensures top[k].count >= other[k].count
  {
    HandlesCount(counts, other, k + 1);
    HandlesCount(counts, top, k);
    if top[k].count < other[k].count {
      forall h | h in Handles(other, k + 1) ensures h in Handles(top, k) {
        HandlesMember(other, k + 1, h);
        var l :| 0 <= l < k + 1 && other[l].handle == h;
        assert other[l].count >= other[k].count;
        LargerIsEarlier(counts, top, k, h);
      }
      SubsetSize(Handles(other, k + 1), Handles(top, k));
    }
  }

  /** Top lists of the same length show the same counts, row by row: the counts kept are the N
      largest as a multiset, however ties between handles are broken. */
  lemma TopIsUnique(counts: seq<nat>, a: seq<Row>, b: seq<Row>)
    requires IsTop(counts, a) && Descending(a) && IsTop(counts, b) && Descending(b) && |a| == |b|
    ensures forall k :: 0 <= k < |a| ==> a[k].count == b[k].count
  {
    forall k | 0 <= k < |a| ensures a[k].count == b[k].count {
      TopDominates(counts, a, b, k);
      TopDominates(counts, b, a, k);
    }
  }

  const TOP_REACH_NUM_SHOW: nat := 200

  /** What the client prints: all of the largest counts, as many as there are rows for. */
  ghost predicate IsReport(counts: seq<nat>, printed: seq<Row>, size: nat) {
    && |printed| <= size && Descending(printed) && Rows(counts, printed)
    && (forall k :: 0 <= k < |printed| ==> printed[k].count > 0)
    && forall h :: 0 <= h < |counts| && !Listed(printed, h) ==>
         counts[h] == 0 || (|printed| == size && forall k :: 0 <= k < size ==> counts[h] <= printed[k].count)
  }

  lemma PrefixListed(list: seq<Row>, n: nat, h: nat)
    requires n <= |list| && (forall k :: n <= k < |list| ==> list[k].count == 0) && Listed(list, h)
    ensures Listed(list[..n], h)
  {
    var k :| 0 <= k < |list| && list[k].count > 0 && list[k].handle == h;
    assert list[..n][k] == list[k];
  }

  /** Cutting a sorted top list at its first blank row loses nothing. */
  lemma PrintedPart(counts: seq<nat>, list: seq<Row>, n: nat)
    requires |counts| > 0 && counts[0] == 0 && IsTop(counts, list) && Descending(list) && n <= |list|
    requires forall k :: 0 <= k < n ==> list[k].handle != 0
    requires n < |list| ==> list[n].handle == 0
    ensures IsReport(counts, list[..n], |list|)
  {
    var printed := list[..n];
    assert forall k :: 0 <= k < n ==> printed[k] == list[k] && list[k].count > 0;
    assert forall k :: n <= k < |list| ==> list[k].count <= list[n].count == 0;
    forall h | 0 <= h < |counts| && !Listed(printed, h)
      ensures counts[h] == 0 || (n == |list| && forall k :: 0 <= k < n ==> counts[h] <= printed[k].count)
    {
      if Listed(list, h) {
        PrefixListed(list, n, h);
      }
    }
  }

  method PrintedRows(list: array<Row>) returns (n: nat)
    ensures n <= list.Length
    ensures forall k :: 0 <= k < n ==> list[k].handle != 0
    ensures n < list.Length ==> list[n].handle == 0
  {
    n := 0;
    while n < list.Length && list[n].handle != 0
      invariant n <= list.Length
      invariant forall k :: 0 <= k < n ==> list[k].handle != 0
    {
      n := n + 1;
    }
  }

  /** `ClientExit`: the rows it prints are those before the first one without a handle. */
  method ClientExit(counts: seq<nat>) returns (printed: seq<Row>)
    requires |counts| > 0 && counts[0] == 0
    ensures IsReport(counts, printed, TOP_REACH_NUM_SHOW)
  {
    var list := new Row[TOP_REACH_NUM_SHOW](_ => Row(0, 0));
    SelectTop(counts, list);
    SortRows(list, counts);
    var n := PrintedRows(list);
    PrintedPart(counts, list[..], n);
    printed := list[..][..n];
  }
}
