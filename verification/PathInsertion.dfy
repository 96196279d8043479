/** Selected call paths inserted into the viewer's trie, with their metrics. */
module PathInsertion {
  import opened Cct
  import opened CctHandles
  import opened CctFlatten
  import T = FmtTrie

  /** `HPCRunCCT_t`: the call paths to join, outermost first, and the metrics of their end. */
  datatype RunNode = RunNode(handles: seq<nat>, metrics: seq<nat>)

  const INVALID_HANDLE: nat := 0

  ghost predicate GoodHandles(s: Store, handles: seq<nat>) {
    forall k :: 0 <= k < |handles| ==> handles[k] == INVALID_HANDLE || FIRST_HANDLE <= handles[k] < s.idle
  }

  /** The joined path of program counters; it ends before an invalid handle. */
  ghost function FullPath(shadows: seq<Shadow>, s: Store, handles: seq<nat>): seq<int>
    requires Inv(shadows, s) && GoodHandles(s, handles)
  {
    if handles == [] || handles[0] == INVALID_HANDLE then []
    else PcPath(shadows, s, handles[0]) + FullPath(shadows, s, handles[1..])
  }

  ghost predicate GoodRuns(s: Store, runs: seq<RunNode>, metricNum: nat) {
    forall k :: 0 <= k < |runs| ==> GoodHandles(s, runs[k].handles) && |runs[k].metrics| <= metricNum
  }

  // ---- the insertions as a function on path maps ----

  ghost function InsertRun(shadows: seq<Shadow>, s: Store, v: T.View, run: RunNode, metricNum: nat): T.View
    requires Inv(shadows, s) && GoodHandles(s, run.handles)
  {
    if run.handles == [] then v else T.InsertView(v, FullPath(shadows, s, run.handles), run.metrics, metricNum)
  }

  ghost function InsertRuns(shadows: seq<Shadow>, s: Store, v: T.View, runs: seq<RunNode>, metricNum: nat): T.View
    requires Inv(shadows, s) && GoodRuns(s, runs, metricNum)
  {
    if runs == [] then v else
    var last := |runs| - 1;
    InsertRun(shadows, s, InsertRuns(shadows, s, v, runs[..last], metricNum), runs[last], metricNum)
  }

  /** Some run leads through the path. */
  ghost predicate Covered(shadows: seq<Shadow>, s: Store, runs: seq<RunNode>, p: seq<int>)
    requires Inv(shadows, s) && forall k :: 0 <= k < |runs| ==> GoodHandles(s, runs[k].handles)
  {
    exists k :: 0 <= k < |runs| && runs[k].handles != [] && p <= FullPath(shadows, s, runs[k].handles)
  }

  function RunMetric(run: RunNode, j: nat): nat {
    if run.handles != [] && j < |run.metrics| then run.metrics[j] else 0
  }

  /** Metric `j` of the runs that end exactly at the path. */
  ghost function SumAt(shadows: seq<Shadow>, s: Store, runs: seq<RunNode>, p: seq<int>, j: nat): nat
    requires Inv(shadows, s) && forall k :: 0 <= k < |runs| ==> GoodHandles(s, runs[k].handles)
  {
    if runs == [] then 0 else
    var last := |runs| - 1;
    SumAt(shadows, s, runs[..last], p, j)
    + if FullPath(shadows, s, runs[last].handles) == p then RunMetric(runs[last], j) else 0
  }

  function SumAll(runs: seq<RunNode>, j: nat): nat {
    if runs == [] then 0 else SumAll(runs[..|runs| - 1], j) + RunMetric(runs[|runs| - 1], j)
  }

  /** One insertion adds exactly the prefixes of its path, and the metrics exactly at its end. */
  lemma InsertViewAt(v: T.View, path: seq<int>, metrics: seq<nat>, metricNum: nat, p: seq<int>)
    requires [] in v && |metrics| <= metricNum && forall q :: q in v ==> |v[q]| == metricNum
    ensures var v' := T.InsertView(v, path, metrics, metricNum);
            && (p in v' <==> p in v || p <= path)
            && (p in v' ==> |v'[p]| == metricNum)
            && (p in v' ==> forall j: nat :: j < metricNum ==>
                  v'[p][j] == (if p in v then v[p][j] else 0) + if p == path && j < |metrics| then metrics[j] else 0)
  {
    T.TouchAllAt(v, [], path, metricNum, p);
    T.TouchAllAt(v, [], path, metricNum, path);
    assert forall k :: 0 <= k <= |path| ==> [] + path[..k] == path[..k];
    assert path[..|path|] == path;
    if p <= path && p != [] {
      assert p == [] + path[..|p|];
    }
  }

  ghost predicate AllLong(v: T.View, metricNum: nat) {
    [] in v && forall q :: q in v ==> |v[q]| == metricNum
  }

  lemma InsertViewLong(v: T.View, path: seq<int>, metrics: seq<nat>, metricNum: nat)
    requires AllLong(v, metricNum) && |metrics| <= metricNum
    ensures AllLong(T.InsertView(v, path, metrics, metricNum), metricNum)
  {
    var v' := T.InsertView(v, path, metrics, metricNum);
    forall p | p in v' ensures |v'[p]| == metricNum {
      InsertViewAt(v, path, metrics, metricNum, p);
    }
    InsertViewAt(v, path, metrics, metricNum, []);
  }

  lemma {:induction false} InsertRunsLong(shadows: seq<Shadow>, s: Store, runs: seq<RunNode>, metricNum: nat)
    requires Inv(shadows, s) && GoodRuns(s, runs, metricNum)
    ensures AllLong(InsertRuns(shadows, s, map[[] := T.Zeros(metricNum)], runs, metricNum), metricNum)
  {
    if runs != [] {
      var last := |runs| - 1;
      InsertRunsLong(shadows, s, runs[..last], metricNum);
      if runs[last].handles != [] {
        InsertViewLong(InsertRuns(shadows, s, map[[] := T.Zeros(metricNum)], runs[..last], metricNum),
                       FullPath(shadows, s, runs[last].handles), runs[last].metrics, metricNum);
      }
    }
  }

  /** After any runs the paths are the prefix closure of the inserted ones, and every metric is
      the sum of those inserted exactly there. */
  lemma {:induction false} InsertRunsAt(shadows: seq<Shadow>, s: Store, runs: seq<RunNode>, metricNum: nat, p: seq<int>, j: nat)
    requires Inv(shadows, s) && GoodRuns(s, runs, metricNum)
    ensures var v := InsertRuns(shadows, s, map[[] := T.Zeros(metricNum)], runs, metricNum);
            && (p in v <==> p == [] || Covered(shadows, s, runs, p))
            && (p in v ==> |v[p]| == metricNum && (j < metricNum ==> v[p][j] == SumAt(shadows, s, runs, p, j)))
            && (p !in v ==> SumAt(shadows, s, runs, p, j) == 0)
  {
    if runs != [] {
      var last := |runs| - 1;
      var front := runs[..last];
      InsertRunsAt(shadows, s, front, metricNum, p, j);
      InsertRunsLong(shadows, s, front, metricNum);
      CoveredSnoc(shadows, s, runs, p);
      if runs[last].handles != [] {
        InsertViewAt(InsertRuns(shadows, s, map[[] := T.Zeros(metricNum)], front, metricNum),
                     FullPath(shadows, s, runs[last].handles), runs[last].metrics, metricNum, p);
      }
    }
  }

  lemma CoveredSnoc(shadows: seq<Shadow>, s: Store, runs: seq<RunNode>, p: seq<int>)
    requires Inv(shadows, s) && runs != [] && forall k :: 0 <= k < |runs| ==> GoodHandles(s, runs[k].handles)
    ensures var last := |runs| - 1;
            Covered(shadows, s, runs, p)
            <==> (Covered(shadows, s, runs[..last], p)
                  || (runs[last].handles != [] && p <= FullPath(shadows, s, runs[last].handles)))
  {
    var front := runs[..|runs| - 1];
    if Covered(shadows, s, front, p) {
      var k :| 0 <= k < |front| && front[k].handles != [] && p <= FullPath(shadows, s, front[k].handles);
      assert runs[k] == front[k];
    }
    if Covered(shadows, s, runs, p) {
      var k :| 0 <= k < |runs| && runs[k].handles != [] && p <= FullPath(shadows, s, runs[k].handles);
      assert k < |front| ==> runs[k] == front[k];
    }
  }

  // ---- the insertion of one run ----

  /** `walked` is what the handles before `i` contribute to the joined path. */
  ghost predicate LeadsOn(shadows: seq<Shadow>, s: Store, handles: seq<nat>, i: nat, walked: seq<int>)
    requires Inv(shadows, s) && GoodHandles(s, handles)
  {
    i <= |handles| && walked + FullPath(shadows, s, handles[i..]) == FullPath(shadows, s, handles)
  }

  lemma LeadsOnStart(shadows: seq<Shadow>, s: Store, handles: seq<nat>)
    requires Inv(shadows, s) && GoodHandles(s, handles)
    ensures LeadsOn(shadows, s, handles, 0, [])
  {
    assert handles[0..] == handles;
  }

  lemma LeadsOnNext(shadows: seq<Shadow>, s: Store, handles: seq<nat>, i: nat, walked: seq<int>)
    requires Inv(shadows, s) && GoodHandles(s, handles) && LeadsOn(shadows, s, handles, i, walked)
    requires i < |handles| && handles[i] != INVALID_HANDLE
    ensures LeadsOn(shadows, s, handles, i + 1, walked + PcPath(shadows, s, handles[i]))
  {
    var h, rest := handles[i], handles[i + 1..];
    FullPathCons(shadows, s, handles[i..]);
    assert handles[i..][0] == h && handles[i..][1..] == rest;
    var step, tail := PcPath(shadows, s, h), FullPath(shadows, s, rest);
    assert walked + (step + tail) == (walked + step) + tail;
  }

  lemma FullPathCons(shadows: seq<Shadow>, s: Store, handles: seq<nat>)
    requires Inv(shadows, s) && GoodHandles(s, handles) && handles != [] && handles[0] != INVALID_HANDLE
    ensures FullPath(shadows, s, handles) == PcPath(shadows, s, handles[0]) + FullPath(shadows, s, handles[1..])
  {
  }

  lemma LeadsOnEnd(shadows: seq<Shadow>, s: Store, handles: seq<nat>, i: nat, walked: seq<int>)
    requires Inv(shadows, s) && GoodHandles(s, handles) && LeadsOn(shadows, s, handles, i, walked)
    requires i == |handles| || handles[i] == INVALID_HANDLE
    ensures walked == FullPath(shadows, s, handles)
  {
    assert FullPath(shadows, s, handles[i..]) == [];
  }

  /** From `n0` and `v0` the trie has been walked down to `cur`, along the path `walked`. */
  ghost predicate HasWalked(t: T.Trie, n0: seq<T.FmtNode>, v0: T.View, cur: nat, walked: seq<int>)
    reads t
  {
    && t.Valid() && T.Grown(n0, t.nodes) && cur < |t.nodes| && T.Path(t.nodes, cur) == walked
    && t.view == T.TouchAll(v0, [], walked, t.metricNum)
  }

  /** The outer loop of `hpcrun_insert_path`: each handle's calling vector continues the path. */
  method WalkHandles(shadows: seq<Shadow>, s: Store, t: T.Trie, handles: seq<nat>) returns (cur: nat)
    requires Inv(shadows, s) && GoodHandles(s, handles) && t.Valid()
    modifies t`nodes, t`nodeCount, t`lastId, t`view
    ensures t.Valid() && T.Grown(old(t.nodes), t.nodes) && cur < |t.nodes|
    ensures T.Path(t.nodes, cur) == FullPath(shadows, s, handles)
    ensures t.view == T.TouchAll(old(t.view), [], FullPath(shadows, s, handles), t.metricNum)
  {
    cur := 0;
    ghost var walked: seq<int> := [];
    ghost var n0, v0 := t.nodes, t.view;
    LeadsOnStart(shadows, s, handles);
    var i: nat := 0;
    while i < |handles| && handles[i] != INVALID_HANDLE
      invariant LeadsOn(shadows, s, handles, i, walked) && HasWalked(t, n0, v0, cur, walked)
      decreases |handles| - i
    {
      LeadsOnNext(shadows, s, handles, i, walked);
      cur, walked := WalkHandle(shadows, s, t, cur, handles[i], n0, v0, walked);
      i := i + 1;
    }
    LeadsOnEnd(shadows, s, handles, i, walked);
  }

  method WalkHandle(shadows: seq<Shadow>, s: Store, t: T.Trie, start: nat, h: nat,
                    ghost n0: seq<T.FmtNode>, ghost v0: T.View, ghost walked: seq<int>)
    returns (cur: nat, ghost walked': seq<int>)
    requires Inv(shadows, s) && FIRST_HANDLE <= h < s.idle
    requires HasWalked(t, n0, v0, start, walked)
    modifies t`nodes, t`nodeCount, t`lastId, t`view
    ensures HasWalked(t, n0, v0, cur, walked') && walked' == walked + PcPath(shadows, s, h)
  {
    var list := GetFullCallingIpVector(shadows, s, h);
    T.TouchAllAppend(v0, [], walked, T.Reversed(list), t.metricNum);
    assert [] + walked == walked;
    ghost var n1 := t.nodes;
    cur := t.WalkVector(start, list);
    T.GrownTrans(n0, n1, t.nodes);
    walked' := walked + T.Reversed(list);
  }

  /** What one insertion does to a trie's nodes. */
  ghost predicate Inserted(ns: seq<T.FmtNode>, ns': seq<T.FmtNode>, run: RunNode) {
    && T.KeepsIds(ns, ns')
    && forall j: nat :: T.Total(ns', j) == T.Total(ns, j) + RunMetric(run, j)
  }

  /** Walking and then adding the metrics at one node make up an insertion. */
  lemma WalkAndAdd(ns: seq<T.FmtNode>, ns1: seq<T.FmtNode>, ns2: seq<T.FmtNode>, run: RunNode)
    requires T.Grown(ns, ns1) && T.Extends(ns1, ns2) && |ns2| == |ns1| && run.handles != []
    requires forall i :: 0 <= i < |ns2| ==> ns2[i] == ns1[i].(metrics := ns2[i].metrics)
    requires forall j: nat :: T.Total(ns2, j) == T.Total(ns1, j) + if j < |run.metrics| then run.metrics[j] else 0
    ensures Inserted(ns, ns2, run)
  {
    T.ExtendsTrans(ns, ns1, ns2);
    forall j: nat ensures T.Total(ns2, j) == T.Total(ns, j) + RunMetric(run, j) {
      T.GrownTotal(ns, ns1, j);
    }
  }

  /** `hpcrun_insert_path` */
  method InsertPath(shadows: seq<Shadow>, s: Store, t: T.Trie, run: RunNode)
    requires Inv(shadows, s) && GoodHandles(s, run.handles) && t.Valid() && |run.metrics| <= t.metricNum
    modifies t`nodes, t`nodeCount, t`lastId, t`view
    ensures t.Valid() && Inserted(old(t.nodes), t.nodes, run)
    ensures t.view == InsertRun(shadows, s, old(t.view), run, t.metricNum)
  {
    if run.handles == [] {
      return;
    }
    ghost var n0 := t.nodes;
    var cur := WalkHandles(shadows, s, t, run.handles);
    ghost var n1 := t.nodes;
    assert T.Shown(t.nodes, t.view, cur);
    t.AddMetrics(cur, run.metrics);
    WalkAndAdd(n0, n1, t.nodes, run);
  }

  lemma InsertedNext(a: seq<T.FmtNode>, b: seq<T.FmtNode>, c: seq<T.FmtNode>, runs: seq<RunNode>, k: nat)
    requires k < |runs| && T.KeepsIds(a, b) && Inserted(b, c, runs[k])
    requires forall j: nat :: T.Total(b, j) == T.Total(a, j) + SumAll(runs[..k], j)
    ensures T.KeepsIds(a, c) && forall j: nat :: T.Total(c, j) == T.Total(a, j) + SumAll(runs[..k + 1], j)
  {
    T.KeepsIdsTrans(a, b, c);
    assert runs[..k + 1][..k] == runs[..k];
  }

  method InsertList(shadows: seq<Shadow>, s: Store, t: T.Trie, runs: seq<RunNode>)
    requires Inv(shadows, s) && t.Valid() && GoodRuns(s, runs, t.metricNum)
    modifies t`nodes, t`nodeCount, t`lastId, t`view
    ensures t.Valid() && T.KeepsIds(old(t.nodes), t.nodes)
    ensures t.view == InsertRuns(shadows, s, old(t.view), runs, t.metricNum)
    ensures forall j: nat :: T.Total(t.nodes, j) == T.Total(old(t.nodes), j) + SumAll(runs, j)
  {
    ghost var n0 := t.nodes;
    for k := 0 to |runs|
      invariant t.Valid() && T.KeepsIds(n0, t.nodes)
      invariant t.view == InsertRuns(shadows, s, old(t.view), runs[..k], t.metricNum)
      invariant forall j: nat :: T.Total(t.nodes, j) == T.Total(n0, j) + SumAll(runs[..k], j)
    {
      ghost var n1 := t.nodes;
      assert runs[..k + 1][..k] == runs[..k];
      InsertPath(shadows, s, t, runs[k]);
      InsertedNext(n0, n1, t.nodes, runs, k);
    }
    assert runs[..|runs|] == runs;
  }

  /** `build_progress_custom_cct_hpurun_format`: a fresh trie, all runs, then the leaf reset. */
  method BuildCustomCct(shadows: seq<Shadow>, s: Store, runs: seq<RunNode>, metricNum: nat, lastId: nat) returns (t: T.Trie)
    requires Inv(shadows, s) && GoodRuns(s, runs, metricNum)
    ensures fresh(t) && t.Valid() && t.metricNum == metricNum && t.nodeCount == |t.nodes|
    ensures t.view == InsertRuns(shadows, s, map[[] := T.Zeros(metricNum)], runs, metricNum)
    ensures forall j: nat :: T.Total(t.nodes, j) == SumAll(runs, j)
    ensures forall i :: 0 <= i < |t.nodes| ==> (t.nodes[i].id < 0 <==> t.nodes[i].children == [])
  {
    t := new T.Trie(metricNum, lastId, 0);
    RootTotal(t.nodes);
    InsertList(shadows, s, t, runs);
    ghost var before := t.nodes;
    t.ResetLeafNodeId(0);
    T.ResetMarksLeaves(before, t.nodes);
    forall j: nat ensures T.Total(t.nodes, j) == T.Total(before, j) {
      SameButIdsTotal(before, t.nodes, j);
    }
  }

  lemma RootTotal(ns: seq<T.FmtNode>)
    requires |ns| == 1 && ns[0].metrics == T.Zeros(|ns[0].metrics|)
    ensures forall j: nat :: T.Total(ns, j) == 0
  {
    assert ns[..0] == [];
  }

  lemma {:induction false} SameButIdsTotal(ns: seq<T.FmtNode>, ns': seq<T.FmtNode>, j: nat)
    requires T.SameButIds(ns, ns')
    ensures T.Total(ns', j) == T.Total(ns, j)
  {
    if ns != [] {
      var last := |ns| - 1;
      SameButIdsTotal(ns[..last], ns'[..last], j);
    }
  }

  /** What the view says about the nodes of a built trie: its paths are the prefix closure of
      the inserted ones. */
  lemma BuiltPaths(shadows: seq<Shadow>, s: Store, runs: seq<RunNode>, metricNum: nat, ns: seq<T.FmtNode>, v: T.View, p: seq<int>)
    requires Inv(shadows, s) && GoodRuns(s, runs, metricNum) && T.Linked(ns) && T.Views(ns, v)
    requires v == InsertRuns(shadows, s, map[[] := T.Zeros(metricNum)], runs, metricNum)
    ensures T.HasPath(ns, p) <==> p == [] || Covered(shadows, s, runs, p)
  {
    InsertRunsAt(shadows, s, runs, metricNum, p, 0);
    if T.HasPath(ns, p) {
      var i :| 0 <= i < |ns| && T.Path(ns, i) == p;
      assert T.Shown(ns, v, i);
    }
  }

  /** Each node's metrics are the sums of those inserted exactly at its path. */
  lemma BuiltMetrics(shadows: seq<Shadow>, s: Store, runs: seq<RunNode>, metricNum: nat, ns: seq<T.FmtNode>, v: T.View,
                     i: nat, j: nat)
    requires Inv(shadows, s) && GoodRuns(s, runs, metricNum) && T.Linked(ns) && T.Views(ns, v)
    requires v == InsertRuns(shadows, s, map[[] := T.Zeros(metricNum)], runs, metricNum)
    requires i < |ns| && j < metricNum
    ensures |ns[i].metrics| == metricNum && ns[i].metrics[j] == SumAt(shadows, s, runs, T.Path(ns, i), j)
  {
    assert T.Shown(ns, v, i);
    InsertRunsAt(shadows, s, runs, metricNum, T.Path(ns, i), j);
  }
}
